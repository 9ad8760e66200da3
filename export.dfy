/** The `download_csv` route: the stored report (or its absence) becomes a
    header row and data rows. Whether the report file exists and what
    `json.load` makes of it is the parameter `stored`; writing the CSV file
    and sending it are not modelled. */
module Export {
  import opened Wrappers
  import opened Scan
  import opened Normalise

  datatype Outcome =
    | NoReport                        // the 404 "No report available" answer
    | UnboundLocal(variable: string)  // the UnboundLocalError the route raises
    | Csv(header: seq<string>, rows: seq<seq<string>>)

  /** `data.get("vulnerabilities", [])`. */
  function Vulnerabilities(data: Report): seq<Vuln> {
    data.vulnerabilities.GetOr([])
  }

  /** The route as written: the append sits after the loop, so only the last
      finding gives a row, and with no finding the first read of `cve`
      fails. */
  function AsWritten(stored: Option<Report>): Outcome {
    match stored
    case None => NoReport
    case Some(data) =>
      var vs := Vulnerabilities(data);
      if vs == [] then UnboundLocal("cve") else Csv(Header, [RowOf(vs[|vs| - 1])])
  }

  /** One row per finding, in report order. */
  function Rows(vs: seq<Vuln>): seq<seq<string>> {
    if vs == [] then [] else Rows(vs[..|vs| - 1]) + [RowOf(vs[|vs| - 1])]
  }

  /** The route as its header comment and column list intend it: one row per
      finding. */
  function Intended(stored: Option<Report>): Outcome {
    match stored
    case None => NoReport
    case Some(data) => Csv(Header, Rows(Vulnerabilities(data)))
  }

  /** `download_csv` as written: the loop only reassigns its locals, and the
      single append after it reads the values left by the last finding. */
  method DownloadCsv(stored: Option<Report>) returns (out: Outcome)
    ensures out == AsWritten(stored)
  {
    if stored.None? {
      return NoReport;
    }
    var headers := Header;
    var rows: seq<seq<string>> := [];
    var vulns := Vulnerabilities(stored.value);
    // Python locals of the loop; `v` and `cve` are None while unbound, and all
    // of them are bound together by the first iteration.
    var v: Option<Vuln> := None;
    var cve: Option<string> := None;
    var cwe: Option<string> := Some(NotAvailable);
    var owasp, refLinks, description, remediation := "", "", "", "";
    for i := 0 to |vulns|
      invariant rows == []
      invariant v.None? <==> i == 0
      invariant cve.None? <==> i == 0
      invariant i > 0 ==> v == Some(vulns[i - 1]) && cve == Some(Cve(vulns[i - 1]))
      invariant i > 0 ==> cwe == CweValue(Identifiers(vulns[i - 1]))
      invariant i > 0 ==> owasp == Owasp(Identifiers(vulns[i - 1]))
      invariant i > 0 ==> refLinks == RefLinks(Identifiers(vulns[i - 1]))
      invariant i > 0 ==> description == Description(vulns[i - 1])
      invariant i > 0 ==> remediation == Remediation(description)
    {
      v := Some(vulns[i]);
      var identifiers := Identifiers(vulns[i]);
      cwe := CweValue(identifiers);
      owasp := Owasp(identifiers);
      cve := Some(Cve(vulns[i]));
      refLinks := RefLinks(identifiers);
      description := Description(vulns[i]);
      remediation := Remediation(description);
    }
    if cve.None? {
      return UnboundLocal("cve");
    }
    rows := rows + [RowOfLocals(v.value, cve.value, cwe, owasp, refLinks, description, remediation)];
    out := Csv(headers, rows);
  }

  /** `download_csv` with the append inside the loop: one row per finding. */
  method DownloadCsvIntended(stored: Option<Report>) returns (out: Outcome)
    ensures out == Intended(stored)
  {
    if stored.None? {
      return NoReport;
    }
    var headers := Header;
    var rows: seq<seq<string>> := [];
    var vulns := Vulnerabilities(stored.value);
    for i := 0 to |vulns|
      invariant rows == Rows(vulns[..i])
    {
      var v := vulns[i];
      var identifiers := Identifiers(v);
      var cwe := CweValue(identifiers);
      var owasp := Owasp(identifiers);
      var cve := Cve(v);
      var refLinks := RefLinks(identifiers);
      var description := Description(v);
      var remediation := Remediation(description);
      rows := rows + [RowOfLocals(v, cve, cwe, owasp, refLinks, description, remediation)];
      assert vulns[..i + 1][..i] == vulns[..i];
    }
    assert vulns[..|vulns|] == vulns;
    out := Csv(headers, rows);
  }

  /** One row per finding, the k-th row built from the k-th finding, each
      with as many cells as the header has titles. */
  lemma {:induction false} RowsSpec(vs: seq<Vuln>)
    ensures |Rows(vs)| == |vs|
    ensures forall k :: 0 <= k < |vs| ==> Rows(vs)[k] == RowOf(vs[k])
    ensures forall k :: 0 <= k < |vs| ==> |Rows(vs)[k]| == |Header|
    decreases |vs|
  {
    if vs != [] {
      var init := vs[..|vs| - 1];
      RowsSpec(init);
      assert Rows(vs) == Rows(init) + [RowOf(vs[|vs| - 1])];
      forall k | 0 <= k < |vs|
        ensures Rows(vs)[k] == RowOf(vs[k])
      {
        if k < |init| {
          assert init[k] == vs[k];
          assert Rows(vs)[k] == Rows(init)[k];
        } else {
          assert k == |Rows(init)|;
        }
      }
    }
  }

  /** Rows of a concatenation are the concatenation of rows: the export keeps
      the report's order. */
  lemma {:induction false} RowsAppend(a: seq<Vuln>, b: seq<Vuln>)
    ensures Rows(a + b) == Rows(a) + Rows(b)
    decreases |b|
  {
    if b == [] {
      assert a + b == a;
    } else {
      var init := b[..|b| - 1];
      assert (a + b)[..|a + b| - 1] == a + init;
      RowsAppend(a, init);
    }
  }

  /** With at least one finding and a stored report, the route as written
      keeps exactly the last of the intended rows. */
  lemma AsWrittenKeepsLast(stored: Option<Report>)
    requires stored.Some? && Vulnerabilities(stored.value) != []
    ensures AsWritten(stored).Csv? && Intended(stored).Csv?
    ensures AsWritten(stored).header == Intended(stored).header == Header
    ensures |Intended(stored).rows| == |Vulnerabilities(stored.value)|
    ensures var n := |Vulnerabilities(stored.value)|;
            AsWritten(stored).rows == [Intended(stored).rows[n - 1]]
  {
    var vs := Vulnerabilities(stored.value);
    RowsSpec(vs);
    assert Intended(stored).rows[|vs| - 1] == RowOf(vs[|vs| - 1]);
  }

  /** With two or more findings the route as written loses rows. */
  lemma AsWrittenLosesRows(stored: Option<Report>)
    requires stored.Some? && |Vulnerabilities(stored.value)| >= 2
    ensures |AsWritten(stored).rows| == 1 < |Intended(stored).rows| == |Vulnerabilities(stored.value)|
  {
    RowsSpec(Vulnerabilities(stored.value));
  }

  /** With no finding the route as written fails where the intended route
      exports the header alone. */
  lemma AsWrittenFailsWhenEmpty(stored: Option<Report>)
    requires stored.Some? && Vulnerabilities(stored.value) == []
    ensures AsWritten(stored) == UnboundLocal("cve")
    ensures Intended(stored) == Csv(Header, [])
  {
  }

  /** A report with two findings yields a single row, that of the second. */
  lemma TwoFindingsExample()
    ensures var first := Vuln(Some("first"), None, None, None, None, None, None);
            var second := Vuln(Some("second"), None, None, None, None, None, None);
            var stored := Some(Report(Some([first, second])));
            AsWritten(stored) == Csv(Header, [RowOf(second)])
            && Intended(stored) == Csv(Header, [RowOf(first), RowOf(second)])
            && RowOf(first) != RowOf(second)
  {
    var first := Vuln(Some("first"), None, None, None, None, None, None);
    var second := Vuln(Some("second"), None, None, None, None, None, None);
    var vs := [first, second];
    assert vs[..1] == [first] && [first][..0] == [];
    assert Rows([first]) == [RowOf(first)];
    assert Rows(vs) == [RowOf(first), RowOf(second)];
    assert RowOf(first)[0] == "first" && RowOf(second)[0] == "second";
  }
}
