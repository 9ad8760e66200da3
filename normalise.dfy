/** The per-finding CSV row of the export: eleven cells derived from one
    finding by defaults, identifier lookups, joins, a cleaned description and
    a remediation text chosen by a substring test. */
module Normalise {
  import opened Wrappers
  import opened PyStr
  import opened Scan

  /** The header row of the export, one title per column. */
  const Header: seq<string> :=
    ["Name", "Severity", "File", "Line", "Category",
     "CVE", "CWE", "OWASP", "Ref Link",
     "Description", "Remediation"]

  const NotAvailable := "N/A"
  const Re2Advice := "Avoid user-supplied regular expressions. Use safe patterns or RE2."
  const DocsAdvice := "Refer to the official documentation or CWE/OWASP link."

  /** `v.get("identifiers", [])`. */
  function Identifiers(v: Vuln): seq<Identifier> {
    v.identifiers.GetOr([])
  }

  predicate IsCwe(i: Identifier) { i.kind == Some("cwe") }
  predicate IsOwasp(i: Identifier) { i.kind == Some("owasp") }
  /** `i.get("url")` is truthy: present and non-empty. */
  predicate HasUrl(i: Identifier) { i.url.Some? && i.url.value != "" }

  // ---------------------------------------------------------------- CWE

  /** The `value` of the first `cwe` identifier, when there is one
      (the element `next` takes from the generator). */
  function FirstCwe(ids: seq<Identifier>): Option<Option<string>> {
    if ids == [] then None
    else if IsCwe(ids[0]) then Some(ids[0].value)
    else FirstCwe(ids[1..])
  }

  /** The local `cwe`: the first `cwe` identifier's value (None when that
      identifier has no `value` key), or the string "N/A" when there is none. */
  function CweValue(ids: seq<Identifier>): Option<string> {
    match FirstCwe(ids)
    case None => Some(NotAvailable)
    case Some(val) => val
  }

  /** How the f-string `f"CWE-{cwe}"` renders the local: None prints as "None". */
  function Render(x: Option<string>): string {
    match x
    case None => "None"
    case Some(s) => s
  }

  /** The CWE cell: `f"CWE-{cwe}" if cwe != "N/A" else "N/A"`. */
  function CweCell(cwe: Option<string>): string {
    if cwe != Some(NotAvailable) then "CWE-" + Render(cwe) else NotAvailable
  }

  // ---------------------------------------------------------------- OWASP

  /** `i.get("name", "") for i in identifiers if i.get("type") == "owasp"`. */
  function OwaspNames(ids: seq<Identifier>): seq<string> {
    if ids == [] then []
    else (if IsOwasp(ids[0]) then [ids[0].name.GetOr("")] else []) + OwaspNames(ids[1..])
  }

  /** The local `owasp`. */
  function Owasp(ids: seq<Identifier>): string {
    Join(", ", OwaspNames(ids))
  }

  // ---------------------------------------------------------------- Ref Link

  /** `i.get("url", "") for i in identifiers if i.get("url")`. */
  function Urls(ids: seq<Identifier>): seq<string> {
    if ids == [] then []
    else (if HasUrl(ids[0]) then [ids[0].url.value] else []) + Urls(ids[1..])
  }

  /** The local `ref_links`. */
  function RefLinks(ids: seq<Identifier>): string {
    Join(", ", Urls(ids))
  }

  // ---------------------------------------------------------------- Description

  /** Newlines become spaces, then double quotes become single quotes. */
  function Sanitise(d: string): string {
    Replace(Replace(d, '\n', ' '), '"', '\'')
  }

  /** `.replace("\n", " ").replace("\"", "'").strip()`. */
  function Clean(d: string): string {
    Strip(Sanitise(d))
  }

  /** The local `description`: the cleaned `description`, "" when absent. */
  function Description(v: Vuln): string {
    Clean(v.description.GetOr(""))
  }

  /** The local `remediation`, chosen from the cleaned description. */
  function Remediation(description: string): string {
    if Contains(description, "RegExp") then Re2Advice else DocsAdvice
  }

  // ---------------------------------------------------------------- Row

  function FileCell(v: Vuln): string {
    match v.location
    case None => ""
    case Some(loc) => loc.file.GetOr("")
  }

  function LineCell(v: Vuln): string {
    match v.location
    case None => ""
    case Some(loc) => loc.startLine.GetOr("")
  }

  /** The local `cve`: `v.get("cve", "N/A")`. */
  function Cve(v: Vuln): string {
    v.cve.GetOr(NotAvailable)
  }

  /** The list the export appends: the finding's own fields next to the
      locals the loop derived from it, in the order of `Header`. */
  function RowOfLocals(v: Vuln, cve: string, cwe: Option<string>, owasp: string,
                       refLinks: string, description: string, remediation: string): (r: seq<string>)
    ensures |r| == |Header| == 11
  {
    [v.name.GetOr(""),
     v.severity.GetOr(""),
     FileCell(v),
     LineCell(v),
     v.category.GetOr(""),
     cve,
     CweCell(cwe),
     Or(owasp, NotAvailable),
     Or(refLinks, NotAvailable),
     description,
     remediation]
  }

  /** The row of one finding, with every local derived from that finding. */
  function RowOf(v: Vuln): seq<string> {
    var ids := Identifiers(v);
    var description := Description(v);
    RowOfLocals(v, Cve(v), CweValue(ids), Owasp(ids), RefLinks(ids), description, Remediation(description))
  }

  // ---------------------------------------------------------------- Lemmas: CWE

  /** With no `cwe` identifier the CWE cell is "N/A". */
  lemma {:induction false} CweAbsent(ids: seq<Identifier>)
    requires forall k :: 0 <= k < |ids| ==> !IsCwe(ids[k])
    ensures FirstCwe(ids) == None
    ensures CweCell(CweValue(ids)) == NotAvailable
  {
    if ids != [] {
      CweAbsent(ids[1..]);
    }
  }

  /** The first `cwe` identifier in input order supplies the value, and the
      cell is "CWE-" followed by it unless that value is itself "N/A". */
  lemma {:induction false} CweFirstWins(ids: seq<Identifier>, k: nat)
    requires k < |ids| && IsCwe(ids[k])
    requires forall j :: 0 <= j < k ==> !IsCwe(ids[j])
    ensures CweValue(ids) == ids[k].value
    ensures CweCell(CweValue(ids))
         == if ids[k].value == Some(NotAvailable) then NotAvailable else "CWE-" + Render(ids[k].value)
  {
    if k > 0 {
      CweFirstWins(ids[1..], k - 1);
    }
  }

  /** Identifiers after the first `cwe` one never change the CWE cell. */
  lemma CweIgnoresLater(pre: seq<Identifier>, c: Identifier, rest1: seq<Identifier>, rest2: seq<Identifier>)
    requires forall j :: 0 <= j < |pre| ==> !IsCwe(pre[j])
    requires IsCwe(c)
    ensures CweValue(pre + [c] + rest1) == CweValue(pre + [c] + rest2) == c.value
  {
    CweFirstWins(pre + [c] + rest1, |pre|);
    CweFirstWins(pre + [c] + rest2, |pre|);
  }

  // ---------------------------------------------------------------- Lemmas: OWASP

  /** The OWASP names follow the identifiers' order: the names of a
      concatenation are the concatenation of the names. */
  lemma {:induction false} OwaspNamesAppend(a: seq<Identifier>, b: seq<Identifier>)
    ensures OwaspNames(a + b) == OwaspNames(a) + OwaspNames(b)
  {
    if a == [] {
      assert a + b == b;
    } else {
      assert (a + b)[1..] == a[1..] + b;
      OwaspNamesAppend(a[1..], b);
    }
  }

  /** Identifiers of other types contribute no OWASP name. */
  lemma {:induction false} OwaspNamesNone(ids: seq<Identifier>)
    requires forall k :: 0 <= k < |ids| ==> !IsOwasp(ids[k])
    ensures OwaspNames(ids) == []
  {
    if ids != [] {
      OwaspNamesNone(ids[1..]);
    }
  }

  /** No OWASP name is collected exactly when no identifier has type `owasp`. */
  lemma {:induction false} OwaspNamesEmpty(ids: seq<Identifier>)
    ensures OwaspNames(ids) == [] <==> forall k :: 0 <= k < |ids| ==> !IsOwasp(ids[k])
  {
    if ids != [] {
      OwaspNamesEmpty(ids[1..]);
      assert forall k :: 1 <= k < |ids| ==> ids[k] == ids[1..][k - 1];
    }
  }

  /** `ids[k]` is the only identifier of type `owasp`. */
  predicate SoleOwaspAt(ids: seq<Identifier>, k: int) {
    0 <= k < |ids| && IsOwasp(ids[k])
    && forall j :: 0 <= j < |ids| && j != k ==> !IsOwasp(ids[j])
  }

  /** Names that are a single empty string come from a sole `owasp`
      identifier whose name is empty or missing. */
  lemma {:induction false} SoleEmptyOfNames(ids: seq<Identifier>) returns (k: nat)
    requires OwaspNames(ids) == [""]
    ensures SoleOwaspAt(ids, k) && ids[k].name.GetOr("") == ""
  {
    var rest := ids[1..];
    assert forall j :: 1 <= j < |ids| ==> ids[j] == rest[j - 1];
    if IsOwasp(ids[0]) {
      assert [ids[0].name.GetOr("")] + OwaspNames(rest) == [""];
      assert OwaspNames(rest) == [];
      assert ([ids[0].name.GetOr("")] + OwaspNames(rest))[0] == ids[0].name.GetOr("");
      OwaspNamesEmpty(rest);
      k := 0;
    } else {
      var k' := SoleEmptyOfNames(rest);
      k := k' + 1;
    }
  }

  /** A sole `owasp` identifier with an empty or missing name yields the
      names `[""]`. */
  lemma {:induction false} NamesOfSoleEmpty(ids: seq<Identifier>, k: nat)
    requires SoleOwaspAt(ids, k) && ids[k].name.GetOr("") == ""
    ensures OwaspNames(ids) == [""]
  {
    var rest := ids[1..];
    assert forall j :: 1 <= j < |ids| ==> ids[j] == rest[j - 1];
    if k == 0 {
      assert forall j :: 0 <= j < |rest| ==> !IsOwasp(rest[j]);
      OwaspNamesNone(rest);
    } else {
      assert !IsOwasp(ids[0]);
      assert SoleOwaspAt(rest, k - 1);
      NamesOfSoleEmpty(rest, k - 1);
    }
  }

  /** The OWASP names are a single empty string exactly when one identifier
      has type `owasp` and its name is empty or missing. */
  lemma OwaspNamesSingleEmpty(ids: seq<Identifier>)
    ensures OwaspNames(ids) == [""]
        <==> exists k :: SoleOwaspAt(ids, k) && ids[k].name.GetOr("") == ""
  {
    if OwaspNames(ids) == [""] {
      var k := SoleEmptyOfNames(ids);
    }
    if exists k :: SoleOwaspAt(ids, k) && ids[k].name.GetOr("") == "" {
      var k :| SoleOwaspAt(ids, k) && ids[k].name.GetOr("") == "";
      NamesOfSoleEmpty(ids, k);
    }
  }

  /** The joined OWASP names are empty exactly when there is no `owasp`
      identifier, or a single one with an empty or missing name; the cell is
      "N/A" exactly when that join is empty or is itself "N/A", and the join
      otherwise. */
  lemma OwaspCell(ids: seq<Identifier>)
    ensures Owasp(ids) == ""
        <==> ((forall k :: 0 <= k < |ids| ==> !IsOwasp(ids[k]))
              || exists k :: SoleOwaspAt(ids, k) && ids[k].name.GetOr("") == "")
    ensures Or(Owasp(ids), NotAvailable) == NotAvailable
        <==> (Owasp(ids) == "" || Owasp(ids) == NotAvailable)
    ensures Owasp(ids) != "" ==> Or(Owasp(ids), NotAvailable) == Owasp(ids)
  {
    JoinEmpty(", ", OwaspNames(ids));
    OwaspNamesEmpty(ids);
    OwaspNamesSingleEmpty(ids);
  }

  // ---------------------------------------------------------------- Lemmas: Ref Link

  /** The URLs follow the identifiers' order. */
  lemma {:induction false} UrlsAppend(a: seq<Identifier>, b: seq<Identifier>)
    ensures Urls(a + b) == Urls(a) + Urls(b)
  {
    if a == [] {
      assert a + b == b;
    } else {
      assert (a + b)[1..] == a[1..] + b;
      UrlsAppend(a[1..], b);
    }
  }

  /** Every URL collected is non-empty, and none is collected exactly when no
      identifier has a non-empty `url`. */
  lemma {:induction false} UrlsSpec(ids: seq<Identifier>)
    ensures forall k :: 0 <= k < |Urls(ids)| ==> Urls(ids)[k] != ""
    ensures Urls(ids) == [] <==> forall k :: 0 <= k < |ids| ==> !HasUrl(ids[k])
  {
    if ids != [] {
      UrlsSpec(ids[1..]);
      assert forall k :: 1 <= k < |ids| ==> ids[k] == ids[1..][k - 1];
    }
  }

  /** The Ref Link cell is "N/A" when no identifier has a non-empty `url`;
      otherwise it is the non-empty join of the URLs. */
  lemma RefLinkCell(ids: seq<Identifier>)
    ensures RefLinks(ids) == "" <==> forall k :: 0 <= k < |ids| ==> !HasUrl(ids[k])
    ensures Or(RefLinks(ids), NotAvailable)
         == if forall k :: 0 <= k < |ids| ==> !HasUrl(ids[k]) then NotAvailable else RefLinks(ids)
  {
    UrlsSpec(ids);
    JoinNonEmpty(", ", Urls(ids));
  }

  // ---------------------------------------------------------------- Lemmas: Description and Remediation

  /** The cleaned description holds no newline and no double quote, and
      neither starts nor ends with whitespace. */
  lemma CleanSpec(d: string)
    ensures '\n' !in Clean(d) && '"' !in Clean(d)
    ensures Clean(d) == [] || (!IsSpace(Clean(d)[0]) && !IsSpace(Clean(d)[|Clean(d)| - 1]))
  {
    var s, r := Sanitise(d), Clean(d);
    ReplaceSpec(d, '\n', ' ');
    ReplaceSpec(Replace(d, '\n', ' '), '"', '\'');
    var a := StripSpec(s);
    StripEdges(s);
    forall i | 0 <= i < |r|
      ensures r[i] != '\n' && r[i] != '"'
    {
      assert r[i] == s[a + i];
    }
  }

  /** A character that neither sanitising nor stripping can produce or drop. */
  predicate Plain(c: char) {
    c != '\n' && c != '"' && c != '\'' && !IsSpace(c)
  }

  /** Sanitising keeps and creates no occurrence of a pattern of plain characters. */
  lemma SanitiseKeepsPattern(d: string, p: string)
    requires forall j :: 0 <= j < |p| ==> Plain(p[j])
    ensures Contains(Sanitise(d), p) <==> Contains(d, p)
  {
    var t := Sanitise(d);
    ReplaceSpec(d, '\n', ' ');
    ReplaceSpec(Replace(d, '\n', ' '), '"', '\'');
    forall k | 0 <= k <= |d| - |p|
      ensures OccursAt(t, p, k) <==> OccursAt(d, p, k)
    {
      forall j | 0 <= j < |p|
        ensures t[k + j] == p[j] <==> d[k + j] == p[j]
      {
        assert t[k + j] == (if d[k + j] == '\n' then ' ' else if d[k + j] == '"' then '\'' else d[k + j]);
      }
      assert OccursAt(t, p, k) <==> forall j :: 0 <= j < |p| ==> t[k + j] == p[j];
      assert OccursAt(d, p, k) <==> forall j :: 0 <= j < |p| ==> d[k + j] == p[j];
    }
  }

  /** Testing the cleaned description for "RegExp" is the same as testing the
      raw one. */
  lemma RemediationFromRaw(d: string)
    ensures Remediation(Clean(d)) == if Contains(d, "RegExp") then Re2Advice else DocsAdvice
  {
    var p := "RegExp";
    assert forall j :: 0 <= j < |p| ==> Plain(p[j]);
    SanitiseKeepsPattern(d, p);
    StripKeeps(Sanitise(d), p);
  }

  // ---------------------------------------------------------------- Lemmas: the row

  /** What each cell of a row is when keys are missing, and that the
      description and remediation cells depend on the description alone. */
  lemma RowDefaults(v: Vuln)
    ensures v.name.None? ==> RowOf(v)[0] == ""
    ensures v.severity.None? ==> RowOf(v)[1] == ""
    ensures v.location.None? ==> RowOf(v)[2] == "" && RowOf(v)[3] == ""
    ensures v.location.Some? && v.location.value.file.None? ==> RowOf(v)[2] == ""
    ensures v.location.Some? && v.location.value.startLine.None? ==> RowOf(v)[3] == ""
    ensures v.category.None? ==> RowOf(v)[4] == ""
    ensures v.cve.None? ==> RowOf(v)[5] == NotAvailable
    ensures (v.identifiers.None? || v.identifiers == Some([])) ==>
              RowOf(v)[6] == NotAvailable && RowOf(v)[7] == NotAvailable && RowOf(v)[8] == NotAvailable
    ensures v.description.None? ==> RowOf(v)[9] == "" && RowOf(v)[10] == DocsAdvice
  {
    var ids := Identifiers(v);
    if ids == [] {
      assert OwaspNames(ids) == [] && Urls(ids) == [];
    }
    if v.description.None? {
      assert Sanitise("") == "";
      assert Clean("") == "";
      assert !Contains("", "RegExp");
    }
  }

  /** Each cell of a row sits under its title in `Header`. */
  lemma RowCells(v: Vuln)
    ensures var r, ids := RowOf(v), Identifiers(v);
      && Header[0] == "Name" && r[0] == v.name.GetOr("")
      && Header[1] == "Severity" && r[1] == v.severity.GetOr("")
      && Header[2] == "File" && r[2] == FileCell(v)
      && Header[3] == "Line" && r[3] == LineCell(v)
      && Header[4] == "Category" && r[4] == v.category.GetOr("")
      && Header[5] == "CVE" && r[5] == Cve(v)
      && Header[6] == "CWE" && r[6] == CweCell(CweValue(ids))
      && Header[7] == "OWASP" && r[7] == Or(Owasp(ids), NotAvailable)
      && Header[8] == "Ref Link" && r[8] == Or(RefLinks(ids), NotAvailable)
      && Header[9] == "Description" && r[9] == Description(v)
      && Header[10] == "Remediation" && r[10] == Remediation(Description(v))
  {
  }

  /** The description cell is clean, and the remediation cell is the RE2
      advice exactly when the raw description contains "RegExp". */
  lemma RowDescription(v: Vuln)
    ensures '\n' !in RowOf(v)[9] && '"' !in RowOf(v)[9]
    ensures RowOf(v)[9] == [] || (!IsSpace(RowOf(v)[9][0]) && !IsSpace(RowOf(v)[9][|RowOf(v)[9]| - 1]))
    ensures RowOf(v)[10] == if Contains(v.description.GetOr(""), "RegExp") then Re2Advice else DocsAdvice
  {
    CleanSpec(v.description.GetOr(""));
    RemediationFromRaw(v.description.GetOr(""));
  }

  /** A worked example: a regex finding with a CWE and an OWASP identifier. */
  lemma ExampleRow()
    ensures RowOf(Vuln(Some("Unsafe Regex"), Some("High"), None, Some("CVE-2023-0001"),
                       Some("Uses RegExp(input)"), None,
                       Some([Identifier(Some("cwe"), Some("400"), None, None),
                             Identifier(Some("owasp"), None, Some("A03"), None)])))
         == ["Unsafe Regex", "High", "", "", "", "CVE-2023-0001", "CWE-400", "A03", "N/A",
             "Uses RegExp(input)", Re2Advice]
  {
    ExampleIdentifiers();
    ExampleDescription("Uses RegExp(input)");
  }

  lemma ExampleIdentifiers()
    ensures var ids := [Identifier(Some("cwe"), Some("400"), None, None),
                        Identifier(Some("owasp"), None, Some("A03"), None)];
            CweCell(CweValue(ids)) == "CWE-400"
            && Or(Owasp(ids), NotAvailable) == "A03"
            && Or(RefLinks(ids), NotAvailable) == NotAvailable
  {
    var cwe := Identifier(Some("cwe"), Some("400"), None, None);
    var owasp := Identifier(Some("owasp"), None, Some("A03"), None);
    var ids := [cwe, owasp];
    assert ids[1..] == [owasp] && [owasp][1..] == [];
    assert OwaspNames([owasp]) == ["A03"] + OwaspNames([]) == ["A03"];
    assert OwaspNames(ids) == [] + OwaspNames([owasp]);
    assert Urls([owasp]) == [] + Urls([]) == [];
    assert Urls(ids) == [] + Urls([owasp]);
  }

  lemma ExampleDescription(d: string)
    requires d == "Uses RegExp(input)"
    ensures Clean(d) == d
    ensures Remediation(d) == Re2Advice
  {
    assert forall k :: 0 <= k < |d| ==> d[k] != '\n' && d[k] != '"';
    ReplaceAbsent(d, '\n', ' ');
    ReplaceAbsent(d, '"', '\'');
    assert !IsSpace(d[|d| - 1]) && !IsSpace(d[0]);
    assert d[5..11] == "RegExp";
    assert OccursAt(d, "RegExp", 5);
  }
}
