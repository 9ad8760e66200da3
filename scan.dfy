/** The scanner report as the dashboard reads it: a JSON document whose
    `vulnerabilities` key holds findings. Every key may be absent, which is
    what `Option` records; JSON values are taken to be strings. */
module Scan {
  import opened Wrappers

  /** One typed cross-reference of a finding; `kind` is the JSON key `type`
      (for instance "cwe" or "owasp"). */
  datatype Identifier = Identifier(
    kind: Option<string>,
    value: Option<string>,
    name: Option<string>,
    url: Option<string>)

  /** The nested `location` object; `startLine` is the key `start_line`. */
  datatype Location = Location(file: Option<string>, startLine: Option<string>)

  /** One finding, with its identifiers in report order. */
  datatype Vuln = Vuln(
    name: Option<string>,
    severity: Option<string>,
    category: Option<string>,
    cve: Option<string>,
    description: Option<string>,
    location: Option<Location>,
    identifiers: Option<seq<Identifier>>)

  /** A parsed report file. */
  datatype Report = Report(vulnerabilities: Option<seq<Vuln>>)
}
