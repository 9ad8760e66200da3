# SAST dashboard: the CSV export of a vulnerability report

The dashboard (a small Flask application, `app.py`) stores one GitLab-style
SAST report per project and exports it as a CSV file. Its only real logic is
the export route `download_csv`: it reads the report's `vulnerabilities`,
derives eleven cells from each finding, and writes a header row plus the data
rows.

This project models that derivation and the route's accumulation loop:

- `wrappers.dfy` — `Option`, for JSON keys that may be absent (`d.get(key, default)` is `GetOr`).
- `pystr.dfy` — the Python string operations the row depends on: `str.isspace`
  (all 29 code points Python counts as whitespace), single-character
  `str.replace`, `str.strip()`, `str.join`, `p in s` and `s or d`, with lemmas
  that characterise each.
- `scan.dfy` — the finding record: optional `name`, `severity`, `category`,
  `cve`, `description`, an optional `location` with optional `file` and
  `start_line`, and an optional ordered list of identifiers with optional
  `type`, `value`, `name` and `url`.
- `normalise.dfy` — the header, the per-cell rules (defaults, first `cwe`
  identifier, joined OWASP names, joined non-empty URLs, the cleaned description,
  the remediation text) and the row, with lemmas for each rule.
- `export.dfy` — the route as written (method `DownloadCsv`, proved against the
  function `AsWritten`), the route with the append inside the loop (method
  `DownloadCsvIntended`, proved against `Intended`), and lemmas relating the two.

Whether the report file exists and what `json.load` returns are the parameter
`stored: Option<Report>` of the route; all JSON values are taken to be strings,
and strings are sequences of Unicode code points.

What the code does, where it is easy to misread:

- The header list (app.py:93-97) and the comment at app.py:80 ("download_csv
  with 11 fields") suggest one CSV row per finding. But the append at line 116
  is indented at function level, after the `for` loop of line 100. So the route
  emits exactly one row, the last finding's. When the list is empty it fails
  with an `UnboundLocalError` on `cve`, which is first read at line 113.
  `DownloadCsv` models the code as written; `DownloadCsvIntended` models the
  loop with the append inside it.
- The code tests the cleaned description for "RegExp" (app.py:106-109).
  `Normalise.RemediationFromRaw` proves this is the same as testing the raw one.
- The code compares the CWE local with the string `"N/A"` (app.py:123) and uses
  `x or "N/A"` for OWASP and Ref Link (app.py:124-125). So a first `cwe`
  identifier whose value is `"N/A"`, or a join that is itself `"N/A"`, also
  gives `"N/A"`. A first `cwe` identifier without `value` gives `"CWE-None"`.
  The lemmas state these exact conditions.

## Model

| member | source | states |
|---|---|---|
| `PyStr.ReplaceSpec` | app.py:106 | `replace` of one character keeps the length and changes exactly the positions holding that character |
| `PyStr.ReplaceAbsent` | app.py:106 | replacing a character that does not occur leaves the text unchanged |
| `PyStr.LStripSpec` | app.py:106 | left strip leaves a suffix, drops only whitespace, and the result does not start with whitespace |
| `PyStr.RStripSpec` | app.py:106 | right strip leaves a prefix, drops only whitespace, and the result does not end with whitespace |
| `PyStr.StripSpec` | app.py:106 | `strip()` yields a slice of its input with only whitespace on either side |
| `PyStr.StripEdges` | app.py:106 | the stripped text neither starts nor ends with whitespace |
| `PyStr.StripKeeps` | app.py:106-109 | stripping neither creates nor removes an occurrence of a non-empty pattern without whitespace |
| `PyStr.JoinAppend` | app.py:103-105 | joining a concatenation puts one separator between the two joins, so joined elements keep list order |
| `PyStr.JoinEmpty` | app.py:124 | with a non-empty separator the join is empty exactly when the list is empty or a single empty string |
| `PyStr.JoinNonEmpty` | app.py:125 | a join of non-empty strings is empty exactly when the list is empty |
| `Normalise.RowOfLocals` | app.py:116-128 | every appended row has as many cells as the header has titles, namely 11 |
| `Normalise.CweAbsent` | app.py:102 | with no identifier of type `cwe` there is no CWE value and the CWE cell is "N/A" |
| `Normalise.CweFirstWins` | app.py:102 | the first `cwe` identifier in input order supplies the value; the cell is "CWE-" plus it, or "N/A" when that value is "N/A" |
| `Normalise.CweIgnoresLater` | app.py:102 | identifiers after the first `cwe` one never change the CWE value |
| `Normalise.OwaspNamesAppend` | app.py:103 | the OWASP names of concatenated identifier lists are the concatenated names: input order is kept |
| `Normalise.OwaspNamesNone` | app.py:103 | identifiers of other types contribute no OWASP name |
| `Normalise.OwaspNamesEmpty` | app.py:103 | no OWASP name is collected exactly when no identifier has type `owasp` |
| `Normalise.SoleEmptyOfNames` | app.py:103 | when the collected names are the single empty string, exactly one identifier has type `owasp` and its name is empty or missing |
| `Normalise.NamesOfSoleEmpty` | app.py:103 | a sole `owasp` identifier with an empty or missing name yields the single empty name |
| `Normalise.OwaspNamesSingleEmpty` | app.py:103 | the collected names are the single empty string exactly when one identifier has type `owasp` and its name is empty or missing |
| `Normalise.OwaspCell` | app.py:103-124 | the OWASP join is empty exactly when no identifier has type `owasp`, or exactly one does and its name is empty or missing; the cell is "N/A" exactly when the join is empty or is "N/A", and the join otherwise |
| `Normalise.UrlsAppend` | app.py:105 | the URLs of concatenated identifier lists are the concatenated URLs: input order is kept |
| `Normalise.UrlsSpec` | app.py:105 | every collected URL is non-empty, and none is collected exactly when no identifier has a non-empty `url` |
| `Normalise.RefLinkCell` | app.py:125 | the Ref Link join is empty exactly when no identifier has a non-empty `url`; the cell is then "N/A", otherwise the join |
| `Normalise.CleanSpec` | app.py:106 | the cleaned description holds no newline and no double quote and has no leading or trailing whitespace |
| `Normalise.SanitiseKeepsPattern` | app.py:106-109 | the two replacements neither create nor remove an occurrence of a pattern free of newline, quotes and whitespace |
| `Normalise.RemediationFromRaw` | app.py:106-111 | testing the cleaned description for "RegExp" gives the same remediation as testing the raw one |
| `Normalise.RowDefaults` | app.py:101-128 | missing name, severity or category give ""; a missing location, or a missing file or start line inside it, gives ""; missing cve gives "N/A"; no identifiers give "N/A" for CWE, OWASP and Ref Link; missing description gives "" and the documentation advice |
| `Normalise.RowCells` | app.py:93-128 | the k-th cell of every row sits under the k-th header title: Name, Severity, File, Line, Category, CVE, CWE, OWASP, Ref Link, Description, Remediation, each computed by its own rule |
| `Normalise.RowDescription` | app.py:106-126 | the row's description cell is clean, and its remediation is the RE2 advice exactly when the raw description contains "RegExp" |
| `Normalise.ExampleRow` | app.py:100-128 | a regex finding with a CWE and an OWASP identifier gives the row "Unsafe Regex", "High", "", "", "", its CVE, "CWE-400", "A03", "N/A", its description, the RE2 advice |
| `Export.DownloadCsv` | app.py:84-128 | the route as written: no stored report gives the not-found answer, an empty list fails on the unbound `cve`, otherwise the header and exactly one row, that of the last finding |
| `Export.DownloadCsvIntended` | app.py:98-128 | the route with the append inside the loop: the header and one row per finding, in report order |
| `Export.RowsSpec` | app.py:100-128 | the intended rows are as many as the findings, the k-th built from the k-th finding, each as wide as the header |
| `Export.RowsAppend` | app.py:100-128 | the intended rows of concatenated finding lists are the concatenated rows |
| `Export.AsWrittenKeepsLast` | app.py:100-128 | for a non-empty list the route as written keeps exactly the last of the intended rows, under the same header |
| `Export.AsWrittenLosesRows` | app.py:100-128 | with two or more findings the route as written emits one row where one per finding is intended |
| `Export.AsWrittenFailsWhenEmpty` | app.py:100-116 | with no finding the route as written fails on `cve`, where the intended route exports the header alone |
| `Export.TwoFindingsExample` | app.py:100-128 | a report with two findings exports only the second finding's row |

## Findings

| source | as written | input that shows it | evidently intended | confidence | as-written member | corrected member |
|---|---|---|---|---|---|---|
| app.py:100-128 | `rows.append` sits after the `for` loop, so only the last finding's locals reach a row | a report with two findings: one row, that of the second | one row per finding, in report order | not executed | `Export.DownloadCsv`, `Export.TwoFindingsExample` | `Export.DownloadCsvIntended`, `Export.RowsSpec` |
| app.py:100-116 | with an empty list the loop never binds `cve` or `v`, and the read after it raises `UnboundLocalError` | a stored report with `"vulnerabilities": []` | a CSV holding the header alone | not executed | `Export.DownloadCsv`, `Export.AsWrittenFailsWhenEmpty` | `Export.DownloadCsvIntended` |

## Left out

- Login, logout, the session gate and the `login_required` decorator (app.py:17-46): HTTP and session plumbing with no logic to model.
- The report store: `upload`, `list_projects` and `get_data` (app.py:48-78) are file-system calls; `download_csv`'s own existence check and `json.load` are the parameter `stored` of `Export.DownloadCsv`, and a report that is not valid JSON (the exception `json.load` raises) is not modelled.
- CSV serialisation and quoting by `csv.writer`, the date-stamped file name, writing the file and `send_file` (app.py:130-140): library behaviour and I/O; the model stops at the header and the rows as lists of strings.
- The debug `print` calls (app.py:113-114); only their read of `cve`, which is what fails on an empty list, is modelled.
- JSON values that are not strings: an integer `start_line` (written by `csv.writer` as its decimal text), `null` values (`"location": null` or `"name": null` would raise in `dict.get` or `join`), and identifiers or findings that are not objects. Every value is a string or absent.
