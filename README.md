# PDF user/employee table merger, modelled in Dafny

The script reads a PDF, sorts the rows of its tables into *user* rows and
*employee* rows, joins the two lists by position, patches one known bad
record, and formats the result as a nine-column report. This project models
the two steps in the middle, `extract_pdf_tables` and `merge_user_emp_data`
of `merge.py`, and proves what they produce.

- `text.dfy` (module `Text`) has the Python string built-ins the script
  relies on. `str.strip()` removes exactly the characters `str.isspace()`
  accepts. `str.isdigit()` is non-empty and ASCII digits only. `int()` is
  applied to such a digit string.
- `extract.dfy` (module `Extract`) is the row classifier. `ExtractPdfTables`
  is the three nested loops over pages, tables and rows. It is proved equal
  to `UserRows` / `EmployeeRows` of the document's rows in reading order.
  Both are order-preserving maps-and-filters, built on a generic `Gather`.
- `merge.dfy` (module `Merge`) is the merger:
  - the user filter and `user_id` parse;
  - the employee frame capped at ten rows;
  - the positional join (`AssignEmployees`, in place on an array);
  - the masked patch for user 1 (`PatchKnownRecord`, a simultaneous `forall` assignment on the array);
  - the name prefix, the location recoding, and the projection onto the display columns.
  `MergeUserEmpData` is proved equal to the function `Merged`, and the
  lemmas state what `Merged` holds, record by record.
- `pipeline.dfy` (module `Pipeline`) feeds the extractor's output to the
  merger, as `main` does before writing files. The extractor's lists always
  meet the merger's expectations: every user entry passes the filter, and
  every employee entry has three cells.

Two behaviours of this code worth knowing:
- The user-1 patch fires when **any one** of company, designation or
  location still equals its header text (an `|` of three comparisons,
  merge.py:99-103). It does not require all three to match.
- A user row with `Emp_id` `CC3456YG11` and no employee rows is not given
  `Zoho / Data Engineer / Chennai` by this code: there is no
  identifier-keyed remediation here. That remediation, the
  header-scan classifier, the padding join and the `Matched` flag live in
  `merge two tables/merge_tables.py`, which is not part of this model. Here
  such a user keeps empty employee columns (`Merge.UnjoinedUserNotPatched`).

## Model

| member | source | states |
|---|---|---|
| `Text.Strip` | merge.py:30-31 | the result of `strip()` has no removable space at either end |
| `Text.IsSpace` | merge.py:30-31 | definition: the characters `strip()` removes, exactly the code points Python's `str.isspace()` accepts (U+0009-000D, U+001C-0020, U+0085, U+00A0, U+1680, U+2000-200A, U+2028, U+2029, U+202F, U+205F, U+3000) |
| `Text.StripPadded` | merge.py:30-31 | stripping any run of spaces around a stripped core gives back exactly that core |
| `Text.StripEmpty` | merge.py:30-31 | stripping leaves `""` exactly when the text is all spaces |
| `Text.StripIdempotent` | merge.py:30-31 | stripping twice is stripping once |
| `Text.IsDigits` | merge.py:30 | definition: `str.isdigit()` as the model takes it, non-empty and made of ASCII `0`-`9` only |
| `Text.DecimalValue` | merge.py:85 | `int()` of a digit string of length k is a natural number below 10^k |
| `Text.DecimalValueZero` | merge.py:85 | a digit string parses to 0 exactly when all its digits are `0` |
| `Text.DecimalValueOne` | merge.py:85 | a digit string parses to 1 exactly when it is `1` after leading zeros |
| `Extract.ExtractPdfTables` | merge.py:18-44 | the two lists the nested loops build are `UserRows` and `EmployeeRows` of all rows, page by page and table by table, in order |
| `Extract.IsUserRow` | merge.py:30 | definition: six cells, and a first cell that is non-empty text whose stripped form is a digit string |
| `Extract.IsEmployeeRow` | merge.py:34-42 | definition: six cells, text at positions 0, 2 and 4 and `None` at 1, 3 and 5 |
| `Extract.UserRows` | merge.py:19-31 | definition: the user list, the cleaned user rows of the input in order (`Gather` of each row's contribution) |
| `Extract.EmployeeRows` | merge.py:20-43 | definition: the employee list, the three stripped fields of each employee row that is not a user row, in order |
| `Extract.CleanCell` | merge.py:31 | a stored user cell is stripped text, `""` for `None` |
| `Extract.CleanUserRow` | merge.py:30-31 | a user entry has six stripped cells, the first a digit string |
| `Extract.EmployeeFields` | merge.py:33-43 | an employee entry has three stripped cells |
| `Extract.ClassifyOneRow` | merge.py:25-43 | one row goes to the user list iff it is a user row, to the employee list iff it is an employee row and not a user row, otherwise nowhere |
| `Extract.UserRowsAppend` | merge.py:21-31 | the user list of rows met one run after another is the concatenation of the lists of each run |
| `Extract.EmployeeRowsAppend` | merge.py:21-43 | the same for the employee list |
| `Extract.UserRowsMembers` | merge.py:30-31 | an entry is in the user list iff some user row of the input cleans to it |
| `Extract.EmployeeRowsMembers` | merge.py:33-43 | an entry is in the employee list iff some employee row that is not a user row gives it |
| `Extract.UserRowsShape` | merge.py:30-31 | every user entry has six stripped cells and a digit-string first cell |
| `Extract.EmployeeRowsShape` | merge.py:33-43 | every employee entry has three stripped cells |
| `Extract.NoiseRowDropped` | merge.py:25-43 | removing a row of neither shape changes neither list |
| `Extract.ListsAtMostRows` | merge.py:29-43 | each row lands in at most one list, so the two lengths add up to at most the row count |
| `Extract.UserShapeWins` | merge.py:29-33 | a row of both shapes (`" 7 "`, None, `"Acme"`, None, `"Pune"`, None) becomes the user entry `["7","","Acme","","Pune",""]` and no employee entry |
| `Merge.CleanUserRows` | merge.py:83 | the filtered rows all have six cells and a digit first cell, and there are no more of them than input rows |
| `Merge.IsCleanUserRow` | merge.py:83 | definition: the filter's test, six cells and a digit-string first cell |
| `Merge.CleanUserRowsMembers` | merge.py:83 | a row survives the filter iff it is in the input and passes the test |
| `Merge.CleanUserRowsAppend` | merge.py:83 | the filter keeps the input order |
| `Merge.CleanUserRowsKeepsClean` | merge.py:83 | rows that all pass the test come through unchanged |
| `Merge.ToUserRec` | merge.py:84-91 | a users-frame row holds the parsed id, the other five cells in column order, and empty employee columns |
| `Merge.UserFrame` | merge.py:84-91 | the users frame has one row per filtered user row, each built by `ToUserRec` |
| `Merge.EmployeeFrame` | merge.py:88 | the employee frame has min(10, number of employee rows) rows |
| `Merge.EmployeeAt` | merge.py:88-96 | definition: the employee data position i receives, employee i among the first ten rows, or three empty columns |
| `Merge.WithEmployee` | merge.py:94-96 | definition: a users row with its three employee columns set from one employee row, the other six unchanged |
| `Merge.Joined` | merge.py:93-96 | the join keeps the number of users; row i takes employee i where the frame has one and is unchanged otherwise |
| `Merge.AssignEmployees` | merge.py:93-96 | after the loop the array is the positional join of its old contents with the employee frame |
| `Merge.PatchKnownRecord` | merge.py:99-106 | after the masked assignment every row is patched exactly when it met the condition beforehand |
| `Merge.NeedsFix` | merge.py:99-103 | definition: user id 1 and at least one employee column still equal to its header text |
| `Merge.Fix` | merge.py:104-106 | definition: a row meeting the condition gets `Microsoft`, `Software Developer`, `Bangalore`; any other row is unchanged |
| `Merge.Fixed` | merge.py:99-106 | the patch keeps the number of rows and applies `Fix` to each |
| `Merge.FixChangesIffNeeded` | merge.py:99-106 | the patch changes a row iff the row is user 1 with a header text in an employee column |
| `Merge.FixIdempotent` | merge.py:99-106 | a patched row no longer meets the condition, so patching twice is patching once |
| `Merge.PrefixName` | merge.py:109 | the name column is `"employee name: "` followed by the unchanged name |
| `Merge.LocationCode` | merge.py:112-124 | the code is one of the nine codes, it is the map's entry for a mapped city, and it is `OTH` iff the city is not a key |
| `Merge.FormatLocation` | merge.py:123-125 | empty in iff empty out; otherwise a three-letter code, `": "`, then the location unchanged |
| `Merge.Display` | merge.py:109-146 | definition: a users row as a display row, its name prefixed, its location recoded, its nine columns in display order |
| `Merge.DisplayFrame` | merge.py:128-146 | the display step keeps the number of rows and applies `Display` to each |
| `Merge.KnownCityExamples` | merge.py:112-125 | `Bangalore` gives `DLL: Bangalore`, `Bengaluru` gives `DLL: Bengaluru`, `Chennai` gives `CHN: Chennai`, and `""` gives `""` |
| `Merge.UnknownCityExamples` | merge.py:112-125 | `Atlantis` gives `OTH: Atlantis`, and lower-case `bangalore` gives `OTH: bangalore` |
| `Merge.DisplayRoundTrip` | merge.py:109-146 | prefixing, recoding and reordering lose nothing: the users-frame row can be read back from its display row |
| `Merge.DisplayInjective` | merge.py:109-146 | two different users-frame rows never give the same display row |
| `Merge.Merged` | merge.py:79-148 | one display row per filtered user row, whatever the employee rows |
| `Merge.MergeUserEmpData` | merge.py:79-148 | the method's in-place join and patch produce exactly `Merged` |
| `Merge.MergedUserFields` | merge.py:83-146 | record i has the i-th filtered row's parsed id, its employee id, email, phone and gender unchanged, and its name prefixed |
| `Merge.MergedRecord` | merge.py:88-146 | record i is the display of the i-th filtered user row, joined with the employee data for position i (employee i among the first ten, or empty columns) and then patched |
| `Merge.MergedEmployeeFields` | merge.py:88-125 | record i shows employee i's company, designation and recoded location when i is below 10 and the employee count, and empty columns otherwise; when the patch condition holds it shows `Microsoft`, `Software Developer`, `DLL: Bangalore` instead |
| `Merge.MergedIgnoresLaterEmployees` | merge.py:88 | employee rows after the tenth never change the result |
| `Merge.HeaderRowPatched` | merge.py:98-125 | user 1 joined with the employee header row comes out as `Microsoft` / `Software Developer` / `DLL: Bangalore`, with its other columns as given |
| `Merge.SurplusUsersUnjoined` | merge.py:93-106 | with three users and one employee row, only the first user gets employee data, shown as given unless the patch applies to it; the other two keep empty employee columns |
| `Merge.UnjoinedUserNotPatched` | merge.py:99-106 | a user with no employee row keeps empty employee columns, even user 1 |
| `Pipeline.ExtractedUsersPassFilter` | merge.py:83 | the merger's user filter keeps every entry of the extractor's user list |
| `Pipeline.ExtractedEmployeesFit` | merge.py:88 | every employee entry the extractor produces fits the three-column employee frame |
| `Pipeline.ExtractAndMerge` | merge.py:152-154 | extracting then merging gives one display row per user row of the document, equal to `Merged` of the extracted lists |
| `Pipeline.UserRecordAt` | merge.py:85 | record k shows the k-th entry of the document's user list: its first cell parsed as user id, its last cell as employee id |
| `Pipeline.UserIdFromFirstCell` | merge.py:85 | each record's user id is the integer spelt by the stripped first cell of a user row of the document, and its employee id is that row's cleaned last cell |
| `Pipeline.EveryUserRowShown` | merge.py:85 | every user row of the document yields a record with its parsed first cell as user id and its cleaned last cell as employee id |

## Left out

- `debug_extract_all_tables` and its module-level call (merge.py:6-16) only open the PDF and print, so they are not modelled.
- `pdfplumber.open` and `page.extract_tables()` (merge.py:21-23) call into a foreign library. The pages, each holding a sequence of tables of rows of optional text cells, are the input of `Extract.ExtractPdfTables`.
- `export_to_pdf` and `export_to_csv` (merge.py:48-78) do file output, PDF layout and printing. `main`'s file names and writers (merge.py:150-160) are I/O as well. `Pipeline.ExtractAndMerge` models only lines 152-154.
- Pandas internals are not modelled: frame construction, `astype`, `apply`, boolean masks, dtypes and missing values. The frames are sequences of records and arrays of records.
- `Extract.IsUserRow`: `str.isdigit()` also accepts non-ASCII digits, and the model accepts ASCII `0`-`9` only. Two consequences follow.
  - A row whose stripped first cell is made of decimal digits of another script, such as `"٣"`, is a user row in Python, and `int()` parses it (`int("٣")` is 3). In the model it is not a user row. If it also has the employee shape, as `[Some("٣"), None, Some("A"), None, Some("B"), None]` does, the model puts it in the **employee** list, where Python puts it in the user list.
  - A first cell of digits that are not decimal, such as the superscript `"²"`, passes `isdigit()` in Python, so it becomes a user row, and then `int()` raises on it at merge.py:85. The model captures neither the classification nor the exception.
- `Merge.ToUserRec`: `user_id` is an unbounded natural number. The 64-bit integer limit of the pandas column is not modelled.
- `Merge.MergeUserEmpData` requires that each of the first ten employee rows has exactly three cells (`Merge.EmployeeRowsFit`). For other widths pandas either raises or pads with missing values, and neither is modelled. The extractor only produces three-cell rows (`Pipeline.ExtractedEmployeesFit`).
- A table row that is `None` rather than a list is skipped by `if not row` (merge.py:26). Here rows are always sequences, so only the empty row is skipped.
- A cell is `None` or text. A cell of any other Python type is not modelled, so `isinstance(cell, str)` is the same as "is text".
- `merge two tables/merge_tables.py` is not part of this model. It holds the header-keyword classifier, the padded join, the identifier-keyed remediation table, the Bangalore-only location rewrite and the `Matched` flag.
