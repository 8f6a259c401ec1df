/**
  What `main` does between reading the PDF and writing the files: the
  extractor's two lists go straight into the merger.
 */
module Pipeline {
  import opened Text
  import opened Extract
  import opened Merge

  /** Every entry of the extractor's user list passes the merger's user
      filter, so the filter keeps the whole list. */
  lemma ExtractedUsersPassFilter(rows: seq<Row>)
    ensures CleanUserRows(UserRows(rows)) == UserRows(rows)
  {
    UserRowsShape(rows);
    CleanUserRowsKeepsClean(UserRows(rows));
  }

  /** Every entry of the extractor's employee list has the employee frame's
      three columns. */
  lemma ExtractedEmployeesFit(rows: seq<Row>)
    ensures EmployeeRowsFit(EmployeeRows(rows))
  {
    EmployeeRowsShape(rows);
  }

  /** The two steps of `main` before the writers: one display record per
      user row of the document, in document order. */
  method ExtractAndMerge(pages: seq<Page>) returns (out: seq<OutRec>)
    ensures |out| == |UserRows(DocumentRows(pages))|
    ensures EmployeeRowsFit(EmployeeRows(DocumentRows(pages)))
    ensures out == Merged(UserRows(DocumentRows(pages)), EmployeeRows(DocumentRows(pages)))
  {
    var userRows, empRows := ExtractPdfTables(pages);
    ExtractedEmployeesFit(DocumentRows(pages));
    ExtractedUsersPassFilter(DocumentRows(pages));
    out := MergeUserEmpData(userRows, empRows);
  }

  /** Record `k` carries the `k`th entry of the document's user list: its
      user id is that entry's first cell parsed, its employee id the
      entry's last cell. */
  lemma UserRecordAt(rows: seq<Row>, k: nat)
    requires k < |UserRows(rows)|
    ensures EmployeeRowsFit(EmployeeRows(rows))
    ensures |Merged(UserRows(rows), EmployeeRows(rows))| == |UserRows(rows)|
    ensures IsUserEntry(UserRows(rows)[k])
    ensures Merged(UserRows(rows), EmployeeRows(rows))[k].userId == DecimalValue(UserRows(rows)[k][0])
    ensures Merged(UserRows(rows), EmployeeRows(rows))[k].employeeId == UserRows(rows)[k][5]
  {
    ExtractedEmployeesFit(rows);
    ExtractedUsersPassFilter(rows);
    UserRowsShape(rows);
    MergedUserFields(UserRows(rows), EmployeeRows(rows), k);
  }

  /** The user row record `k` comes from: its user id is the integer that
      row's stripped first cell spells, and its employee id is that row's
      cleaned last cell. */
  lemma UserIdFromFirstCell(rows: seq<Row>, k: nat)
    requires k < |UserRows(rows)|
    ensures EmployeeRowsFit(EmployeeRows(rows))
    ensures |Merged(UserRows(rows), EmployeeRows(rows))| == |UserRows(rows)|
    ensures exists i :: (0 <= i < |rows| && IsUserRow(rows[i])
      && Merged(UserRows(rows), EmployeeRows(rows))[k].userId == DecimalValue(Strip(rows[i][0].value))
      && Merged(UserRows(rows), EmployeeRows(rows))[k].employeeId == CleanCell(rows[i][5]))
  {
    UserRecordAt(rows, k);
    var u := UserRows(rows)[k];
    UserRowsMembers(rows, u);
    var i :| 0 <= i < |rows| && IsUserRow(rows[i]) && u == CleanUserRow(rows[i]);
  }

  /** Every user row of the document is shown: some record carries the
      integer its stripped first cell spells as user id, and its cleaned
      last cell as employee id. */
  lemma EveryUserRowShown(rows: seq<Row>, i: nat)
    requires i < |rows| && IsUserRow(rows[i])
    ensures EmployeeRowsFit(EmployeeRows(rows))
    ensures exists k :: (0 <= k < |Merged(UserRows(rows), EmployeeRows(rows))|
      && Merged(UserRows(rows), EmployeeRows(rows))[k].userId == DecimalValue(Strip(rows[i][0].value))
      && Merged(UserRows(rows), EmployeeRows(rows))[k].employeeId == CleanCell(rows[i][5]))
  {
    ExtractedEmployeesFit(rows);
    ExtractedUsersPassFilter(rows);
    var u := CleanUserRow(rows[i]);
    UserRowsMembers(rows, u);
    var k :| 0 <= k < |UserRows(rows)| && UserRows(rows)[k] == u;
    UserRecordAt(rows, k);
  }
}
