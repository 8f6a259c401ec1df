/**
  The row classifier of `extract_pdf_tables`: every row of every table of
  every page is either a user row, an employee row or noise. The PDF library
  is not modelled; its output, a sequence of pages each holding a sequence of
  tables, is the input here.
 */
module Extract {
  import opened Text

  /** One extracted table row; a cell is `None` or text. */
  type Row = seq<Option<string>>
  type Table = seq<Row>
  /** The tables the extractor found on one page. */
  type Page = seq<Table>

  /** `f(s[0]) + f(s[1]) + ...`: what appending `f(x)` for each `x` of `s`,
      in order, builds. */
  function Gather<T, U>(f: T -> seq<U>, s: seq<T>): seq<U> {
    if s == [] then [] else Gather(f, s[..|s| - 1]) + f(s[|s| - 1])
  }

  /** Gathering over two sequences in a row is gathering over each: the
      order of encounter is kept. */
  lemma {:induction false} GatherAppend<T, U>(f: T -> seq<U>, a: seq<T>, b: seq<T>)
    ensures Gather(f, a + b) == Gather(f, a) + Gather(f, b)
  {
    if b == [] {
      assert a + b == a;
    } else {
      var b' := b[..|b| - 1];
      assert (a + b)[..|a + b| - 1] == a + b';
      assert (a + b)[|a + b| - 1] == b[|b| - 1];
      GatherAppend(f, a, b');
    }
  }

  /** Gathering over a single element is applying `f` to it. */
  lemma GatherOne<T, U>(f: T -> seq<U>, x: T)
    ensures Gather(f, [x]) == f(x)
  {
    assert [x][..0] == [];
  }

  /** An element is gathered exactly when some `f(s[i])` holds it. */
  lemma {:induction false} GatherMembers<T, U>(f: T -> seq<U>, s: seq<T>, x: U)
    ensures x in Gather(f, s) <==> exists i :: 0 <= i < |s| && x in f(s[i])
  {
    if s != [] {
      var init := s[..|s| - 1];
      GatherMembers(f, init, x);
      if x in Gather(f, init) {
        var i :| 0 <= i < |init| && x in f(init[i]);
        assert s[i] == init[i];
      }
      if exists i :: 0 <= i < |s| && x in f(s[i]) {
        var i :| 0 <= i < |s| && x in f(s[i]);
        if i < |init| {
          assert init[i] == s[i];
        }
      }
    }
  }

  /** Loop step: the prefix of `s` of length `i + 1` gathers to that of
      length `i` followed by `f(s[i])`. */
  lemma GatherStep<T, U>(f: T -> seq<U>, s: seq<T>, i: nat)
    requires i < |s|
    ensures Gather(f, s[..i + 1]) == Gather(f, s[..i]) + f(s[i])
  {
    assert s[..i + 1][..i] == s[..i];
  }

  /** An element that contributes nothing can be dropped. */
  lemma GatherDrop<T, U>(f: T -> seq<U>, s: seq<T>, i: nat)
    requires i < |s| && f(s[i]) == []
    ensures Gather(f, s) == Gather(f, s[..i] + s[i + 1..])
  {
    var a, b := s[..i], s[i + 1..];
    assert s == (a + [s[i]]) + b;
    GatherAppend(f, a + [s[i]], b);
    GatherAppend(f, a, [s[i]]);
    GatherAppend(f, a, b);
    GatherOne(f, s[i]);
  }

  function Identity<T>(x: T): T { x }

  /** The rows of a page's tables, table after table. */
  function PageRows(tables: seq<Table>): seq<Row> {
    Gather(Identity, tables)
  }

  /** The rows of the whole document, page after page: the order in which
      the classifier meets them. */
  function DocumentRows(pages: seq<Page>): seq<Row> {
    Gather(PageRows, pages)
  }

  /** Six cells, and a first cell that is non-empty text whose stripped form
      is a digit string. */
  predicate IsUserRow(row: Row) {
    && |row| == 6
    && row[0].Some? && row[0].value != ""
    && IsDigits(Strip(row[0].value))
  }

  /** Six cells: text at positions 0, 2 and 4, `None` at 1, 3 and 5. */
  predicate IsEmployeeRow(row: Row) {
    && |row| == 6
    && row[0].Some? && row[1].None?
    && row[2].Some? && row[3].None?
    && row[4].Some? && row[5].None?
  }

  /** What every user-list entry looks like: six stripped cells, the first a
      digit string. */
  predicate IsUserEntry(u: seq<string>) {
    |u| == 6 && IsDigits(u[0]) && forall j :: 0 <= j < 6 ==> IsStripped(u[j])
  }

  /** What every employee-list entry looks like: three stripped cells. */
  predicate IsEmployeeEntry(e: seq<string>) {
    |e| == 3 && forall j :: 0 <= j < 3 ==> IsStripped(e[j])
  }

  /** A cell as stored in a user row: stripped text, `""` for `None` or empty. */
  function CleanCell(cell: Option<string>): (c: string)
    ensures IsStripped(c)
  {
    match cell
    case None => ""
    case Some(s) => if s == "" then "" else Strip(s)
  }

  /** The entry a user row adds to the user list: its six cells, cleaned. */
  function CleanUserRow(row: Row): (u: seq<string>)
    requires IsUserRow(row)
    ensures IsUserEntry(u)
  {
    [CleanCell(row[0]), CleanCell(row[1]), CleanCell(row[2]),
     CleanCell(row[3]), CleanCell(row[4]), CleanCell(row[5])]
  }

  /** Company, designation and location of an employee row, stripped. */
  function EmployeeFields(row: Row): (e: seq<string>)
    requires IsEmployeeRow(row)
    ensures IsEmployeeEntry(e)
  {
    var company, designation, location := Strip(row[0].value), Strip(row[2].value), Strip(row[4].value);
    assert IsStripped(company) && IsStripped(designation) && IsStripped(location);
    [company, designation, location]
  }

  /** What one row adds to the user list. */
  function UserEntryOf(row: Row): seq<seq<string>> {
    if IsUserRow(row) then [CleanUserRow(row)] else []
  }

  /** What one row adds to the employee list: a row that is also a user row
      adds nothing here. */
  function EmployeeEntryOf(row: Row): seq<seq<string>> {
    if !IsUserRow(row) && IsEmployeeRow(row) then [EmployeeFields(row)] else []
  }

  /** The user list built from `rows`. */
  function UserRows(rows: seq<Row>): seq<seq<string>> {
    Gather(UserEntryOf, rows)
  }

  /** The employee list built from `rows`. */
  function EmployeeRows(rows: seq<Row>): seq<seq<string>> {
    Gather(EmployeeEntryOf, rows)
  }

  /** `extract_pdf_tables` after the PDF has been read: walk the rows page by
      page, table by table, appending user rows and employee rows. */
  method ExtractPdfTables(pages: seq<Page>) returns (userRows: seq<seq<string>>, empRows: seq<seq<string>>)
    ensures userRows == UserRows(DocumentRows(pages))
    ensures empRows == EmployeeRows(DocumentRows(pages))
  {
    userRows, empRows := [], [];
    for p := 0 to |pages|
      invariant userRows == UserRows(DocumentRows(pages[..p]))
      invariant empRows == EmployeeRows(DocumentRows(pages[..p]))
    {
      var tables := pages[p];
      ghost var before := DocumentRows(pages[..p]);
      assert tables[..0] == [];
      assert before + PageRows(tables[..0]) == before;
      for t := 0 to |tables|
        invariant userRows == UserRows(before + PageRows(tables[..t]))
        invariant empRows == EmployeeRows(before + PageRows(tables[..t]))
      {
        var table := tables[t];
        ghost var prefix := before + PageRows(tables[..t]);
        assert prefix + table[..0] == prefix;
        for r := 0 to |table|
          invariant userRows == UserRows(prefix + table[..r])
          invariant empRows == EmployeeRows(prefix + table[..r])
        {
          var row := table[r];
          ExtendByRow(prefix, table, r);
          if row == [] {
            continue;
          }
          if IsUserRow(row) {
            userRows := userRows + [CleanUserRow(row)];
          } else if IsEmployeeRow(row) {
            empRows := empRows + [EmployeeFields(row)];
          }
        }
        ExtendByTable(before, tables, t);
      }
      ExtendByPage(pages, p);
    }
    assert pages[..|pages|] == pages;
  }

  /** Inner loop step: one more row of the current table. */
  lemma ExtendByRow(prefix: seq<Row>, table: Table, r: nat)
    requires r < |table|
    ensures UserRows(prefix + table[..r + 1]) == UserRows(prefix + table[..r]) + UserEntryOf(table[r])
    ensures EmployeeRows(prefix + table[..r + 1]) == EmployeeRows(prefix + table[..r]) + EmployeeEntryOf(table[r])
  {
    assert prefix + table[..r + 1] == (prefix + table[..r]) + [table[r]];
    GatherAppend(UserEntryOf, prefix + table[..r], [table[r]]);
    GatherAppend(EmployeeEntryOf, prefix + table[..r], [table[r]]);
    GatherOne(UserEntryOf, table[r]);
    GatherOne(EmployeeEntryOf, table[r]);
  }

  /** Middle loop step: the whole current table has been read. */
  lemma ExtendByTable(before: seq<Row>, tables: seq<Table>, t: nat)
    requires t < |tables|
    ensures (before + PageRows(tables[..t])) + tables[t][..|tables[t]|]
         == before + PageRows(tables[..t + 1])
  {
    GatherStep(Identity, tables, t);
    assert tables[t][..|tables[t]|] == tables[t];
  }

  /** Outer loop step: the whole current page has been read. */
  lemma ExtendByPage(pages: seq<Page>, p: nat)
    requires p < |pages|
    ensures DocumentRows(pages[..p]) + PageRows(pages[p][..|pages[p]|]) == DocumentRows(pages[..p + 1])
  {
    GatherStep(PageRows, pages, p);
    assert pages[p][..|pages[p]|] == pages[p];
  }

  /** The user list of rows met one after the other is the user list of the
      first followed by that of the second: encounter order is kept. */
  lemma UserRowsAppend(a: seq<Row>, b: seq<Row>)
    ensures UserRows(a + b) == UserRows(a) + UserRows(b)
  {
    GatherAppend(UserEntryOf, a, b);
  }

  /** Likewise for the employee list. */
  lemma EmployeeRowsAppend(a: seq<Row>, b: seq<Row>)
    ensures EmployeeRows(a + b) == EmployeeRows(a) + EmployeeRows(b)
  {
    GatherAppend(EmployeeEntryOf, a, b);
  }

  /** A single row goes to the user list exactly when it is a user row, to
      the employee list exactly when it is an employee row and not a user
      row, and to neither otherwise. */
  lemma ClassifyOneRow(row: Row)
    ensures UserRows([row]) == if IsUserRow(row) then [CleanUserRow(row)] else []
    ensures EmployeeRows([row]) ==
      if !IsUserRow(row) && IsEmployeeRow(row) then [EmployeeFields(row)] else []
  {
    GatherOne(UserEntryOf, row);
    GatherOne(EmployeeEntryOf, row);
  }

  /** An entry is in the user list exactly when some user row of the input
      cleans to it. */
  lemma UserRowsMembers(rows: seq<Row>, x: seq<string>)
    ensures x in UserRows(rows) <==>
      exists i :: 0 <= i < |rows| && IsUserRow(rows[i]) && x == CleanUserRow(rows[i])
  {
    GatherMembers(UserEntryOf, rows, x);
    assert forall i :: 0 <= i < |rows| ==>
      (x in UserEntryOf(rows[i]) <==> IsUserRow(rows[i]) && x == CleanUserRow(rows[i]));
  }

  /** An entry is in the employee list exactly when some employee row of the
      input that is not a user row gives it. */
  lemma EmployeeRowsMembers(rows: seq<Row>, x: seq<string>)
    ensures x in EmployeeRows(rows) <==>
      exists i :: 0 <= i < |rows| && !IsUserRow(rows[i]) && IsEmployeeRow(rows[i])
                  && x == EmployeeFields(rows[i])
  {
    GatherMembers(EmployeeEntryOf, rows, x);
    assert forall i :: 0 <= i < |rows| ==>
      (x in EmployeeEntryOf(rows[i]) <==>
        !IsUserRow(rows[i]) && IsEmployeeRow(rows[i]) && x == EmployeeFields(rows[i]));
  }

  /** Every user-list entry has six stripped cells, the first a digit string. */
  lemma UserRowsShape(rows: seq<Row>)
    ensures forall k :: 0 <= k < |UserRows(rows)| ==> IsUserEntry(UserRows(rows)[k])
  {
    forall k | 0 <= k < |UserRows(rows)| ensures IsUserEntry(UserRows(rows)[k]) {
      UserRowsMembers(rows, UserRows(rows)[k]);
    }
  }

  /** Every employee-list entry has three stripped cells. */
  lemma EmployeeRowsShape(rows: seq<Row>)
    ensures forall k :: 0 <= k < |EmployeeRows(rows)| ==> IsEmployeeEntry(EmployeeRows(rows)[k])
  {
    forall k | 0 <= k < |EmployeeRows(rows)| ensures IsEmployeeEntry(EmployeeRows(rows)[k]) {
      EmployeeRowsMembers(rows, EmployeeRows(rows)[k]);
    }
  }

  /** A row of neither shape can be removed from the input without changing
      either list. */
  lemma NoiseRowDropped(rows: seq<Row>, i: nat)
    requires i < |rows| && !IsUserRow(rows[i]) && !IsEmployeeRow(rows[i])
    ensures UserRows(rows) == UserRows(rows[..i] + rows[i + 1..])
    ensures EmployeeRows(rows) == EmployeeRows(rows[..i] + rows[i + 1..])
  {
    assert UserEntryOf(rows[i]) == [] && EmployeeEntryOf(rows[i]) == [];
    GatherDrop(UserEntryOf, rows, i);
    GatherDrop(EmployeeEntryOf, rows, i);
  }

  /** Each row lands in at most one list. */
  lemma {:induction false} ListsAtMostRows(rows: seq<Row>)
    ensures |UserRows(rows)| + |EmployeeRows(rows)| <= |rows|
  {
    if rows != [] {
      var init := rows[..|rows| - 1];
      ListsAtMostRows(init);
      assert init + [rows[|rows| - 1]] == rows;
      UserRowsAppend(init, [rows[|rows| - 1]]);
      EmployeeRowsAppend(init, [rows[|rows| - 1]]);
      ClassifyOneRow(rows[|rows| - 1]);
    }
  }

  /** A row that has both shapes, a digit string followed by the employee
      pattern, is a user row only. */
  lemma UserShapeWins()
    ensures var row := [Some(" 7 "), None, Some("Acme"), None, Some("Pune"), None];
      UserRows([row]) == [["7", "", "Acme", "", "Pune", ""]] && EmployeeRows([row]) == []
  {
    var row := [Some(" 7 "), None, Some("Acme"), None, Some("Pune"), None];
    var sp, seven, acme, pune := " ", "7", "Acme", "Pune";
    assert IsSpace(sp[0]);
    assert AllSpace(sp);
    VisibleAsciiNotSpace(seven[0]);
    VisibleAsciiNotSpace(acme[0]);
    VisibleAsciiNotSpace(acme[3]);
    VisibleAsciiNotSpace(pune[0]);
    VisibleAsciiNotSpace(pune[3]);
    StripPadded(sp, seven, sp);
    StripPadded([], acme, []);
    StripPadded([], pune, []);
    assert sp + seven + sp == " 7 ";
    assert [] + acme + [] == acme;
    assert [] + pune + [] == pune;
    assert IsUserRow(row);
    ClassifyOneRow(row);
  }
}
