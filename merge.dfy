/**
  `merge_user_emp_data`: the user list and the employee list produced by the
  extractor become one table of display records. The steps, in order: filter
  the user rows, parse the user id, cap the employee rows, join by position,
  patch one known bad record, prefix the names, recode the locations, and
  project onto the nine display columns.

  The pandas frame of users is a record per row. The join and the patch,
  which the source performs in place on the frame, are performed in place on
  an array here; the other steps are functions on sequences of records.
 */
module Merge {
  import opened Text

  /** A row of the `users` frame: the six user columns, `user_id` already an
      integer, and the three employee columns. */
  datatype UserRec = UserRec(
    userId: nat, userName: string, userEmail: string, userPhoneNo: string,
    userGender: string, empId: string,
    empCompany: string, empDesignation: string, empCompLocation: string)

  /** A row of the employee frame. */
  datatype EmpRec = EmpRec(company: string, designation: string, location: string)

  /** A row of the returned frame, its fields in display-column order:
      Employee ID, User ID, Employee Name, Email, Phone, Gender, Company,
      Designation, Work Location. */
  datatype OutRec = OutRec(
    employeeId: string, userId: nat, employeeName: string, email: string,
    phone: string, gender: string, company: string, designation: string,
    workLocation: string)

  function Min(a: int, b: int): int {
    if a <= b then a else b
  }

  /** The user-row filter: six cells and a digit-string first cell. */
  predicate IsCleanUserRow(r: seq<string>) {
    |r| == 6 && IsDigits(r[0])
  }

  /** The user rows that pass the filter, in their order. */
  function CleanUserRows(rows: seq<seq<string>>): (clean: seq<seq<string>>)
    ensures |clean| <= |rows|
    ensures forall k :: 0 <= k < |clean| ==> IsCleanUserRow(clean[k])
  {
    if rows == [] then []
    else
      var last := rows[|rows| - 1];
      CleanUserRows(rows[..|rows| - 1]) + (if IsCleanUserRow(last) then [last] else [])
  }

  /** The filter keeps exactly the rows that pass it. */
  lemma {:induction false} CleanUserRowsMembers(rows: seq<seq<string>>, x: seq<string>)
    ensures x in CleanUserRows(rows) <==> x in rows && IsCleanUserRow(x)
  {
    if rows != [] {
      var init := rows[..|rows| - 1];
      CleanUserRowsMembers(init, x);
      assert rows == init + [rows[|rows| - 1]];
    }
  }

  /** The filter keeps order: filtering two runs of rows one after the other
      is filtering each. */
  lemma {:induction false} CleanUserRowsAppend(a: seq<seq<string>>, b: seq<seq<string>>)
    ensures CleanUserRows(a + b) == CleanUserRows(a) + CleanUserRows(b)
  {
    if b == [] {
      assert a + b == a;
    } else {
      var init := b[..|b| - 1];
      assert (a + b)[..|a + b| - 1] == a + init;
      assert (a + b)[|a + b| - 1] == b[|b| - 1];
      CleanUserRowsAppend(a, init);
    }
  }

  /** Rows that all pass the filter come through it unchanged. */
  lemma {:induction false} CleanUserRowsKeepsClean(rows: seq<seq<string>>)
    requires forall k :: 0 <= k < |rows| ==> IsCleanUserRow(rows[k])
    ensures CleanUserRows(rows) == rows
  {
    if rows != [] {
      var init := rows[..|rows| - 1];
      CleanUserRowsKeepsClean(init);
      assert rows == init + [rows[|rows| - 1]];
    }
  }

  /** One row of the `users` frame built from a filtered user row: the cells
      in column order, `user_id` parsed, the employee columns empty. */
  function ToUserRec(r: seq<string>): (u: UserRec)
    requires IsCleanUserRow(r)
    ensures u.userId == DecimalValue(r[0])
    ensures [u.userName, u.userEmail, u.userPhoneNo, u.userGender, u.empId] == r[1..]
    ensures u.empCompany == u.empDesignation == u.empCompLocation == ""
  {
    UserRec(DecimalValue(r[0]), r[1], r[2], r[3], r[4], r[5], "", "", "")
  }

  /** The `users` frame before the join. */
  function UserFrame(clean: seq<seq<string>>): (users: seq<UserRec>)
    requires forall k :: 0 <= k < |clean| ==> IsCleanUserRow(clean[k])
    ensures |users| == |clean|
  {
    seq(|clean|, i requires 0 <= i < |clean| => ToUserRec(clean[i]))
  }

  /** No more than this many employee rows take part in the join. */
  const MaxEmployees: nat := 10

  /** The employee rows that become the employee frame must each have the
      frame's three columns. */
  predicate EmployeeRowsFit(empRows: seq<seq<string>>) {
    forall i :: 0 <= i < Min(MaxEmployees, |empRows|) ==> |empRows[i]| == 3
  }

  /** The employee frame: the first ten employee rows, at most. */
  function EmployeeFrame(empRows: seq<seq<string>>): (emps: seq<EmpRec>)
    requires EmployeeRowsFit(empRows)
    ensures |emps| == Min(MaxEmployees, |empRows|)
  {
    var n := Min(MaxEmployees, |empRows|);
    seq(n, i requires 0 <= i < n => EmpRec(empRows[i][0], empRows[i][1], empRows[i][2]))
  }

  /** A `users` row given an employee's three columns. */
  function WithEmployee(u: UserRec, e: EmpRec): UserRec {
    u.(empCompany := e.company, empDesignation := e.designation, empCompLocation := e.location)
  }

  /** The positional join: row `i` takes employee `i` where there is one. */
  function Joined(users: seq<UserRec>, emps: seq<EmpRec>): (r: seq<UserRec>)
    ensures |r| == |users|
  {
    seq(|users|, i requires 0 <= i < |users| =>
      if i < |emps| then WithEmployee(users[i], emps[i]) else users[i])
  }

  /** The patch's condition: user 1 whose employee data still holds a
      header cell's text. */
  predicate NeedsFix(u: UserRec) {
    && u.userId == 1
    && (u.empCompany == "emp_company" || u.empDesignation == "emp_designation"
        || u.empCompLocation == "emp_comp_location")
  }

  const FixedCompany := "Microsoft"
  const FixedDesignation := "Software Developer"
  const FixedLocation := "Bangalore"

  /** The patch applied to one row. */
  function Fix(u: UserRec): UserRec {
    if NeedsFix(u)
    then u.(empCompany := FixedCompany, empDesignation := FixedDesignation, empCompLocation := FixedLocation)
    else u
  }

  function Fixed(users: seq<UserRec>): (r: seq<UserRec>)
    ensures |r| == |users|
  {
    seq(|users|, i requires 0 <= i < |users| => Fix(users[i]))
  }

  /** The patch changes a row exactly when the row meets its condition. */
  lemma FixChangesIffNeeded(u: UserRec)
    ensures Fix(u) != u <==> NeedsFix(u)
  {
  }

  /** A patched row no longer meets the condition: patching twice is
      patching once. */
  lemma FixIdempotent(u: UserRec)
    ensures !NeedsFix(Fix(u))
    ensures Fix(Fix(u)) == Fix(u)
  {
    if NeedsFix(u) {
      assert Fix(u).empCompany == FixedCompany;
      assert FixedCompany != "emp_company";
      assert FixedDesignation != "emp_designation";
      assert FixedLocation != "emp_comp_location";
    }
  }

  const NamePrefix := "employee name: "

  /** The employee-name column: every name with the same prefix. */
  function PrefixName(name: string): (r: string)
    ensures |r| == |NamePrefix| + |name|
    ensures r[..|NamePrefix|] == NamePrefix && r[|NamePrefix|..] == name
  {
    NamePrefix + name
  }

  /** City to code, exact and case-sensitive. */
  const LocationPrefix: map<string, string> := map[
    "Bangalore" := "DLL", "Bengaluru" := "DLL", "Chennai" := "CHN",
    "Hyderabad" := "HYD", "Pune" := "PUN", "Mumbai" := "MUM",
    "Gurgaon" := "GUR", "Noida" := "NOI", "Coimbatore" := "CBE"]

  /** The code used for cities the map does not name. */
  const OtherCode := "OTH"

  /** Every code the recoding can produce. */
  const Codes: set<string> := {"DLL", "CHN", "HYD", "PUN", "MUM", "GUR", "NOI", "CBE", "OTH"}

  /** The code of a location: the map's entry, or `OTH` for anything else. */
  function LocationCode(loc: string): (code: string)
    ensures code in Codes && |code| == 3
    ensures code == OtherCode <==> loc !in LocationPrefix
    ensures loc in LocationPrefix ==> code == LocationPrefix[loc]
  {
    if loc in LocationPrefix then LocationPrefix[loc] else OtherCode
  }

  /** The work-location column: `"<code>: <location>"`, or `""` for an empty
      location. */
  function FormatLocation(loc: string): (r: string)
    ensures r == "" <==> loc == ""
    ensures loc != "" ==> |r| == 5 + |loc| && r[..3] == LocationCode(loc)
                          && r[3..5] == ": " && r[5..] == loc
  {
    if loc != "" then LocationCode(loc) + ": " + loc else ""
  }

  /** The recoding on some of the cities the map names, and on the empty
      location. */
  lemma KnownCityExamples()
    ensures FormatLocation(FixedLocation) == "DLL: Bangalore"
    ensures FormatLocation("Bengaluru") == "DLL: Bengaluru"
    ensures FormatLocation("Chennai") == "CHN: Chennai"
    ensures FormatLocation("") == ""
  {
  }

  /** The recoding on a city the map does not name, and on a named city
      spelt with a different case: both fall back to `OTH`. */
  lemma UnknownCityExamples()
    ensures FormatLocation("Atlantis") == "OTH: Atlantis"
    ensures FormatLocation("bangalore") == "OTH: bangalore"
  {
    assert "Atlantis" !in LocationPrefix by {
      assert forall k | k in LocationPrefix :: |k| != 8;
    }
    assert "bangalore" !in LocationPrefix by {
      assert forall k | k in LocationPrefix :: k[0] != 'b';
    }
  }

  /** A `users` row as a display row: the name prefixed, the location
      recoded, the nine columns in display order. */
  function Display(u: UserRec): OutRec {
    OutRec(u.empId, u.userId, PrefixName(u.userName), u.userEmail, u.userPhoneNo,
           u.userGender, u.empCompany, u.empDesignation, FormatLocation(u.empCompLocation))
  }

  /** What a display row can be read back from. */
  predicate IsDisplayable(o: OutRec) {
    && |o.employeeName| >= |NamePrefix|
    && (o.workLocation == "" || |o.workLocation| >= 5)
  }

  /** A display row read back as a `users` row: the prefix and the code
      removed. */
  function Undisplay(o: OutRec): UserRec
    requires IsDisplayable(o)
  {
    UserRec(o.userId, o.employeeName[|NamePrefix|..], o.email, o.phone, o.gender,
            o.employeeId, o.company, o.designation,
            if o.workLocation == "" then "" else o.workLocation[5..])
  }

  /** The display step loses nothing: a `users` row can be read back from
      its display row. */
  lemma DisplayRoundTrip(u: UserRec)
    ensures IsDisplayable(Display(u)) && Undisplay(Display(u)) == u
  {
  }

  /** Hence two different `users` rows never display the same. */
  lemma DisplayInjective(u: UserRec, v: UserRec)
    ensures Display(u) == Display(v) ==> u == v
  {
    DisplayRoundTrip(u);
    DisplayRoundTrip(v);
  }

  function DisplayFrame(users: seq<UserRec>): (out: seq<OutRec>)
    ensures |out| == |users|
  {
    seq(|users|, i requires 0 <= i < |users| => Display(users[i]))
  }

  /** `merge_user_emp_data` as a value: the display rows of the patched join
      of the filtered users with the employee frame. */
  function Merged(userRows: seq<seq<string>>, empRows: seq<seq<string>>): (out: seq<OutRec>)
    requires EmployeeRowsFit(empRows)
    ensures |out| == |CleanUserRows(userRows)|
  {
    DisplayFrame(Fixed(Joined(UserFrame(CleanUserRows(userRows)), EmployeeFrame(empRows))))
  }

  /** The join loop: for each position shared by the users frame and the
      employee frame, copy the employee's three columns into the user row. */
  method AssignEmployees(users: array<UserRec>, emps: seq<EmpRec>)
    modifies users
    ensures users[..] == Joined(old(users[..]), emps)
  {
    ghost var frame := users[..];
    for i := 0 to Min(users.Length, |emps|)
      invariant users[..] == Joined(frame, emps[..i])
    {
      users[i] := users[i].(empCompany := emps[i].company);
      users[i] := users[i].(empDesignation := emps[i].designation);
      users[i] := users[i].(empCompLocation := emps[i].location);
    }
    assert Joined(frame, emps[..Min(users.Length, |emps|)]) == Joined(frame, emps);
  }

  /** The masked assignment: every row meeting the patch's condition gets
      the patch's three values, all at once. */
  method PatchKnownRecord(users: array<UserRec>)
    modifies users
    ensures users[..] == Fixed(old(users[..]))
  {
    forall i | 0 <= i < users.Length && NeedsFix(users[i]) {
      users[i] := users[i].(empCompany := FixedCompany, empDesignation := FixedDesignation,
                            empCompLocation := FixedLocation);
    }
  }

  /** `merge_user_emp_data`: the users frame is built from the filtered
      rows, filled in place by the positional join, patched in place, and
      displayed. */
  method MergeUserEmpData(userRows: seq<seq<string>>, empRows: seq<seq<string>>) returns (out: seq<OutRec>)
    requires EmployeeRowsFit(empRows)
    ensures out == Merged(userRows, empRows)
  {
    var frame := UserFrame(CleanUserRows(userRows));
    var users := new UserRec[|frame|](i requires 0 <= i < |frame| => frame[i]);
    assert users[..] == frame;
    var empDf := EmployeeFrame(empRows);
    AssignEmployees(users, empDf);
    PatchKnownRecord(users);
    out := DisplayFrame(users[..]);
  }

  /** The employee data row `i` of the join receives: employee `i` among
      the first ten, or empty columns. */
  function EmployeeAt(empRows: seq<seq<string>>, i: nat): EmpRec
    requires EmployeeRowsFit(empRows)
  {
    if i < MaxEmployees && i < |empRows| then EmpRec(empRows[i][0], empRows[i][1], empRows[i][2])
    else EmpRec("", "", "")
  }

  /** Record `i` carries the `i`th filtered user row: its id as an integer,
      its employee id, email, phone and gender unchanged, its name with the
      prefix. */
  lemma MergedUserFields(userRows: seq<seq<string>>, empRows: seq<seq<string>>, i: nat)
    requires EmployeeRowsFit(empRows) && i < |CleanUserRows(userRows)|
    ensures var r, o := CleanUserRows(userRows)[i], Merged(userRows, empRows)[i];
      && o.userId == DecimalValue(r[0])
      && o.employeeName == NamePrefix + r[1]
      && o.email == r[2] && o.phone == r[3] && o.gender == r[4]
      && o.employeeId == r[5]
  {
  }

  /** Record `i` is the display of the `i`th filtered user row, joined with
      the employee data for position `i` and then patched. */
  lemma MergedRecord(userRows: seq<seq<string>>, empRows: seq<seq<string>>, i: nat)
    requires EmployeeRowsFit(empRows) && i < |CleanUserRows(userRows)|
    ensures Merged(userRows, empRows)[i]
         == Display(Fix(WithEmployee(ToUserRec(CleanUserRows(userRows)[i]), EmployeeAt(empRows, i))))
  {
    var clean := CleanUserRows(userRows);
    var users := UserFrame(clean);
    var emps := EmployeeFrame(empRows);
    var e := EmployeeAt(empRows, i);
    var joined := Joined(users, emps)[i];
    assert joined == WithEmployee(users[i], e) by {
      assert users[i] == ToUserRec(clean[i]);
      if i < |emps| {
        assert emps[i] == e;
      }
    }
    assert Merged(userRows, empRows)[i] == Display(Fix(joined));
  }

  /** Record `i` carries employee `i`'s company, designation and recoded
      location when `i` is below the number of users, the number of employee
      rows and ten, and empty columns otherwise; unless the patch applies,
      in which case it carries the patch's three values. */
  lemma MergedEmployeeFields(userRows: seq<seq<string>>, empRows: seq<seq<string>>, i: nat)
    requires EmployeeRowsFit(empRows) && i < |CleanUserRows(userRows)|
    ensures var r, e, o := CleanUserRows(userRows)[i], EmployeeAt(empRows, i), Merged(userRows, empRows)[i];
      var patched := DecimalValue(r[0]) == 1
        && (e.company == "emp_company" || e.designation == "emp_designation"
            || e.location == "emp_comp_location");
      && (patched ==> o.company == "Microsoft" && o.designation == "Software Developer"
                      && o.workLocation == "DLL: Bangalore")
      && (!patched ==> o.company == e.company && o.designation == e.designation
                       && o.workLocation == FormatLocation(e.location))
  {
    MergedRecord(userRows, empRows, i);
    KnownCityExamples();
  }

  /** Employee rows past the tenth never affect the result. */
  lemma MergedIgnoresLaterEmployees(userRows: seq<seq<string>>, empRows: seq<seq<string>>, more: seq<seq<string>>)
    requires EmployeeRowsFit(empRows) && |empRows| >= MaxEmployees
    ensures EmployeeRowsFit(empRows + more)
    ensures Merged(userRows, empRows + more) == Merged(userRows, empRows)
  {
    assert forall i :: 0 <= i < MaxEmployees ==> (empRows + more)[i] == empRows[i];
    assert EmployeeFrame(empRows + more) == EmployeeFrame(empRows);
  }

  /** The known bad record: user 1 matched with the header row of the
      employee table comes out patched, its location recoded, its other
      columns as given. */
  lemma HeaderRowPatched(name: string, email: string, phone: string, gender: string, empId: string)
    ensures var out := Merged([["1", name, email, phone, gender, empId]],
                              [["emp_company", "emp_designation", "emp_comp_location"]]);
      out == [OutRec(empId, 1, NamePrefix + name, email, phone, gender,
                     "Microsoft", "Software Developer", "DLL: Bangalore")]
  {
    var rows := [["1", name, email, phone, gender, empId]];
    var emps := [["emp_company", "emp_designation", "emp_comp_location"]];
    var out := Merged(rows, emps);
    var patched := OutRec(empId, 1, NamePrefix + name, email, phone, gender,
                          "Microsoft", "Software Developer", "DLL: Bangalore");
    assert CleanUserRows(rows) == rows by {
      assert IsCleanUserRow(rows[0]);
      CleanUserRowsKeepsClean(rows);
    }
    assert out[0] == patched by {
      var fixed := Fix(WithEmployee(ToUserRec(rows[0]), EmployeeAt(emps, 0)));
      MergedRecord(rows, emps, 0);
      assert fixed == UserRec(1, name, email, phone, gender, empId,
                              FixedCompany, FixedDesignation, FixedLocation) by {
        assert EmployeeAt(emps, 0) == EmpRec("emp_company", "emp_designation", "emp_comp_location");
        DecimalValueOne("1");
      }
      KnownCityExamples();
    }
    assert out == [patched];
  }

  /** Three users and one employee row: only the first user is joined, the
      other two keep empty employee columns. The first user shows the
      employee row unless the patch applies to it (user 1 with header text). */
  lemma SurplusUsersUnjoined(a: seq<string>, b: seq<string>, c: seq<string>, e: seq<string>)
    requires IsCleanUserRow(a) && IsCleanUserRow(b) && IsCleanUserRow(c) && |e| == 3
    requires !(DecimalValue(a[0]) == 1
               && (e[0] == "emp_company" || e[1] == "emp_designation" || e[2] == "emp_comp_location"))
    ensures var out := Merged([a, b, c], [e]);
      && |out| == 3
      && out[0].company == e[0] && out[0].designation == e[1]
      && out[0].workLocation == FormatLocation(e[2])
      && forall k :: 1 <= k < 3 ==>
           out[k].company == "" && out[k].designation == "" && out[k].workLocation == ""
  {
    var rows, emps := [a, b, c], [e];
    assert CleanUserRows(rows) == rows by {
      assert rows[0] == a && rows[1] == b && rows[2] == c;
      CleanUserRowsKeepsClean(rows);
    }
    assert EmployeeAt(emps, 0) == EmpRec(e[0], e[1], e[2]);
    MergedEmployeeFields(rows, emps, 0);
    forall k | 1 <= k < 3
      ensures Merged(rows, emps)[k].company == "" && Merged(rows, emps)[k].designation == ""
           && Merged(rows, emps)[k].workLocation == ""
    {
      assert EmployeeAt(emps, k) == EmpRec("", "", "");
      MergedEmployeeFields(rows, emps, k);
      KnownCityExamples();
    }
  }

  /** User 1 with no employee row to join keeps empty employee columns:
      the patch needs the header text, and empty columns do not hold it. */
  lemma UnjoinedUserNotPatched(r: seq<string>)
    requires IsCleanUserRow(r)
    ensures var out := Merged([r], []);
      |out| == 1 && out[0].company == "" && out[0].designation == "" && out[0].workLocation == ""
  {
    assert CleanUserRows([r]) == [r] by {
      CleanUserRowsKeepsClean([r]);
    }
    MergedEmployeeFields([r], [], 0);
  }
}
