/**
 * attendance_module.py: marking one day (an upsert keyed by employee and
 * date), deleting an employee with its attendance, the per-employee status
 * table for a date, the Sunday-first checkbox grid of a month, and saving
 * every day of that month.
 */
module Attendance {
  import opened Wrappers
  import opened Calendar
  import opened Store

  datatype MarkOutcome = EmployeeNotFound | Marked | CommitFailed

  datatype DeleteOutcome = NotFound | Deleted | DeleteFailed

  datatype Status = Present | Absent

  datatype StatusRow = StatusRow(name: string, department: string, status: Status)

  /** One grid position: an empty slot, or the checkbox of a day of the month. */
  datatype Cell = Blank(column: nat) | Checkbox(column: nat, date: Date, checked: bool, disabled: bool)

  /**
   * `mark_attendance`: find the employee by (name, organization); overwrite
   * the `is_present` of that employee's record for `date` or add a record;
   * commit, or roll back when the commit fails.
   */
  method MarkAttendance(db: Database, employeeName: string, date: Date, isPresent: bool,
                        organization: string, commitOk: bool) returns (outcome: MarkOutcome)
    requires db.Valid()
    modifies db
    ensures db.Valid()
    ensures db.employees == old(db.employees) && db.users == old(db.users)
    ensures outcome == EmployeeNotFound <==> FindEmployee(db.employees, employeeName, organization).None?
    ensures outcome == CommitFailed <==> FindEmployee(db.employees, employeeName, organization).Some? && !commitOk
    ensures outcome == Marked ==>
      db.attendances == Upsert(old(db.attendances),
        db.employees[FindEmployee(db.employees, employeeName, organization).value].id, date, isPresent)
    ensures outcome != Marked ==> db.attendances == old(db.attendances)
  {
    var found := FindEmployee(db.employees, employeeName, organization);
    if found.None? {
      return EmployeeNotFound;
    }
    var emp := db.employees[found.value];
    var existing := FindAttendance(db.attendances, emp.id, date);
    var updated: seq<AttendanceRecord>;
    if existing.Some? {
      var i := existing.value;
      updated := db.attendances[i := db.attendances[i].(isPresent := isPresent)];
    } else {
      updated := db.attendances + [AttendanceRecord(emp.id, date, isPresent)];
    }
    assert updated == Upsert(db.attendances, emp.id, date, isPresent);
    if commitOk {
      UpsertSetsKey(db.attendances, emp.id, date, isPresent);
      UpsertKeepsOthers(db.attendances, emp.id, date, isPresent);
      assert emp.id in EmployeeIds(db.employees);
      db.attendances := updated;
      outcome := Marked;
    } else {
      outcome := CommitFailed;
    }
  }

  /**
   * `delete_employee`: find the employee by (name, organization) and delete
   * its attendance records and then the employee; a missing name or a failed
   * commit changes nothing.
   */
  method DeleteEmployee(db: Database, employeeName: string, organization: string, commitOk: bool)
    returns (outcome: DeleteOutcome)
    requires db.Valid()
    modifies db
    ensures db.Valid()
    ensures db.users == old(db.users)
    ensures outcome == NotFound <==> FindEmployee(old(db.employees), employeeName, organization).None?
    ensures outcome == DeleteFailed <==> FindEmployee(old(db.employees), employeeName, organization).Some? && !commitOk
    ensures outcome == Deleted ==>
      var i := FindEmployee(old(db.employees), employeeName, organization).value;
      db.employees == RemoveAt(old(db.employees), i) &&
      db.attendances == DropAttendanceOf(old(db.attendances), old(db.employees)[i].id)
    ensures outcome != Deleted ==> db.employees == old(db.employees) && db.attendances == old(db.attendances)
  {
    var found := FindEmployee(db.employees, employeeName, organization);
    if found.None? {
      return NotFound;
    }
    db.DeleteEmployeeAt(found.value, commitOk);
    outcome := if commitOk then Deleted else DeleteFailed;
  }

  /** "Present" exactly when the first record for (employee, date) says present. */
  function StatusOn(recs: seq<AttendanceRecord>, employeeId: int, date: Date): Status {
    if Lookup(recs, employeeId, date) == Some(true) then Present else Absent
  }

  /**
   * `refresh_treeview`: one row per employee of the organization, in query
   * order, with name, department and the status on `selectedDate`.
   */
  method RefreshTreeview(db: Database, selectedDate: Date, organization: string) returns (rows: seq<StatusRow>)
    ensures |rows| == |EmployeesOf(db.employees, organization)|
    ensures forall i :: 0 <= i < |rows| ==>
      var e := EmployeesOf(db.employees, organization)[i];
      rows[i] == StatusRow(e.name, e.department, StatusOn(db.attendances, e.id, selectedDate))
  {
    var employees := EmployeesOf(db.employees, organization);
    rows := [];
    for i := 0 to |employees|
      invariant |rows| == i
      invariant forall k :: 0 <= k < i ==>
        rows[k] == StatusRow(employees[k].name, employees[k].department,
                             StatusOn(db.attendances, employees[k].id, selectedDate))
    {
      var emp := employees[i];
      var attendance := FindAttendance(db.attendances, emp.id, selectedDate);
      var status := if attendance.Some? && db.attendances[attendance.value].isPresent then Present else Absent;
      rows := rows + [StatusRow(emp.name, emp.department, status)];
    }
  }

  /** With one record per key, the status is Present exactly when a present record exists for that day. */
  lemma StatusIffPresentRecord(recs: seq<AttendanceRecord>, employeeId: int, date: Date)
    requires UniqueKeys(recs)
    ensures StatusOn(recs, employeeId, date) == Present <==> AttendanceRecord(employeeId, date, true) in recs
  {
    LookupIffRecord(recs, employeeId, date, true);
  }

  /** The cell the grid loop draws for position i holding date d. */
  function GridCell(d: Date, i: nat, month: int, saved: map<Date, bool>): Cell
    requires 1 <= d.month <= 12
  {
    if d.month != month then Blank(i % 7)
    else if Weekday(d) == Sunday then Checkbox(i % 7, d, false, true)
    else Checkbox(i % 7, d, MapGet(saved, d, false), false)
  }

  /**
   * The month grid: position i goes to column i mod 7 under the headers
   * Sun .. Sat; only the days of the month get a checkbox, exactly one per
   * day in order; Sundays, all in column 0, are disabled and unchecked; every
   * other checkbox shows the stored value, unchecked when no record exists.
   */
  method BuildGrid(year: int, month: int, saved: map<Date, bool>) returns (cells: seq<Cell>)
    requires 1 <= month <= 12
    ensures |cells| == |MonthGrid(year, month)| && |cells| % 7 == 0
    ensures forall i :: 0 <= i < |cells| ==> cells[i].column == i % 7
    ensures forall i :: 0 <= i < |cells| ==>
      (cells[i].Checkbox? <==> LeadDays(year, month) <= i < LeadDays(year, month) + DaysInMonth(year, month))
    ensures forall i :: 0 <= i < |cells| && cells[i].Checkbox? ==>
      cells[i].date == Date(year, month, i - LeadDays(year, month) + 1)
    ensures forall i :: 0 <= i < |cells| && cells[i].Checkbox? ==>
      (cells[i].disabled <==> cells[i].column == 0) &&
      (cells[i].disabled ==> !cells[i].checked) &&
      (!cells[i].disabled ==> cells[i].checked == MapGet(saved, cells[i].date, false))
  {
    var days := MonthGrid(year, month);
    MonthGridShape(year, month);
    MonthGridConsecutive(year, month);
    MonthGridColumns(year, month);
    cells := [];
    var colIndex := 0;
    for i := 0 to |days|
      invariant |cells| == i && colIndex == i
      invariant forall k :: 0 <= k < i ==> cells[k] == GridCell(days[k], k, month, saved)
    {
      var day := days[i];
      var col := colIndex % 7;
      colIndex := colIndex + 1;
      var cell: Cell;
      if day.month == month {
        var isSunday := Weekday(day) == Sunday;
        var defaultVal := MapGet(saved, day, false);
        if isSunday {
          cell := Checkbox(col, day, false, true);
        } else {
          cell := Checkbox(col, day, defaultVal, false);
        }
      } else {
        cell := Blank(col);
      }
      cells := cells + [cell];
    }
  }

  /** The in-month days at grid positions before i. */
  ghost predicate SavedBefore(d: Date, year: int, month: int, i: int)
    requires 1 <= month <= 12
  {
    d.year == year && d.month == month && 1 <= d.day <= DaysInMonth(year, month) &&
    LeadDays(year, month) + d.day - 1 < i
  }

  /**
   * The state of the save loop after grid position i: every in-month day
   * before i answers its checkbox value (or its old answer if its commit
   * failed), and every other (employee, date) still answers as in `base`.
   */
  ghost predicate SavedUpTo(recs: seq<AttendanceRecord>, base: seq<AttendanceRecord>, id: int, year: int, month: int,
                            checked: map<Date, bool>, failedCommits: set<Date>, i: int)
    requires 1 <= month <= 12
  {
    (forall d :: SavedBefore(d, year, month, i) ==>
       Lookup(recs, id, d) ==
         if d in failedCommits then Lookup(base, id, d) else Some(MapGet(checked, d, false))) &&
    (forall e, d :: !(e == id && SavedBefore(d, year, month, i)) ==>
       Lookup(recs, e, d) == Lookup(base, e, d))
  }

  /** A grid position outside the month saves nothing and adds no day. */
  lemma SkipStep(recs: seq<AttendanceRecord>, base: seq<AttendanceRecord>, id: int, year: int, month: int,
                 checked: map<Date, bool>, failedCommits: set<Date>, i: int)
    requires 1 <= month <= 12
    requires !(LeadDays(year, month) <= i < LeadDays(year, month) + DaysInMonth(year, month))
    requires SavedUpTo(recs, base, id, year, month, checked, failedCommits, i)
    ensures SavedUpTo(recs, base, id, year, month, checked, failedCommits, i + 1)
  {
    assert forall d :: SavedBefore(d, year, month, i + 1) <==> SavedBefore(d, year, month, i);
  }

  /** Saving the day at an in-month position i extends the saved prefix by that day. */
  lemma SaveStep(before: seq<AttendanceRecord>, after: seq<AttendanceRecord>, base: seq<AttendanceRecord>,
                 id: int, year: int, month: int, checked: map<Date, bool>, failedCommits: set<Date>, i: int)
    requires 1 <= month <= 12 && UniqueKeys(before)
    requires LeadDays(year, month) <= i < LeadDays(year, month) + DaysInMonth(year, month)
    requires SavedUpTo(before, base, id, year, month, checked, failedCommits, i)
    requires var day := Date(year, month, i - LeadDays(year, month) + 1);
      after == if day in failedCommits then before else Upsert(before, id, day, MapGet(checked, day, false))
    ensures SavedUpTo(after, base, id, year, month, checked, failedCommits, i + 1)
  {
    var day := Date(year, month, i - LeadDays(year, month) + 1);
    assert !SavedBefore(day, year, month, i);
    if day !in failedCommits {
      UpsertSetsKey(before, id, day, MapGet(checked, day, false));
      UpsertKeepsOthers(before, id, day, MapGet(checked, day, false));
    }
    forall d | SavedBefore(d, year, month, i + 1)
      ensures Lookup(after, id, d) ==
        if d in failedCommits then Lookup(base, id, d) else Some(MapGet(checked, d, false))
    {
      if d != day {
        assert SavedBefore(d, year, month, i);
      }
    }
    forall e, d | !(e == id && SavedBefore(d, year, month, i + 1))
      ensures Lookup(after, e, d) == Lookup(base, e, d)
    {
      assert !(e == id && SavedBefore(d, year, month, i));
    }
  }

  /**
   * "Save Attendance": for every day of the grid that belongs to the month,
   * mark the employee with the checkbox state of that day (unchecked when it
   * has none), one commit per day; days whose commit fails keep their old
   * record. The reported count is the number of days in the month, Sundays
   * included, whether or not the employee exists.
   */
  method SaveAttendance(db: Database, employeeName: string, organization: string, year: int, month: int,
                        checked: map<Date, bool>, failedCommits: set<Date>) returns (count: nat)
    requires db.Valid() && 1 <= month <= 12
    modifies db
    ensures db.Valid()
    ensures db.employees == old(db.employees) && db.users == old(db.users)
    ensures count == DaysInMonth(year, month)
    ensures FindEmployee(db.employees, employeeName, organization).None? ==> db.attendances == old(db.attendances)
    ensures FindEmployee(db.employees, employeeName, organization).Some? ==>
      var id := db.employees[FindEmployee(db.employees, employeeName, organization).value].id;
      (forall d :: d in MonthDays(year, month) ==>
         Lookup(db.attendances, id, d) ==
           if d in failedCommits then Lookup(old(db.attendances), id, d) else Some(MapGet(checked, d, false))) &&
      (forall e, d :: !(e == id && d in MonthDays(year, month)) ==>
         Lookup(db.attendances, e, d) == Lookup(old(db.attendances), e, d))
  {
    var days := MonthGrid(year, month);
    MonthGridShape(year, month);
    var lead, n := LeadDays(year, month), DaysInMonth(year, month);
    var found := FindEmployee(db.employees, employeeName, organization);
    ghost var id := if found.Some? then db.employees[found.value].id else 0;
    count := 0;
    var i := 0;
    while i < |days|
      invariant 0 <= i <= |days|
      invariant db.Valid()
      invariant db.employees == old(db.employees) && db.users == old(db.users)
      invariant count == if i <= lead then 0 else if i <= lead + n then i - lead else n
      invariant found.None? ==> db.attendances == old(db.attendances)
      invariant found.Some? ==> SavedUpTo(db.attendances, old(db.attendances), id, year, month, checked, failedCommits, i)
    {
      var day := days[i];
      if day.month != month {
        if found.Some? {
          SkipStep(db.attendances, old(db.attendances), id, year, month, checked, failedCommits, i);
        }
        i := i + 1;
        continue;
      }
      assert day == Date(year, month, i - lead + 1);
      var isPresent := MapGet(checked, day, false);
      ghost var before := db.attendances;
      var outcome := MarkAttendance(db, employeeName, day, isPresent, organization, day !in failedCommits);
      if found.Some? {
        SaveStep(before, db.attendances, old(db.attendances), id, year, month, checked, failedCommits, i);
      }
      count := count + 1;
      i := i + 1;
    }
    forall d ensures d in MonthDays(year, month) <==> SavedBefore(d, year, month, |days|) {
      InMonthDays(year, month, d);
    }
  }
}
