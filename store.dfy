/**
 * The persistent tables of db_setup.py (employees, users, attendances) and
 * the page-independent session state of the Streamlit app, held in memory.
 * A table is a sequence of row values in insertion order, which is the order
 * an unordered query returns them here; `first()` is the lowest index that
 * matches.
 */
module Store {
  import opened Wrappers
  import opened Calendar

  datatype Employee = Employee(
    id: int, name: string, department: string, basicSalary: real, organization: string)

  datatype User = User(username: string, password: string, organization: string)

  datatype AttendanceRecord = AttendanceRecord(employeeId: int, date: Date, isPresent: bool)

  /** The first index whose element satisfies `p`: SQLAlchemy's `.first()`. */
  function FirstIndex<T>(s: seq<T>, p: T -> bool): (r: Option<nat>)
    ensures r.Some? ==> r.value < |s| && p(s[r.value])
    ensures r.Some? ==> forall k :: 0 <= k < r.value ==> !p(s[k])
    ensures r.None? ==> forall k :: 0 <= k < |s| ==> !p(s[k])
  {
    if |s| == 0 then None
    else if p(s[0]) then Some(0)
    else match FirstIndex(s[1..], p)
      case Some(i) => Some(i + 1)
      case None => None
  }

  // ---------------------------------------------------------------------
  // Queries.

  predicate NamedIn(e: Employee, name: string, organization: string) {
    e.name == name && e.organization == organization
  }

  predicate HasKey(r: AttendanceRecord, employeeId: int, date: Date) {
    r.employeeId == employeeId && r.date == date
  }

  /** `filter_by(name=name, organization=organization).first()` */
  function FindEmployee(emps: seq<Employee>, name: string, organization: string): (r: Option<nat>)
    ensures r.Some? ==> r.value < |emps| && NamedIn(emps[r.value], name, organization)
    ensures r.Some? ==> forall k :: 0 <= k < r.value ==> !NamedIn(emps[k], name, organization)
    ensures r.None? <==> forall e :: e in emps ==> !NamedIn(e, name, organization)
  {
    FirstIndex(emps, (e: Employee) => NamedIn(e, name, organization))
  }

  /** `filter(Employee.id == id).first()` */
  function FindEmployeeById(emps: seq<Employee>, id: int): (r: Option<nat>)
    ensures r.Some? ==> r.value < |emps| && emps[r.value].id == id
    ensures r.None? <==> id !in EmployeeIds(emps)
  {
    FirstIndex(emps, (e: Employee) => e.id == id)
  }

  /** `filter_by(employee_id=employeeId, date=date).first()` */
  function FindAttendance(recs: seq<AttendanceRecord>, employeeId: int, date: Date): (r: Option<nat>)
    ensures r.Some? ==> r.value < |recs| && HasKey(recs[r.value], employeeId, date)
    ensures r.Some? ==> forall k :: 0 <= k < r.value ==> !HasKey(recs[k], employeeId, date)
    ensures r.None? <==> forall k :: 0 <= k < |recs| ==> !HasKey(recs[k], employeeId, date)
  {
    FirstIndex(recs, (r: AttendanceRecord) => HasKey(r, employeeId, date))
  }

  /** The stored `is_present` of the first record for (employeeId, date), if any. */
  function Lookup(recs: seq<AttendanceRecord>, employeeId: int, date: Date): (r: Option<bool>)
    ensures r.Some? <==> exists k :: 0 <= k < |recs| && HasKey(recs[k], employeeId, date)
    ensures r.Some? ==> AttendanceRecord(employeeId, date, r.value) in recs
  {
    match FindAttendance(recs, employeeId, date)
    case Some(i) => Some(recs[i].isPresent)
    case None => None
  }

  /** `filter(Employee.organization == organization).all()`, in table order. */
  function EmployeesOf(emps: seq<Employee>, organization: string): (r: seq<Employee>)
    ensures |r| <= |emps|
    ensures forall e :: e in r <==> e in emps && e.organization == organization
  {
    if |emps| == 0 then []
    else (if emps[0].organization == organization then [emps[0]] else [])
         + EmployeesOf(emps[1..], organization)
  }

  /** The organization filter of a concatenation is the concatenation of the filters: table order is kept. */
  lemma {:induction false} EmployeesOfAppend(a: seq<Employee>, b: seq<Employee>, organization: string)
    ensures EmployeesOf(a + b, organization) == EmployeesOf(a, organization) + EmployeesOf(b, organization)
  {
    if |a| == 0 {
      assert a + b == b;
    } else {
      assert (a + b)[0] == a[0];
      assert (a + b)[1..] == a[1..] + b;
      EmployeesOfAppend(a[1..], b, organization);
    }
  }

  /** SQL comparison of dates: lexicographic on (year, month, day). */
  predicate DateLe(a: Date, b: Date) {
    a.year < b.year || (a.year == b.year &&
      (a.month < b.month || (a.month == b.month && a.day <= b.day)))
  }

  /**
   * `{att.date: att.is_present for att in <records of employeeId dated start..end>}`:
   * the dictionary comprehension visits rows in order, so a later row wins.
   */
  function AttendanceMap(recs: seq<AttendanceRecord>, employeeId: int, start: Date, end: Date): (m: map<Date, bool>)
    ensures forall d :: d in m ==> DateLe(start, d) && DateLe(d, end)
    ensures forall d :: d in m ==> AttendanceRecord(employeeId, d, m[d]) in recs
    decreases |recs|
  {
    if |recs| == 0 then map[]
    else
      var m := AttendanceMap(recs[..|recs| - 1], employeeId, start, end);
      var r := recs[|recs| - 1];
      assert forall x :: x in recs[..|recs| - 1] ==> x in recs;
      if r.employeeId == employeeId && DateLe(start, r.date) && DateLe(r.date, end)
      then m[r.date := r.isPresent] else m
  }

  // ---------------------------------------------------------------------
  // Table invariants.

  ghost predicate UniqueIds(emps: seq<Employee>) {
    forall i, j :: 0 <= i < j < |emps| ==> emps[i].id != emps[j].id
  }

  /** At most one attendance record per (employee, date). */
  ghost predicate UniqueKeys(recs: seq<AttendanceRecord>) {
    forall i, j :: 0 <= i < j < |recs| ==>
      !HasKey(recs[j], recs[i].employeeId, recs[i].date)
  }

  /** The `unique=True` constraint on `users.username`. */
  ghost predicate UniqueUsernames(users: seq<User>) {
    forall i, j :: 0 <= i < j < |users| ==> users[i].username != users[j].username
  }

  function EmployeeIds(emps: seq<Employee>): set<int> {
    set e | e in emps :: e.id
  }

  /** The largest id in the table, 0 for an empty table. */
  function MaxId(emps: seq<Employee>): (m: int)
    ensures forall e :: e in emps ==> e.id <= m
    ensures |emps| == 0 ==> m == 0
    ensures |emps| > 0 ==> m in EmployeeIds(emps) || m == 0
  {
    if |emps| == 0 then 0
    else
      var rest := MaxId(emps[1..]);
      assert forall e :: e in emps[1..] ==> e in emps;
      if emps[0].id > rest then emps[0].id else rest
  }

  /**
   * The id SQLite gives a new row of `employees`: `INTEGER PRIMARY KEY`
   * without the AUTOINCREMENT keyword takes one more than the largest id
   * stored, 1 in an empty table, so the id of a deleted last row is reused.
   */
  function NextRowId(emps: seq<Employee>): (r: int)
    ensures forall e :: e in emps ==> e.id < r
    ensures |emps| == 0 ==> r == 1
    ensures |emps| > 0 ==> r - 1 in EmployeeIds(emps) || r == 1
  {
    MaxId(emps) + 1
  }

  // ---------------------------------------------------------------------
  // Table updates, as functions of the old table.

  /**
   * Overwrite the `is_present` of the record for (employeeId, date), or add
   * one at the end: the new record is stored, and every row of another key
   * keeps its place.
   */
  function Upsert(recs: seq<AttendanceRecord>, employeeId: int, date: Date, isPresent: bool): (r: seq<AttendanceRecord>)
    ensures AttendanceRecord(employeeId, date, isPresent) in r
    ensures |recs| <= |r| <= |recs| + 1
    ensures forall k :: 0 <= k < |recs| && !HasKey(recs[k], employeeId, date) ==> r[k] == recs[k]
  {
    match FindAttendance(recs, employeeId, date)
    case Some(i) =>
      var r := recs[i := recs[i].(isPresent := isPresent)];
      assert r[i] == AttendanceRecord(employeeId, date, isPresent);
      r
    case None => recs + [AttendanceRecord(employeeId, date, isPresent)]
  }

  /** `query(Attendance).filter_by(employee_id=employeeId).delete()` */
  function DropAttendanceOf(recs: seq<AttendanceRecord>, employeeId: int): (r: seq<AttendanceRecord>)
    ensures |r| <= |recs|
    ensures forall x :: x in r <==> x in recs && x.employeeId != employeeId
  {
    if |recs| == 0 then []
    else (if recs[0].employeeId != employeeId then [recs[0]] else [])
         + DropAttendanceOf(recs[1..], employeeId)
  }

  /** `session.delete(emps[i])` */
  function RemoveAt(emps: seq<Employee>, i: nat): (r: seq<Employee>)
    requires i < |emps|
    ensures |r| == |emps| - 1
    ensures r[..i] == emps[..i] && r[i..] == emps[i + 1..]
  {
    emps[..i] + emps[i + 1..]
  }

  // ---------------------------------------------------------------------
  // Lemmas about lookups and updates.

  /** With unique keys, the first record for a key is the only one: Lookup answers "is there such a record". */
  lemma LookupIffRecord(recs: seq<AttendanceRecord>, employeeId: int, date: Date, v: bool)
    requires UniqueKeys(recs)
    ensures Lookup(recs, employeeId, date) == Some(v) <==> AttendanceRecord(employeeId, date, v) in recs
  {
    var x := AttendanceRecord(employeeId, date, v);
    if x in recs {
      var k :| 0 <= k < |recs| && recs[k] == x;
      var f := FindAttendance(recs, employeeId, date);
      assert f.Some?;
      SameKeySameIndex(recs, f.value, k);
    }
  }

  /** With unique keys, two positions holding the same (employee, date) are the same position. */
  lemma SameKeySameIndex(recs: seq<AttendanceRecord>, i: nat, j: nat)
    requires UniqueKeys(recs) && i < |recs| && j < |recs|
    ensures HasKey(recs[j], recs[i].employeeId, recs[i].date) ==> i == j
  {
  }

  /** After an upsert there is exactly one record for the key and it holds the new value. */
  lemma UpsertSetsKey(recs: seq<AttendanceRecord>, employeeId: int, date: Date, isPresent: bool)
    requires UniqueKeys(recs)
    ensures UniqueKeys(Upsert(recs, employeeId, date, isPresent))
    ensures Lookup(Upsert(recs, employeeId, date, isPresent), employeeId, date) == Some(isPresent)
    ensures forall k :: 0 <= k < |Upsert(recs, employeeId, date, isPresent)| ==>
      (HasKey(Upsert(recs, employeeId, date, isPresent)[k], employeeId, date) ==>
       Upsert(recs, employeeId, date, isPresent)[k] == AttendanceRecord(employeeId, date, isPresent))
  {
    var r := Upsert(recs, employeeId, date, isPresent);
    var x := AttendanceRecord(employeeId, date, isPresent);
    match FindAttendance(recs, employeeId, date)
    case Some(i) =>
      assert r[i] == x;
      forall k | 0 <= k < |r| && k != i
        ensures r[k] == recs[k] && !HasKey(r[k], employeeId, date)
      {
        if k < i {
          assert !HasKey(recs[i], recs[k].employeeId, recs[k].date);
        } else {
          assert !HasKey(recs[k], recs[i].employeeId, recs[i].date);
        }
      }
      forall a, b | 0 <= a < b < |r| ensures !HasKey(r[b], r[a].employeeId, r[a].date) {
        assert HasKey(r[a], recs[a].employeeId, recs[a].date);
        assert HasKey(r[b], recs[b].employeeId, recs[b].date);
      }
      LookupIffRecord(r, employeeId, date, isPresent);
    case None =>
      assert r[|recs|] == x;
      LookupIffRecord(r, employeeId, date, isPresent);
  }

  /** An upsert leaves every other key's record untouched, and the record count grows by at most one. */
  lemma UpsertKeepsOthers(recs: seq<AttendanceRecord>, employeeId: int, date: Date, isPresent: bool)
    requires UniqueKeys(recs)
    ensures |recs| <= |Upsert(recs, employeeId, date, isPresent)| <= |recs| + 1
    ensures forall x :: !HasKey(x, employeeId, date) ==>
      (x in Upsert(recs, employeeId, date, isPresent) <==> x in recs)
    ensures forall e, d :: !(e == employeeId && d == date) ==>
      Lookup(Upsert(recs, employeeId, date, isPresent), e, d) == Lookup(recs, e, d)
  {
    var r := Upsert(recs, employeeId, date, isPresent);
    UpsertSetsKey(recs, employeeId, date, isPresent);
    forall x | !HasKey(x, employeeId, date)
      ensures x in r <==> x in recs
    {
      match FindAttendance(recs, employeeId, date)
      case Some(i) =>
        if x in recs {
          var k :| 0 <= k < |recs| && recs[k] == x;
          assert k != i && r[k] == x;
        }
        if x in r {
          var k :| 0 <= k < |r| && r[k] == x;
          assert k != i && recs[k] == x;
        }
      case None =>
    }
    forall e, d | !(e == employeeId && d == date)
      ensures Lookup(r, e, d) == Lookup(recs, e, d)
    {
      LookupIffRecord(r, e, d, true);
      LookupIffRecord(r, e, d, false);
      LookupIffRecord(recs, e, d, true);
      LookupIffRecord(recs, e, d, false);
      assert !HasKey(AttendanceRecord(e, d, true), employeeId, date);
      assert !HasKey(AttendanceRecord(e, d, false), employeeId, date);
    }
  }

  /** Deleting an employee's records keeps keys unique, keeps everyone else's answers and leaves none for that employee. */
  lemma DropAttendanceLookups(recs: seq<AttendanceRecord>, employeeId: int)
    requires UniqueKeys(recs)
    ensures UniqueKeys(DropAttendanceOf(recs, employeeId))
    ensures forall d :: Lookup(DropAttendanceOf(recs, employeeId), employeeId, d).None?
    ensures forall e, d :: e != employeeId ==>
      Lookup(DropAttendanceOf(recs, employeeId), e, d) == Lookup(recs, e, d)
  {
    var r := DropAttendanceOf(recs, employeeId);
    DropKeepsUnique(recs, employeeId);
    forall e, d ensures e == employeeId ==> Lookup(r, e, d).None?
      ensures e != employeeId ==> Lookup(r, e, d) == Lookup(recs, e, d)
    {
      LookupIffRecord(r, e, d, true);
      LookupIffRecord(r, e, d, false);
      LookupIffRecord(recs, e, d, true);
      LookupIffRecord(recs, e, d, false);
    }
  }

  lemma {:induction false} DropKeepsUnique(recs: seq<AttendanceRecord>, employeeId: int)
    requires UniqueKeys(recs)
    ensures UniqueKeys(DropAttendanceOf(recs, employeeId))
  {
    if |recs| > 0 {
      var tail := recs[1..];
      assert UniqueKeys(tail) by {
        forall i, j | 0 <= i < j < |tail| ensures !HasKey(tail[j], tail[i].employeeId, tail[i].date) {
          assert tail[i] == recs[i + 1] && tail[j] == recs[j + 1];
        }
      }
      DropKeepsUnique(tail, employeeId);
      var rest := DropAttendanceOf(tail, employeeId);
      if recs[0].employeeId != employeeId {
        var r := [recs[0]] + rest;
        forall j | 0 < j < |r| ensures !HasKey(r[j], recs[0].employeeId, recs[0].date) {
          assert r[j] in rest;
          var k :| 0 <= k < |tail| && tail[k] == r[j];
          assert recs[k + 1] == r[j];
        }
      }
    }
  }

  /** Removing one employee of a table with unique ids removes exactly that id. */
  lemma RemoveAtIds(emps: seq<Employee>, i: nat)
    requires UniqueIds(emps) && i < |emps|
    ensures UniqueIds(RemoveAt(emps, i))
    ensures EmployeeIds(RemoveAt(emps, i)) == EmployeeIds(emps) - {emps[i].id}
    ensures forall e :: e in RemoveAt(emps, i) <==> e in emps && e.id != emps[i].id
  {
    var r := RemoveAt(emps, i);
    assert forall k :: 0 <= k < |r| ==> r[k] == (if k < i then emps[k] else emps[k + 1]);
    forall e ensures e in r <==> e in emps && e.id != emps[i].id {
      if e in emps && e.id != emps[i].id {
        var k :| 0 <= k < |emps| && emps[k] == e;
        assert k != i;
        if k < i { assert r[k] == e; } else { assert r[k - 1] == e; }
      }
    }
  }

  /**
   * Deleting the employee with the largest id frees that id: the next
   * insert gets an id no larger than the deleted one.
   */
  lemma DeletedMaxIdReused(emps: seq<Employee>, i: nat)
    requires UniqueIds(emps) && i < |emps| && emps[i].id >= 1
    requires emps[i].id == MaxId(emps)
    ensures NextRowId(RemoveAt(emps, i)) <= emps[i].id
  {
    var r := RemoveAt(emps, i);
    RemoveAtIds(emps, i);
    if |r| > 0 {
      var m := MaxId(r);
      if m != 0 {
        assert m in EmployeeIds(emps) - {emps[i].id};
        var e :| e in emps && e.id == m;
      }
    }
  }

  /** Two employees with ids 1 and 2: after deleting id 2, the next employee is given id 2 again. */
  lemma IdReuseExample(a: Employee, b: Employee)
    requires a.id == 1 && b.id == 2
    ensures NextRowId(RemoveAt([a, b], 1)) == 2
  {
    assert RemoveAt([a, b], 1) == [a];
  }

  /** With unique keys the map built for a date range answers exactly what Lookup answers inside that range. */
  lemma {:induction false} AttendanceMapAgrees(recs: seq<AttendanceRecord>, employeeId: int, start: Date, end: Date, d: Date)
    requires UniqueKeys(recs)
    requires DateLe(start, d) && DateLe(d, end)
    ensures d in AttendanceMap(recs, employeeId, start, end) <==> Lookup(recs, employeeId, d).Some?
    ensures d in AttendanceMap(recs, employeeId, start, end) ==>
      AttendanceMap(recs, employeeId, start, end)[d] == Lookup(recs, employeeId, d).value
    decreases |recs|
  {
    if |recs| > 0 {
      var init := recs[..|recs| - 1];
      var last := recs[|recs| - 1];
      assert UniqueKeys(init);
      AttendanceMapAgrees(init, employeeId, start, end, d);
      LookupIffRecord(recs, employeeId, d, true);
      LookupIffRecord(recs, employeeId, d, false);
      LookupIffRecord(init, employeeId, d, true);
      LookupIffRecord(init, employeeId, d, false);
      assert recs == init + [last];
      if HasKey(last, employeeId, d) {
        forall k | 0 <= k < |init| ensures !HasKey(init[k], employeeId, d) {
          assert !HasKey(recs[|recs| - 1], recs[k].employeeId, recs[k].date);
        }
      }
    }
  }

  // ---------------------------------------------------------------------
  // The database and the session.

  class Database {
    var employees: seq<Employee>
    var attendances: seq<AttendanceRecord>
    var users: seq<User>

    /**
     * Employee ids are unique and positive, every attendance record
     * belongs to a stored employee, at most one record per (employee, date),
     * and usernames are unique.
     */
    ghost predicate Valid()
      reads this
    {
      && UniqueIds(employees)
      && (forall e :: e in employees ==> e.id >= 1)
      && UniqueKeys(attendances)
      && (forall r :: r in attendances ==> r.employeeId in EmployeeIds(employees))
      && UniqueUsernames(users)
    }

    constructor ()
      ensures Valid()
      ensures employees == [] && attendances == [] && users == []
    {
      employees, attendances, users := [], [], [];
    }

    /**
     * Delete the employee at index `i` together with every attendance record
     * that refers to it (attendance rows first, then the employee), or, when
     * the commit fails, roll back and change nothing.
     */
    method DeleteEmployeeAt(i: nat, commitOk: bool)
      requires Valid() && i < |employees|
      modifies this
      ensures Valid()
      ensures users == old(users)
      ensures commitOk ==> employees == RemoveAt(old(employees), i)
      ensures commitOk ==> attendances == DropAttendanceOf(old(attendances), old(employees)[i].id)
      ensures !commitOk ==> employees == old(employees) && attendances == old(attendances)
    {
      if commitOk {
        var id := employees[i].id;
        RemoveAtIds(employees, i);
        DropKeepsUnique(attendances, id);
        attendances := DropAttendanceOf(attendances, id);
        employees := RemoveAt(employees, i);
      }
    }
  }

  datatype PageAccess = NotLoggedIn | NoOrganization | Granted(organization: string)

  /** The keys of `st.session_state` that the pages read and write. */
  class SessionState {
    var isLoggedIn: bool
    var username: Option<string>
    var organization: Option<string>
    /** `edit_employee_id`, when present. */
    var editEmployeeId: Option<int>
    /** The ids whose `delete_confirm_<id>` key is present. */
    var pendingDeletes: set<int>

    /** The state main.py sets up before any page runs. */
    constructor ()
      ensures !isLoggedIn && username == None && organization == None
      ensures editEmployeeId == None && pendingDeletes == {}
    {
      isLoggedIn, username, organization := false, None, None;
      editEmployeeId, pendingDeletes := None, {};
    }

    /**
     * The guard at the top of the employee, attendance and payslip pages:
     * a page runs only for a logged-in session with a non-empty organization.
     */
    function Access(): (a: PageAccess)
      reads this
      ensures a.Granted? <==> isLoggedIn && organization.Some? && organization.value != ""
      ensures a.Granted? ==> a.organization == organization.value
    {
      if !isLoggedIn then NotLoggedIn
      else if organization.None? || organization.value == "" then NoOrganization
      else Granted(organization.value)
    }
  }
}
