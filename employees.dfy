/**
 * employee_module.py: the organization's employee list, the case-insensitive
 * name search, the add and edit forms with their validation, and the
 * two-step delete confirmation kept in the session state.
 */
module Employees {
  import opened Wrappers
  import opened Store

  // ---------------------------------------------------------------------
  // Python string helpers: str.isspace, str.strip, str.lower, `in`.

  /** The characters Python's `str.isspace()` accepts. */
  predicate IsSpace(c: char) {
    var n := c as int;
    (9 <= n <= 13) || (28 <= n <= 32) || n == 0x85 || n == 0xA0 || n == 0x1680 ||
    (0x2000 <= n <= 0x200A) || n == 0x2028 || n == 0x2029 || n == 0x202F ||
    n == 0x205F || n == 0x3000
  }

  /** A string that is empty once stripped. */
  predicate IsBlank(s: string) {
    forall k :: 0 <= k < |s| ==> IsSpace(s[k])
  }

  /** Index of the first non-space character, |s| if there is none. */
  function StripStartIndex(s: string): (i: nat)
    ensures i <= |s|
    ensures forall k :: 0 <= k < i ==> IsSpace(s[k])
    ensures i < |s| ==> !IsSpace(s[i])
  {
    if |s| == 0 || !IsSpace(s[0]) then 0 else 1 + StripStartIndex(s[1..])
  }

  /** One past the last non-space character, 0 if there is none. */
  function StripEndIndex(s: string): (j: nat)
    ensures j <= |s|
    ensures forall k :: j <= k < |s| ==> IsSpace(s[k])
    ensures j > 0 ==> !IsSpace(s[j - 1])
  {
    if |s| == 0 || !IsSpace(s[|s| - 1]) then |s| else StripEndIndex(s[..|s| - 1])
  }

  /**
   * `s.strip()`: drop leading and trailing whitespace. The result is empty
   * exactly for a blank string, and otherwise starts and ends with a
   * non-space character and is the part of `s` between its outer whitespace.
   */
  function Strip(s: string): (r: string)
    ensures r == [] <==> IsBlank(s)
    ensures r != [] ==> !IsSpace(r[0]) && !IsSpace(r[|r| - 1])
    ensures r != [] ==> r == s[StripStartIndex(s)..StripEndIndex(s)]
  {
    var i, j := StripStartIndex(s), StripEndIndex(s);
    if i < j then s[i..j] else []
  }

  /** `c.lower()` for ASCII and Latin-1 capitals. */
  function LowerChar(c: char): char {
    var n := c as int;
    if (65 <= n <= 90) || (0xC0 <= n <= 0xDE && n != 0xD7) then (n + 32) as char else c
  }

  function Lower(s: string): (r: string)
    ensures |r| == |s|
    ensures forall k :: 0 <= k < |s| ==> r[k] == LowerChar(s[k])
  {
    seq(|s|, k requires 0 <= k < |s| => LowerChar(s[k]))
  }

  /** `needle` occurs in `hay` starting at position i. */
  predicate OccursAt(hay: string, needle: string, i: int) {
    0 <= i && i + |needle| <= |hay| && hay[i..i + |needle|] == needle
  }

  /** Python's `needle in hay` on strings. */
  predicate Contains(hay: string, needle: string) {
    exists i :: 0 <= i <= |hay| && OccursAt(hay, needle, i)
  }

  lemma StripIdempotent(s: string)
    ensures Strip(Strip(s)) == Strip(s)
  {
    var r := Strip(s);
    if r != [] {
      assert StripStartIndex(r) == 0;
      assert StripEndIndex(r) == |r|;
    }
  }

  lemma LowerIdempotent(s: string)
    ensures Lower(Lower(s)) == Lower(s)
  {
  }

  // ---------------------------------------------------------------------
  // Listing and search (lines 22-27).

  /** The employees whose lower-cased name contains `term`, in list order. */
  function NameFilter(emps: seq<Employee>, term: string): (r: seq<Employee>)
    ensures |r| <= |emps|
    ensures forall e :: e in r <==> e in emps && Contains(Lower(e.name), term)
  {
    if |emps| == 0 then []
    else (if Contains(Lower(emps[0].name), term) then [emps[0]] else []) + NameFilter(emps[1..], term)
  }

  /** Filtering a concatenation filters each part in turn, so the filter keeps the list order. */
  lemma {:induction false} NameFilterAppend(a: seq<Employee>, b: seq<Employee>, term: string)
    ensures NameFilter(a + b, term) == NameFilter(a, term) + NameFilter(b, term)
  {
    if |a| == 0 {
      assert a + b == b;
    } else {
      assert (a + b)[0] == a[0];
      assert (a + b)[1..] == a[1..] + b;
      NameFilterAppend(a[1..], b, term);
    }
  }

  /** One employee is kept exactly when its lower-cased name contains the term, and kept once. */
  lemma NameFilterSingle(e: Employee, term: string)
    ensures NameFilter([e], term) == if Contains(Lower(e.name), term) then [e] else []
  {
    assert [e][1..] == [];
  }

  /** The filter yields a subsequence: its employees appear in `emps` in the same order, each as often. */
  lemma {:induction false} NameFilterSubsequence(emps: seq<Employee>, term: string)
    ensures IsSubsequence(NameFilter(emps, term), emps)
  {
    if |emps| > 0 {
      var rest := NameFilter(emps[1..], term);
      NameFilterSubsequence(emps[1..], term);
      if Contains(Lower(emps[0].name), term) {
        var r := [emps[0]] + rest;
        assert NameFilter(emps, term) == r;
        assert r[0] == emps[0] && r[1..] == rest;
      } else {
        assert NameFilter(emps, term) == rest;
      }
    }
  }

  /** `a` is obtained from `b` by deleting elements, keeping the order of the rest. */
  predicate IsSubsequence<T(==)>(a: seq<T>, b: seq<T>)
    decreases |b|
  {
    |a| == 0 ||
    (|b| > 0 && ((a[0] == b[0] && IsSubsequence(a[1..], b[1..])) || IsSubsequence(a, b[1..])))
  }

  /**
   * The search box: the input is stripped and lower-cased; an empty term
   * lists everyone, any other term lists exactly the employees whose
   * lower-cased name contains it.
   */
  function SearchEmployees(emps: seq<Employee>, searchInput: string): (r: seq<Employee>)
    ensures Lower(Strip(searchInput)) == [] ==> r == emps
    ensures IsBlank(searchInput) ==> r == emps
    ensures Lower(Strip(searchInput)) != [] ==>
      forall e :: e in r <==> e in emps && Contains(Lower(e.name), Lower(Strip(searchInput)))
    ensures Lower(Strip(searchInput)) != [] ==> r == NameFilter(emps, Lower(Strip(searchInput)))
  {
    var term := Lower(Strip(searchInput));
    if term == [] then emps else NameFilter(emps, term)
  }

  /** Every name contains the empty string, so a blank search and a filter on "" agree. */
  lemma EmptyTermMatchesAll(emps: seq<Employee>)
    ensures NameFilter(emps, []) == emps
  {
    if |emps| > 0 {
      assert OccursAt(Lower(emps[0].name), [], 0);
      EmptyTermMatchesAll(emps[1..]);
    }
  }

  /** Searching the page's list never shows an employee of another organization. */
  lemma SearchStaysInOrganization(emps: seq<Employee>, organization: string, searchInput: string)
    ensures forall e :: e in SearchEmployees(EmployeesOf(emps, organization), searchInput) ==>
      e in emps && e.organization == organization
  {
  }

  /** The search ignores case: lower-casing the input first gives the same list. */
  lemma SearchIgnoresCase(emps: seq<Employee>, a: string)
    ensures SearchEmployees(emps, Lower(a)) == SearchEmployees(emps, a)
  {
    StripLower(a);
    LowerIdempotent(Strip(a));
  }

  /** Lower-casing changes no character into or out of whitespace. */
  lemma LowerCharSpace(c: char)
    ensures IsSpace(LowerChar(c)) <==> IsSpace(c)
  {
  }

  lemma {:induction false} StripStartLower(s: string)
    ensures StripStartIndex(Lower(s)) == StripStartIndex(s)
  {
    if |s| > 0 {
      LowerCharSpace(s[0]);
      if IsSpace(s[0]) {
        assert Lower(s)[1..] == Lower(s[1..]);
        StripStartLower(s[1..]);
      }
    }
  }

  lemma {:induction false} StripEndLower(s: string)
    ensures StripEndIndex(Lower(s)) == StripEndIndex(s)
  {
    if |s| > 0 {
      LowerCharSpace(s[|s| - 1]);
      if IsSpace(s[|s| - 1]) {
        assert Lower(s)[..|s| - 1] == Lower(s[..|s| - 1]);
        StripEndLower(s[..|s| - 1]);
      }
    }
  }

  /** Stripping and lower-casing commute. */
  lemma StripLower(s: string)
    ensures Strip(Lower(s)) == Lower(Strip(s))
  {
    StripStartLower(s);
    StripEndLower(s);
    var i, j := StripStartIndex(s), StripEndIndex(s);
    if i < j {
      assert Lower(s)[i..j] == Lower(s[i..j]);
    }
  }

  // ---------------------------------------------------------------------
  // Validation, add and edit (lines 85-98 and 116-131).

  datatype FormError = EmptyName | EmptyDepartment | NonPositiveSalary

  /** The if/elif chain shared by the add and the edit form. */
  function ValidateEmployee(name: string, department: string, basicSalary: real): (r: Option<FormError>)
    ensures r == Some(EmptyName) <==> IsBlank(name)
    ensures r == Some(EmptyDepartment) <==> !IsBlank(name) && IsBlank(department)
    ensures r == Some(NonPositiveSalary) <==> !IsBlank(name) && !IsBlank(department) && basicSalary <= 0.0
    ensures r == None <==> !IsBlank(name) && !IsBlank(department) && basicSalary > 0.0
  {
    if Strip(name) == [] then Some(EmptyName)
    else if Strip(department) == [] then Some(EmptyDepartment)
    else if basicSalary <= 0.0 then Some(NonPositiveSalary)
    else None
  }

  /** The stored row after a successful edit: stripped name and department, the new salary. */
  function ApplyEdit(emps: seq<Employee>, i: nat, name: string, department: string, basicSalary: real): seq<Employee>
    requires i < |emps|
  {
    emps[i := emps[i].(name := Strip(name), department := Strip(department), basicSalary := basicSalary)]
  }

  /** An edit keeps every id and organization, so the table invariants survive it. */
  lemma ApplyEditKeepsIds(emps: seq<Employee>, i: nat, name: string, department: string, basicSalary: real)
    requires i < |emps|
    ensures var r := ApplyEdit(emps, i, name, department, basicSalary);
      |r| == |emps| &&
      r[i].id == emps[i].id && r[i].organization == emps[i].organization &&
      (forall k :: 0 <= k < |emps| && k != i ==> r[k] == emps[k]) &&
      EmployeeIds(r) == EmployeeIds(emps) &&
      (UniqueIds(emps) ==> UniqueIds(r))
  {
    var r := ApplyEdit(emps, i, name, department, basicSalary);
    assert forall k :: 0 <= k < |r| ==> r[k].id == emps[k].id;
    forall x ensures x in EmployeeIds(r) <==> x in EmployeeIds(emps) {
      if x in EmployeeIds(emps) {
        var e :| e in emps && e.id == x;
        var k :| 0 <= k < |emps| && emps[k] == e;
        assert r[k] in r;
      }
      if x in EmployeeIds(r) {
        var e :| e in r && e.id == x;
        var k :| 0 <= k < |r| && r[k] == e;
        assert emps[k] in emps;
      }
    }
  }

  /** A row appended under SQLite's next id keeps ids unique and positive, and every old id stays stored. */
  lemma AppendNewEmployee(emps: seq<Employee>, e: Employee)
    requires UniqueIds(emps) && (forall x :: x in emps ==> x.id >= 1)
    requires e.id == NextRowId(emps)
    ensures UniqueIds(emps + [e])
    ensures forall x :: x in emps + [e] ==> x.id >= 1
    ensures EmployeeIds(emps) <= EmployeeIds(emps + [e])
  {
    var r := emps + [e];
    assert forall k :: 0 <= k < |emps| ==> r[k] == emps[k] && emps[k] in emps;
    forall x | x in EmployeeIds(emps) ensures x in EmployeeIds(r) {
      var y :| y in emps && y.id == x;
      assert y in r;
    }
  }

  datatype AddOutcome = AddFormHidden | AddRejected(error: FormError) | Added(id: int)

  /**
   * "Add Employee" (shown only while no edit is in progress): validate, then
   * insert one employee with the stripped name and department, the salary
   * and the session's organization, under the id SQLite assigns.
   */
  method AddEmployee(db: Database, session: SessionState, name: string, department: string,
                     basicSalary: real, organization: string) returns (outcome: AddOutcome)
    requires session.Access() == Granted(organization)
    requires db.Valid()
    modifies db
    ensures db.Valid()
    ensures db.attendances == old(db.attendances) && db.users == old(db.users)
    ensures session.editEmployeeId.Some? ==> outcome == AddFormHidden
    ensures session.editEmployeeId.None? && ValidateEmployee(name, department, basicSalary).Some? ==>
      outcome == AddRejected(ValidateEmployee(name, department, basicSalary).value)
    ensures !outcome.Added? ==> db.employees == old(db.employees)
    ensures session.editEmployeeId.None? && ValidateEmployee(name, department, basicSalary).None? ==>
      outcome == Added(NextRowId(old(db.employees))) &&
      db.employees == old(db.employees) +
        [Employee(NextRowId(old(db.employees)), Strip(name), Strip(department), basicSalary, organization)]
  {
    if session.editEmployeeId.Some? {
      return AddFormHidden;
    }
    var error := ValidateEmployee(name, department, basicSalary);
    if error.Some? {
      return AddRejected(error.value);
    }
    var id := NextRowId(db.employees);
    var e := Employee(id, Strip(name), Strip(department), basicSalary, organization);
    AppendNewEmployee(db.employees, e);
    db.employees := db.employees + [e];
    outcome := Added(id);
  }

  /** The "Edit" button of row `id`. */
  method PressEdit(session: SessionState, id: int)
    requires session.Access().Granted?
    modifies session
    ensures session.editEmployeeId == Some(id)
    ensures session.pendingDeletes == old(session.pendingDeletes)
    ensures session.isLoggedIn == old(session.isLoggedIn)
    ensures session.username == old(session.username) && session.organization == old(session.organization)
  {
    session.editEmployeeId := Some(id);
  }

  /**
   * The "Cancel" button under the edit form. It is drawn only while the edited
   * id still names a stored employee (looked up by id alone).
   */
  method CancelEdit(db: Database, session: SessionState)
    requires session.Access().Granted?
    requires session.editEmployeeId.Some? && FindEmployeeById(db.employees, session.editEmployeeId.value).Some?
    modifies session
    ensures session.editEmployeeId == None
    ensures session.pendingDeletes == old(session.pendingDeletes)
    ensures session.isLoggedIn == old(session.isLoggedIn)
    ensures session.username == old(session.username) && session.organization == old(session.organization)
  {
    session.editEmployeeId := None;
  }

  datatype EditOutcome = NoEditForm | EditRejected(error: FormError) | Updated

  /**
   * "Update" on the edit form of `edit_employee_id`: validate in the same
   * order as adding; on success store the stripped name and department and
   * the new salary, keep id and organization, and end the edit.
   */
  method SubmitEdit(db: Database, session: SessionState, newName: string, newDepartment: string,
                    newBasicSalary: real) returns (outcome: EditOutcome)
    requires session.Access().Granted?
    requires db.Valid()
    modifies db, session
    ensures db.Valid()
    ensures db.attendances == old(db.attendances) && db.users == old(db.users)
    ensures session.pendingDeletes == old(session.pendingDeletes)
    ensures session.isLoggedIn == old(session.isLoggedIn)
    ensures session.username == old(session.username) && session.organization == old(session.organization)
    ensures outcome == NoEditForm <==>
      old(session.editEmployeeId).None? || FindEmployeeById(old(db.employees), old(session.editEmployeeId).value).None?
    ensures outcome != NoEditForm ==>
      (outcome == Updated <==> ValidateEmployee(newName, newDepartment, newBasicSalary).None?)
    ensures outcome.EditRejected? ==> outcome.error == ValidateEmployee(newName, newDepartment, newBasicSalary).value
    ensures outcome != Updated ==>
      db.employees == old(db.employees) && session.editEmployeeId == old(session.editEmployeeId)
    ensures outcome == Updated ==>
      session.editEmployeeId == None &&
      db.employees == ApplyEdit(old(db.employees),
        FindEmployeeById(old(db.employees), old(session.editEmployeeId).value).value,
        newName, newDepartment, newBasicSalary)
  {
    if session.editEmployeeId.None? {
      return NoEditForm;
    }
    var found := FindEmployeeById(db.employees, session.editEmployeeId.value);
    if found.None? {
      return NoEditForm;
    }
    var error := ValidateEmployee(newName, newDepartment, newBasicSalary);
    if error.Some? {
      return EditRejected(error.value);
    }
    var i := found.value;
    ApplyEditKeepsIds(db.employees, i, newName, newDepartment, newBasicSalary);
    var edited := db.employees[i].(name := Strip(newName), department := Strip(newDepartment),
                                   basicSalary := newBasicSalary);
    db.employees := db.employees[i := edited];
    assert forall e :: e in db.employees ==> e in old(db.employees) || e == edited;
    session.editEmployeeId := None;
    outcome := Updated;
  }

  // ---------------------------------------------------------------------
  // The delete confirmation flag (lines 40-67).

  /** "Delete" is offered only without a pending confirmation, and sets one. */
  method PressDelete(session: SessionState, id: int)
    requires session.Access().Granted?
    modifies session
    ensures session.pendingDeletes == old(session.pendingDeletes) + {id}
    ensures session.editEmployeeId == old(session.editEmployeeId)
    ensures session.isLoggedIn == old(session.isLoggedIn)
    ensures session.username == old(session.username) && session.organization == old(session.organization)
  {
    if id !in session.pendingDeletes {
      session.pendingDeletes := session.pendingDeletes + {id};
    }
  }

  /** "No": drop the pending confirmation; nothing is deleted. */
  method CancelDelete(session: SessionState, id: int)
    requires session.Access().Granted?
    modifies session
    ensures session.pendingDeletes == old(session.pendingDeletes) - {id}
    ensures session.editEmployeeId == old(session.editEmployeeId)
    ensures session.isLoggedIn == old(session.isLoggedIn)
    ensures session.username == old(session.username) && session.organization == old(session.organization)
  {
    session.pendingDeletes := session.pendingDeletes - {id};
  }

  /**
   * "Yes" (offered only while the confirmation is pending): delete the
   * employee's attendance records and the employee, or roll back when the
   * commit fails; either way the confirmation is cleared.
   */
  method ConfirmDelete(db: Database, session: SessionState, id: int, commitOk: bool)
    requires session.Access().Granted?
    requires db.Valid()
    modifies db, session
    ensures db.Valid()
    ensures db.users == old(db.users)
    ensures session.editEmployeeId == old(session.editEmployeeId)
    ensures session.isLoggedIn == old(session.isLoggedIn)
    ensures session.username == old(session.username) && session.organization == old(session.organization)
    ensures session.pendingDeletes == old(session.pendingDeletes) - {id}
    ensures id in old(session.pendingDeletes) && commitOk && FindEmployeeById(old(db.employees), id).Some? ==>
      db.employees == RemoveAt(old(db.employees), FindEmployeeById(old(db.employees), id).value) &&
      db.attendances == DropAttendanceOf(old(db.attendances), id)
    ensures !(id in old(session.pendingDeletes) && commitOk && FindEmployeeById(old(db.employees), id).Some?) ==>
      db.employees == old(db.employees) && db.attendances == old(db.attendances)
  {
    if id !in session.pendingDeletes {
      return;
    }
    var found := FindEmployeeById(db.employees, id);
    if found.Some? {
      db.DeleteEmployeeAt(found.value, commitOk);
    }
    session.pendingDeletes := session.pendingDeletes - {id};
  }
}
