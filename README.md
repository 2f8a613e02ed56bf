# Payroll management: a Dafny model of the payroll core

This project models the core of the Streamlit payroll application in `payroll_streamlit/`. The core covers:

- the monthly payslip computation: workdays, attendance, pro-rated pay, allowances, bonus, penalty and tax;
- the attendance page: marking a day, the Sunday-first month grid, saving a month, the status table and deleting an employee;
- the employee page: search, add, edit and the two-step delete confirmation;
- login, sign-up and logout.

Modules:

- `Wrappers`: `Option` and `Result`, plus Python's `dict.get(k, default)`.
- `Calendar`: Python's proleptic Gregorian `date` arithmetic.
  - Weekday follows `date.weekday()`, with Monday 0 and Sunday 6.
  - The days of a month, and the grid that `calendar.Calendar(firstweekday=6).itermonthdates` yields.
- `Store`: the three tables of `db_setup.py` and the session state of `main.py`.
  - The tables are sequences of row values inside a `Database` object. Its invariant `Valid()` states unique positive employee ids, one attendance record per (employee, date), records referring only to stored employees, and unique usernames.
  - A new employee gets the id SQLite gives a row of a table whose integer primary key lacks the AUTOINCREMENT keyword (`db_setup.py:10` does not set `sqlite_autoincrement`): one more than the largest stored id, or 1 in an empty table.
  - The session state is `SessionState`.
  - Also here: the queries the pages use, where `first()` means the lowest matching position, and the table updates as functions.
- `Payslip`: `payslip_module.py`, lines 26-92, as pure functions.
- `Attendance`: `attendance_module.py`, as imperative methods on `Database`, proved against `Store` functions.
- `Employees`: `employee_module.py`, both the string handling (`strip`, `lower`, substring test) and the page's state changes.
- `Auth`: `auth_module.py` decisions as functions, the button handlers as methods, and the logout button of `main.py`.

Modelling choices:

- Money is an exact `real`.
- A commit that the source wraps in `try`/`rollback` takes its success as an input: `commitOk`, or `failedCommits` for the per-day commits of a save.
- Today's date and the widgets' values are inputs.
- The attendance page builds its `attendance_map` (lines 93-102 of `attendance_module.py`) the same way as the payslip page. `Attendance.BuildGrid` takes that map as an input. `Store.AttendanceMapAgrees` relates the map to the table.

Notes on the code:

- The payslip computation does not reject a non-positive salary. The forms refuse a salary `<= 0` before storing it, so a stored employee always has a positive one.
- January 2024 starts on a Monday and has 27 workdays (`Payslip.January2024Workdays`). `Payslip.PoorAttendanceScenario` also checks a month of 15 present days out of 26 workdays, through `ComputePay`.
- Deleting the employee with the largest id frees that id for the next new employee (`Store.DeletedMaxIdReused`, `Store.IdReuseExample`).
- The edit form (employee_module.py:71-103) looks its employee up by id alone. If that employee is deleted on the attendance page while the edit is open, `edit_employee_id` stays set. Then the edit form and its Cancel button are not drawn, and the Add form is hidden as well (`Employees.CancelEdit` requires a stored employee; `Employees.AddEmployee` shows the form hidden while an edit id is set). Logging out does not clear it (`Auth.Logout` keeps it), so the state lasts for the rest of the browser session. If the id is reused, the form edits the new employee.
- The "Delete Selected Employee" button of the attendance page does not clear the employee page's `delete_confirm_<id>` key. If that id is later reused, the new employee shows a pending delete confirmation from the start. `Attendance.DeleteEmployee` leaves the session alone, so the model keeps such a flag too.

## Model

| member | source | states |
|---|---|---|
| Calendar.DaysInMonth | payroll_streamlit/payslip_module.py:48 | a month has 28 to 31 days; February has 29 exactly in a leap year |
| Calendar.Weekday | payroll_streamlit/payslip_module.py:54 | `date.weekday()` lies in 0..6 |
| Calendar.WeekdayNextDay | payroll_streamlit/payslip_module.py:53 | the day after a date, as `timedelta(days=1)` gives it, has the next weekday mod 7 |
| Calendar.ConsecutiveOrdinals | payroll_streamlit/payslip_module.py:53 | in a run of consecutive dates, ordinals rise by one per position |
| Calendar.ConsecutiveWeekdays | payroll_streamlit/payslip_module.py:54 | in a run of consecutive dates, weekdays advance by one per position, mod 7 |
| Calendar.MonthDaysSpanMonth | payroll_streamlit/payslip_module.py:47-53 | `start_date + timedelta(days=i)` for i up to `(end_date - start_date).days` runs consecutively from the 1st to the last day of the month; the day before the 1st of the next month is that last day; the length matches the ordinal difference |
| Calendar.InMonthDays | payroll_streamlit/payslip_module.py:53 | a date is among the month's days exactly when it is a valid date of that year and month |
| Calendar.MonthGridConsecutive | payroll_streamlit/attendance_module.py:126-127 | `itermonthdates` yields consecutive dates |
| Calendar.MonthGridShape | payroll_streamlit/attendance_module.py:126-139 | the grid is whole weeks, with 0..6 leading and trailing days from the neighbouring months; the in-month positions are exactly the range lead .. lead+n-1, holding day i-lead+1 |
| Calendar.MonthGridColumns | payroll_streamlit/attendance_module.py:129-140 | grid position i falls under header i mod 7 (Sun .. Sat), so a date is in column 0 exactly when it is a Sunday |
| Calendar.MonthDays | payroll_streamlit/payslip_module.py:53 | no contract of its own: the dates 1 .. n of the month; `Calendar.MonthDaysSpanMonth` and `Calendar.InMonthDays` state what it holds |
| Calendar.Ordinal | payroll_streamlit/payslip_module.py:53 | no contract of its own: `date.toordinal()`; `Calendar.OrdinalNextDay` states that it rises by one per day |
| Calendar.OrdinalNextDay | payroll_streamlit/payslip_module.py:53 | the day after a valid date is valid and has the next ordinal |
| Calendar.NextDay | payroll_streamlit/payslip_module.py:53 | no contract of its own: adding `timedelta(days=1)`; `Calendar.OrdinalNextDay` and `Calendar.WeekdayNextDay` state its effect |
| Calendar.PrevDay | payroll_streamlit/payslip_module.py:48 | no contract of its own: subtracting `timedelta(days=1)`; `Calendar.MonthDaysSpanMonth` states that it gives the last day of the month from the 1st of the next |
| Calendar.MonthGrid | payroll_streamlit/attendance_module.py:126-127 | no contract of its own: `itermonthdates` with Sunday first; `Calendar.MonthGridConsecutive`, `Calendar.MonthGridShape` and `Calendar.MonthGridColumns` state its shape |
| Store.FirstIndex | payroll_streamlit/attendance_module.py:10 | `first()`: the lowest matching position, and none when nothing matches |
| Store.EmployeesOf | payroll_streamlit/employee_module.py:22 | the organization filter keeps exactly that organization's employees |
| Store.DropAttendanceOf | payroll_streamlit/attendance_module.py:34 | the bulk delete keeps exactly the records of other employees |
| Store.LookupIffRecord | payroll_streamlit/attendance_module.py:15 | with one record per key, the `first()` lookup for (employee, date) answers v exactly when that record is stored |
| Store.UpsertSetsKey | payroll_streamlit/attendance_module.py:15-21 | updating or adding a record keeps keys unique, and afterwards the key answers the new value with only one record carrying it |
| Store.UpsertKeepsOthers | payroll_streamlit/attendance_module.py:15-21 | the upsert grows the table by at most one row and changes no other key's answer |
| Store.DropAttendanceLookups | payroll_streamlit/attendance_module.py:34 | after the bulk delete, keys stay unique, the employee has no records, and every other employee's answers are unchanged |
| Store.DropKeepsUnique | payroll_streamlit/attendance_module.py:34 | the bulk delete keeps one record per key |
| Store.RemoveAtIds | payroll_streamlit/attendance_module.py:37 | deleting one employee removes exactly that id and keeps ids unique |
| Store.AttendanceMapAgrees | payroll_streamlit/payslip_module.py:56-62 | inside the date range, the dictionary built from the filtered records holds a date exactly when a record exists, with its value |
| Store.Database.constructor | payroll_streamlit/db_setup.py:7-54 | empty tables satisfy the invariant |
| Store.Database.DeleteEmployeeAt | payroll_streamlit/attendance_module.py:32-43 | with a good commit, the attendance records and then the employee are removed; a failed commit rolls back to the old tables; the invariant is kept |
| Store.SessionState.constructor | payroll_streamlit/main.py:14-19 | the session starts logged out, with no user, no organization and no pending edit or delete |
| Store.SessionState.Access | payroll_streamlit/employee_module.py:12-19 | a page runs exactly for a logged-in session holding a non-empty organization |
| Store.FindEmployee | payroll_streamlit/attendance_module.py:10 | `filter_by(name, organization).first()`: a found index holds a match and no earlier row matches; nothing is found exactly when no row matches |
| Store.FindEmployeeById | payroll_streamlit/employee_module.py:73 | a found index holds that id; nothing is found exactly when the id is not stored |
| Store.FindAttendance | payroll_streamlit/attendance_module.py:15 | a found index holds the (employee, date) key and no earlier row does; nothing is found exactly when no row has the key |
| Store.DateLe | payroll_streamlit/payslip_module.py:58-59 | no contract of its own: the `Attendance.date >= start_date` and `<= end_date` comparisons, field by field; `Store.AttendanceMap` states that the map keys lie between the two dates |
| Store.Lookup | payroll_streamlit/attendance_module.py:15-17 | an answer exists exactly when some row has the key, and the answer comes from a stored record with that key |
| Store.EmployeesOfAppend | payroll_streamlit/attendance_module.py:48 | the organization filter of a concatenation is the concatenation of the filters, so query results keep table order |
| Store.AttendanceMap | payroll_streamlit/attendance_module.py:97-102 | every date in the map lies in the queried range, and its value is that of a stored record of the employee for that date |
| Store.Upsert | payroll_streamlit/attendance_module.py:15-21 | the record with the new value is stored, the table grows by at most one row, and every row of another key stays in its place |
| Store.RemoveAt | payroll_streamlit/attendance_module.py:37 | one row fewer; the rows before and after the deleted one keep their order |
| Store.MaxId | payroll_streamlit/db_setup.py:10 | an upper bound of every stored id that is itself a stored id, or 0 for an empty table |
| Store.NextRowId | payroll_streamlit/db_setup.py:10 | the new id is above every stored id, is 1 for an empty table, and is otherwise one more than a stored id |
| Store.DeletedMaxIdReused | payroll_streamlit/attendance_module.py:29-45 | after deleting the employee with the largest id, the next new id is no larger than the deleted one |
| Store.IdReuseExample | payroll_streamlit/employee_module.py:124-131 | with employees 1 and 2, deleting 2 makes the next new employee 2 again |
| Payslip.MonthRange | payroll_streamlit/payslip_module.py:46-51 | the month's first and last dates, or the date error exactly when `date()` would raise: month outside 1..12, year outside 1..9999, or December 9999 |
| Payslip.Workdays | payroll_streamlit/payslip_module.py:54 | keeps exactly the dates that are not Sundays |
| Payslip.CountPresent | payroll_streamlit/payslip_module.py:63 | the number of days present never exceeds the number of workdays; with `Payslip.CountPresentSingle` and `Payslip.CountPresentAppend` the count is the number of workdays whose `get(d, False)` is true |
| Payslip.PayslipPage | payroll_streamlit/payslip_module.py:26-62 | "no employees" exactly when the organization has none; "no employee selected" exactly when it has some but none has the selected name; a payslip only for an employee of the organization with the selected name |
| Payslip.WorkdaysOfMonth | payroll_streamlit/payslip_module.py:53-54 | a workday is a valid date of the month that is not a Sunday |
| Payslip.WorkdaysOfRun | payroll_streamlit/payslip_module.py:54 | a run of n consecutive dates starting on weekday w has n - (n+w) div 7 non-Sundays |
| Payslip.WorkdaysPerMonth | payroll_streamlit/payslip_module.py:53-64 | `total_workdays` follows a closed form from the month length and its first weekday, and is 24 to 27 |
| Payslip.January2024Workdays | payroll_streamlit/payslip_module.py:53-64 | 1 January 2024 is a Monday, and January 2024 has 27 workdays |
| Payslip.CountPresentAll | payroll_streamlit/payslip_module.py:63 | when every workday is marked present, the count is the number of workdays |
| Payslip.CountPresentAgree | payroll_streamlit/payslip_module.py:63 | the count depends only on each workday's `get(d, False)` value |
| Payslip.SundayIgnored | payroll_streamlit/payslip_module.py:54-63 | marking a Sunday present does not change the count |
| Payslip.PayslipCounts | payroll_streamlit/payslip_module.py:63-64 | days present is at most the workdays, and the workdays are 24 to 27 |
| Payslip.PayslipPageUsesStoredAttendance | payroll_streamlit/payslip_module.py:56-63 | for every day of the month, the page's attendance map gives the stored record's value, or False when none is stored |
| Payslip.RatioBounds | payroll_streamlit/payslip_module.py:65-70 | the percentage is the ratio times 100; with present <= workdays, both lie in [0, 1] and [0, 100] |
| Payslip.ZeroWorkdays | payroll_streamlit/payslip_module.py:65-74 | with no workdays, ratio, percentage, basic pay, HRA, DA and bonus are all 0 |
| Payslip.ProRatedPay | payroll_streamlit/payslip_module.py:70-73 | basic pay times the workdays is the salary times the days present (salary * present / workdays), and 0 for a month without workdays; it lies between 0 and the salary and equals the salary at full attendance; HRA is a fifth of it and DA a tenth |
| Payslip.BasicPayFields | payroll_streamlit/payslip_module.py:70-73 | the payslip's basic pay is the pro-rated pay; HRA is a fifth of it and DA a tenth |
| Payslip.BasicPayScales | payroll_streamlit/payslip_module.py:70-71 | `basic_salary * (days_present / total_workdays)` times the workdays is the salary times the days present; 0 when there are no workdays |
| Payslip.BasicPayBounds | payroll_streamlit/payslip_module.py:70-71 | the pro-rated pay lies between 0 and the salary, and is the whole salary at full attendance |
| Payslip.BonusCondition | payroll_streamlit/payslip_module.py:65-74 | an attendance of at least 95% means at least 19 present days for every 20 workdays |
| Payslip.BonusThresholdDays | payroll_streamlit/payslip_module.py:74 | the bonus is 5% of the full salary exactly when at least 19 of every 20 workdays are present, and 0 otherwise |
| Payslip.FullAttendanceBonus | payroll_streamlit/payslip_module.py:65-80 | full attendance gives 100%, the bonus and no penalty |
| Payslip.PenaltyThresholdDays | payroll_streamlit/payslip_module.py:63-81 | the payslip reports the counts it was given and their percentage; for a month with workdays, the penalty is 30% of the pre-penalty gross exactly for a completed month with 4 x present < 3 x workdays, and 0 otherwise |
| Payslip.PenaltyCondition | payroll_streamlit/payslip_module.py:65-79 | a percentage under 75 means fewer than 3 present days per 4 workdays |
| Payslip.PenaltyRule | payroll_streamlit/payslip_module.py:76-81 | the penalty is 30% of the pre-penalty gross, leaving 70%, exactly for a completed month under 75%; otherwise the gross is untouched |
| Payslip.NoPenaltyForOpenMonth | payroll_streamlit/payslip_module.py:67-81 | the current or a future month is never penalised |
| Payslip.PastMonthIsEarlier | payroll_streamlit/payslip_module.py:67 | "past month" means strictly earlier in (year, month) order |
| Payslip.TaxBrackets | payroll_streamlit/payslip_module.py:85-90 | 0 up to 15000, 5% of the whole gross up to 30000, 10% above; exact values at 15000, 15000.01, 30000 and 30000.01; never more than 10% |
| Payslip.NetBounds | payroll_streamlit/payslip_module.py:76-92 | 0 <= gross <= pre-penalty gross, the tax is the bracket tax of the gross, net is gross minus tax, and net lies in [0.9 gross, gross] |
| Payslip.NetDropsAtBracket | payroll_streamlit/payslip_module.py:85-92 | crossing a bracket limit lowers the net (30000 nets more than 30000.01) |
| Payslip.FullAttendancePayslip | payroll_streamlit/payslip_module.py:47-92 | with every workday of a valid month marked present, the payslip is the pay for n present days of n workdays |
| Payslip.FullMonthScenario | payroll_streamlit/payslip_module.py:47-92 | salary 30000, all 27 workdays of January 2024, month completed: 30000 + 6000 + 3000 + 1500 = 40500 gross, 4050 tax, 36450 net |
| Payslip.PoorAttendanceScenario | payroll_streamlit/payslip_module.py:65-92 | 15 of 27 days in a completed month: the exact penalised figures; 15 of 26: 22500 before the penalty, 6750 penalty, 15750 gross, 787.50 tax, 14962.50 net |
| Payslip.CountPresentNone | payroll_streamlit/payslip_module.py:63 | when no workday's `get(d, False)` is true, whether the entry is false or missing, the count is 0 |
| Payslip.CountPresentSingle | payroll_streamlit/payslip_module.py:63 | one day counts 1 exactly when its `get(d, False)` is true |
| Payslip.CountPresentAppend | payroll_streamlit/payslip_module.py:63 | the count over two stretches of days is the sum of the two counts |
| Payslip.PayslipPageValue | payroll_streamlit/payslip_module.py:26-92 | the page's payslip is the one computed from the selected employee's salary and from any map that agrees with the stored records on every day of the month, a missing record meaning absent |
| Payslip.AttendanceRatio | payroll_streamlit/payslip_module.py:70 | with workdays, the ratio times the workdays is the days present; with none, the ratio is 0 |
| Payslip.AttendancePercentage | payroll_streamlit/payslip_module.py:65 | the percentage computed on its own equals the ratio times 100 |
| Payslip.BasicPay | payroll_streamlit/payslip_module.py:71 | no contract of its own: the salary times the ratio; `Payslip.BasicPayBounds` states its bounds |
| Payslip.IsPastMonth | payroll_streamlit/payslip_module.py:67 | no contract of its own; `Payslip.PastMonthIsEarlier` states its meaning |
| Payslip.Tax | payroll_streamlit/payslip_module.py:84-90 | there is no tax exactly up to 15000; for a non-negative gross the tax lies between 0 and 10% of it |
| Payslip.ComputePay | payroll_streamlit/payslip_module.py:65-92 | no contract of its own: the figures of lines 65-92 in order. Lemmas fix each figure from the inputs: `Payslip.PenaltyThresholdDays` the counts and the percentage; `Payslip.ProRatedPay` basic pay (salary * present / workdays), HRA and DA; `Payslip.BonusThresholdDays` the bonus and the pre-penalty gross; `Payslip.PenaltyThresholdDays` and `Payslip.PenaltyRule` the penalty and the gross; `Payslip.NetBounds` the tax (`Payslip.Tax` of the gross, whose brackets `Payslip.TaxBrackets` states) and the net |
| Payslip.ComputePayslip | payroll_streamlit/payslip_module.py:46-92 | a payslip exactly when the month's dates exist, the date error otherwise, and the days present never exceed the workdays |
| Attendance.MarkAttendance | payroll_streamlit/attendance_module.py:9-27 | an unknown name changes nothing; otherwise the day's record is set or added and committed, or everything is rolled back; the invariant is kept |
| Attendance.DeleteEmployee | payroll_streamlit/attendance_module.py:29-45 | an unknown name changes nothing; otherwise the employee and its attendance records are removed, or the failed commit leaves both tables as they were |
| Attendance.StatusIffPresentRecord | payroll_streamlit/attendance_module.py:55-56 | the status is "Present" exactly when a present record exists for that employee and date |
| Attendance.RefreshTreeview | payroll_streamlit/attendance_module.py:47-60 | one row per employee of the organization, in query order, with name, department and that day's status |
| Attendance.BuildGrid | payroll_streamlit/attendance_module.py:126-152 | each cell goes in column i mod 7; a checkbox appears exactly for the days of the month, each showing its own day in order; Sunday checkboxes are disabled and unchecked; all others show the stored value, unchecked when none is stored |
| Attendance.SaveAttendance | payroll_streamlit/attendance_module.py:156-165 | every day of the month ends with the checkbox value as its stored answer, unless that day's commit failed; no other (employee, date) answer changes; the count is the number of days in the month |
| Attendance.StatusOn | payroll_streamlit/attendance_module.py:55-56 | no contract of its own; `Attendance.StatusIffPresentRecord` states when it is "Present" |
| Attendance.GridCell | payroll_streamlit/attendance_module.py:139-152 | no contract of its own: the cell drawn for one grid position; `Attendance.BuildGrid` states the resulting grid |
| Employees.StripStartIndex | payroll_streamlit/employee_module.py:26 | the index of the first non-whitespace character, with only whitespace before it |
| Employees.StripEndIndex | payroll_streamlit/employee_module.py:26 | one past the last non-whitespace character, with only whitespace after it |
| Employees.Strip | payroll_streamlit/employee_module.py:86 | `strip()` is empty exactly for an all-whitespace string, and otherwise starts and ends with a non-space and is the part between the outer whitespace |
| Employees.StripIdempotent | payroll_streamlit/employee_module.py:93-94 | stripping a stripped value changes nothing |
| Employees.NameFilter | payroll_streamlit/employee_module.py:27 | keeps exactly the employees whose lower-cased name contains the term |
| Employees.NameFilterAppend | payroll_streamlit/employee_module.py:27 | the filter of a concatenation is the concatenation of the filters, so matches stay in list order |
| Employees.SearchEmployees | payroll_streamlit/employee_module.py:26-27 | a blank search lists everyone; otherwise exactly the employees whose lower-cased name contains the stripped, lower-cased input, and the result is the order-keeping filter `Employees.NameFilter` of the list by that term |
| Employees.NameFilterSingle | payroll_streamlit/employee_module.py:27 | one employee is kept, once, exactly when its lower-cased name contains the term; with `Employees.NameFilterAppend` this fixes the filter on every list |
| Employees.NameFilterSubsequence | payroll_streamlit/employee_module.py:27 | the filtered list is a subsequence of the list: same order, no row repeated |
| Employees.EmptyTermMatchesAll | payroll_streamlit/employee_module.py:27 | the empty term is contained in every name, so a filter on it keeps everyone |
| Employees.SearchStaysInOrganization | payroll_streamlit/employee_module.py:22-27 | a search never lists an employee of another organization |
| Employees.SearchIgnoresCase | payroll_streamlit/employee_module.py:26-27 | lower-casing the input beforehand gives the same list |
| Employees.ValidateEmployee | payroll_streamlit/employee_module.py:117-122 | blank name first, then blank department, then salary <= 0; accepted exactly when none applies |
| Employees.ApplyEditKeepsIds | payroll_streamlit/employee_module.py:93-96 | an edit keeps the row's id and organization and every other row, hence the id set and its uniqueness |
| Employees.AddEmployee | payroll_streamlit/employee_module.py:105-131 | hidden during an edit; rejected with the first validation error; otherwise appends the stripped name, the stripped department, the salary and the session's organization under SQLite's next row id; the invariant is kept |
| Employees.PressEdit | payroll_streamlit/employee_module.py:36-37 | sets the edit target; nothing else changes |
| Employees.SubmitEdit | payroll_streamlit/employee_module.py:71-99 | no form without a target in the table; validation errors change nothing; success stores the stripped fields and the salary in that row and ends the edit |
| Employees.CancelEdit | payroll_streamlit/employee_module.py:71-103 | callable only while the edited id names a stored employee, as the button is drawn only then; ends the edit and nothing else changes |
| Employees.PressDelete | payroll_streamlit/employee_module.py:40-43 | marks the row's delete as pending |
| Employees.CancelDelete | payroll_streamlit/employee_module.py:65-66 | clears the pending flag; nothing is deleted |
| Employees.ConfirmDelete | payroll_streamlit/employee_module.py:48-63 | only with a pending flag; removes the employee and its attendance, or rolls back a failed commit; clears the flag either way |
| Employees.IsSpace | payroll_streamlit/employee_module.py:86 | no contract of its own: the code points for which Python's `str.isspace()` is true |
| Employees.LowerChar | payroll_streamlit/employee_module.py:26 | no contract of its own: `lower()` on ASCII and Latin-1 capitals; `Employees.LowerCharSpace` states that it keeps whitespace |
| Employees.Lower | payroll_streamlit/employee_module.py:26-27 | the result has the same length and lower-cases each character |
| Employees.Contains | payroll_streamlit/employee_module.py:27 | no contract of its own: Python's substring test `needle in hay`; `Employees.EmptyTermMatchesAll` states that the empty string is in every name |
| Employees.LowerIdempotent | payroll_streamlit/employee_module.py:26-27 | lower-casing twice equals lower-casing once |
| Employees.LowerCharSpace | payroll_streamlit/employee_module.py:26 | lower-casing turns no character into or out of whitespace |
| Employees.StripStartLower | payroll_streamlit/employee_module.py:26 | lower-casing keeps the position of the first non-space character |
| Employees.StripEndLower | payroll_streamlit/employee_module.py:26 | lower-casing keeps the position after the last non-space character |
| Employees.StripLower | payroll_streamlit/employee_module.py:26 | `strip()` and `lower()` commute |
| Employees.ApplyEdit | payroll_streamlit/employee_module.py:93-95 | no contract of its own: the edited row; `Employees.ApplyEditKeepsIds` states what it keeps |
| Auth.SameUsernameSameIndex | payroll_streamlit/db_setup.py:25 | with unique usernames, a username determines its row |
| Auth.LoginIff | payroll_streamlit/auth_module.py:17-29 | with unique usernames, login succeeds exactly when every field is filled and a user with that name, password and organization exists |
| Auth.LoginNeedsOrganization | payroll_streamlit/auth_module.py:21-22 | the right name and password under another organization do not log in |
| Auth.EmptyFieldsRejected | payroll_streamlit/auth_module.py:18-40 | an empty username, password or organization is reported before any lookup on the login form; on the sign-up form an empty confirmation is reported too |
| Auth.PasswordMismatchRejected | payroll_streamlit/auth_module.py:39-42 | with all four sign-up fields filled, the answer is "Passwords do not match" exactly when the confirmation differs from the password, whatever users exist |
| Auth.SignUpIff | payroll_streamlit/auth_module.py:38-47 | with matching passwords, sign-up is refused exactly when the username exists in any organization, and accepted exactly when it is free |
| Auth.SignUpThenLogin | payroll_streamlit/auth_module.py:44-50 | an accepted sign-up keeps usernames unique, and the new account can then log in |
| Auth.Login | payroll_streamlit/auth_module.py:17-29 | the result is the login decision; success records the user and organization and grants page access; failure changes nothing |
| Auth.SignUp | payroll_streamlit/auth_module.py:38-51 | the result is the sign-up decision: a missing field (confirmation included) and then a password mismatch are reported before the lookup; on acceptance exactly one user is appended, otherwise the users are unchanged; the invariant is kept |
| Auth.Logout | payroll_streamlit/main.py:118-121 | clears login, user and organization, so page access is refused |
| Auth.FindUser | payroll_streamlit/auth_module.py:21 | a found index holds a user of that name and organization; nothing is found exactly when there is none |
| Auth.FindUsername | payroll_streamlit/auth_module.py:44 | a found index holds a user of that name; nothing is found exactly when the name is free |
| Auth.LoginDecision | payroll_streamlit/auth_module.py:17-29 | no contract of its own; `Auth.LoginIff`, `Auth.LoginNeedsOrganization` and `Auth.EmptyFieldsRejected` state it |
| Auth.SignUpDecision | payroll_streamlit/auth_module.py:38-47 | no contract of its own; its four branches are stated by `Auth.EmptyFieldsRejected` (a missing field of the four), `Auth.PasswordMismatchRejected` (differing passwords) and `Auth.SignUpIff` (taken or free username) |

## Left out

- Streamlit rendering, messages, reruns, the charts, CSS and images: output only, with no effect on state.
- `contact_module.py`, `connection.py`, `setup.py` and the home page of `main.py`: outside the payroll core.
- SQL engine behaviour:
  - Queries return rows in table order.
  - The order of `first()` without `ORDER BY` is not modelled.
  - ORM row identity, attendance row ids and lazy loading are not modelled.
  - A daily commit that fails leaves the earlier days committed. The model's `failedCommits` also leaves later days unaffected.
  - One action at a time: two sessions never interleave. The `attendances` table has no unique (employee_id, date) constraint (`db_setup.py:43-51`), so `Valid()`'s one record per key holds only because no two sessions check for a record and insert it concurrently.
- Floating point: amounts are exact reals, so binary rounding and the two-decimal display formatting are not modelled.
- Employees.Lower: lower-cases ASCII and Latin-1 capitals only, not the rest of Unicode.
- Commit failures of add, edit and sign-up: the source does not catch them, so the model treats those commits as succeeding.
- Attendance.SaveAttendance: the checkbox states are an input map. The disabled Sunday boxes hold False there, but the model does not derive that from `Attendance.BuildGrid`.
- Attendance.SaveAttendance: a name not found leaves the table unchanged. The source cannot reach that case, because the name comes from the organization's own list and line 98 would fail first.
- Year and month selection: the choice lists of the pages are not modelled. The pages' years lie in Python's 1..9999, and `Payslip.MonthRange` models the date error for the others.
- The edit form's and add form's `min_value=0.0` widget bound: an input constraint, already covered by the salary check.
