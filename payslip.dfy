/**
 * The payslip computation of payslip_module.py: the days of the chosen month,
 * its workdays (every day but Sunday), the days marked present, the
 * attendance ratio, pro-rated basic pay with HRA and DA, the full-attendance
 * bonus, the penalty for a completed month with poor attendance, the
 * three-bracket tax and the net salary. Amounts are exact rationals.
 */
module Payslip {
  import opened Wrappers
  import opened Calendar
  import opened Store

  const HraRate: real := 0.20
  const DaRate: real := 0.10
  const BonusRate: real := 0.05
  /** Attendance percentage at or above which the bonus is paid. */
  const BonusThreshold: real := 95.0
  const PenaltyRate: real := 0.30
  /** Attendance percentage below which a completed month is penalised. */
  const PenaltyThreshold: real := 75.0
  /** Gross amounts up to this limit are untaxed. */
  const TaxFreeLimit: real := 15000.0
  /** Gross amounts above TaxFreeLimit and up to this limit are taxed at MidTaxRate. */
  const MidBracketLimit: real := 30000.0
  const MidTaxRate: real := 0.05
  const HighTaxRate: real := 0.10

  datatype Payslip = Payslip(
    totalWorkdays: nat,
    daysPresent: nat,
    attendancePercentage: real,
    basicPay: real,
    hra: real,
    da: real,
    bonus: real,
    grossBeforePenalty: real,
    penalty: real,
    grossSalary: real,
    tax: real,
    netSalary: real)

  datatype PayslipError = DateOutOfRange | NoEmployees | NoEmployeeSelected

  /**
   * The first and last day of the month. `date(year, month, 1)` and the first
   * day of the next month must both exist for Python, or the page reports a
   * date error.
   */
  function MonthRange(year: int, month: int): (r: Result<(Date, Date), PayslipError>)
    ensures r.Ok? <==> 1 <= month <= 12 && MinYear <= year &&
                       (if month == 12 then year < MaxYear else year <= MaxYear)
    ensures r.Ok? ==> r.value == (FirstOfMonth(year, month), LastOfMonth(year, month))
  {
    if !(1 <= month <= 12 && MinYear <= year <= MaxYear) then Err(DateOutOfRange)
    else
      var next := FirstOfNextMonth(year, month);
      if next.year > MaxYear then Err(DateOutOfRange)
      else
        MonthDaysSpanMonth(year, month);
        Ok((FirstOfMonth(year, month), PrevDay(next)))
  }

  /** `[d for d in all_dates if d.weekday() < 6]` */
  function Workdays(ds: seq<Date>): (ws: seq<Date>)
    requires forall i :: 0 <= i < |ds| ==> 1 <= ds[i].month <= 12
    ensures |ws| <= |ds|
    ensures forall d :: d in ws <==> d in ds && Weekday(d) != Sunday
  {
    if |ds| == 0 then []
    else (if Weekday(ds[0]) < Sunday then [ds[0]] else []) + Workdays(ds[1..])
  }

  /** `sum(1 for d in workdays if attendance_map.get(d, False))` */
  function CountPresent(ws: seq<Date>, presence: map<Date, bool>): (n: nat)
    ensures n <= |ws|
  {
    if |ws| == 0 then 0
    else (if MapGet(presence, ws[0], false) then 1 else 0) + CountPresent(ws[1..], presence)
  }

  /** Line 70: the share of workdays present, zero when there are no workdays. */
  function AttendanceRatio(daysPresent: nat, totalWorkdays: nat): (r: real)
    ensures totalWorkdays > 0 ==> r * totalWorkdays as real == daysPresent as real
    ensures totalWorkdays == 0 ==> r == 0.0
  {
    if totalWorkdays > 0 then daysPresent as real / totalWorkdays as real else 0.0
  }

  /** Line 65: the same share as a percentage, computed on its own. */
  function AttendancePercentage(daysPresent: nat, totalWorkdays: nat): (r: real)
    ensures r == AttendanceRatio(daysPresent, totalWorkdays) * 100.0
  {
    if totalWorkdays > 0 then (daysPresent as real / totalWorkdays as real) * 100.0 else 0.0
  }

  /** Line 71: the salary pro-rated by the attendance ratio. */
  function BasicPay(basicSalary: real, daysPresent: nat, totalWorkdays: nat): real {
    basicSalary * AttendanceRatio(daysPresent, totalWorkdays)
  }

  /** Line 67: (year, month) lies strictly before today's (year, month). */
  predicate IsPastMonth(year: int, month: int, today: Date) {
    year < today.year || (year == today.year && month < today.month)
  }

  /** Lines 85-90: one rate for the whole gross amount, chosen by bracket. */
  function Tax(gross: real): (t: real)
    ensures t == 0.0 <==> gross <= TaxFreeLimit
    ensures 0.0 <= gross ==> 0.0 <= t <= HighTaxRate * gross
  {
    if gross <= TaxFreeLimit then 0.0
    else if gross <= MidBracketLimit then MidTaxRate * gross
    else HighTaxRate * gross
  }

  /** Lines 65-92 once the attendance counts are known. */
  function ComputePay(basicSalary: real, daysPresent: nat, totalWorkdays: nat, isPastMonth: bool): Payslip {
    var percentage := AttendancePercentage(daysPresent, totalWorkdays);
    var basicPay := BasicPay(basicSalary, daysPresent, totalWorkdays);
    var hra := HraRate * basicPay;
    var da := DaRate * basicPay;
    var bonus := if percentage >= BonusThreshold then BonusRate * basicSalary else 0.0;
    var grossBeforePenalty := basicPay + hra + da + bonus;
    var penalty := if isPastMonth && percentage < PenaltyThreshold
                   then PenaltyRate * grossBeforePenalty else 0.0;
    var gross := grossBeforePenalty - penalty;
    var tax := Tax(gross);
    Payslip(totalWorkdays, daysPresent, percentage, basicPay, hra, da, bonus,
            grossBeforePenalty, penalty, gross, tax, gross - tax)
  }

  /**
   * Lines 47-92: the payslip of an employee for (year, month), given the
   * employee's basic salary, the per-date attendance map and today's date.
   */
  function ComputePayslip(basicSalary: real, presence: map<Date, bool>, year: int, month: int, today: Date): (r: Result<Payslip, PayslipError>)
    ensures r.Ok? <==> MonthRange(year, month).Ok?
    ensures r.Err? ==> r.error == DateOutOfRange
    ensures r.Ok? ==> r.value.daysPresent <= r.value.totalWorkdays
  {
    match MonthRange(year, month)
    case Err(e) => Err(e)
    case Ok(_) =>
      var ws := Workdays(MonthDays(year, month));
      Ok(ComputePay(basicSalary, CountPresent(ws, presence), |ws|, IsPastMonth(year, month, today)))
  }

  /**
   * Lines 26-62: the employees of the organization, the first one carrying
   * the selected name, and its attendance records within the month.
   */
  function PayslipPage(employees: seq<Employee>, attendances: seq<AttendanceRecord>, organization: string,
                       selectedName: string, year: int, month: int, today: Date): (r: Result<Payslip, PayslipError>)
    ensures r == Err(NoEmployees) <==> EmployeesOf(employees, organization) == []
    ensures r == Err(NoEmployeeSelected) <==>
      EmployeesOf(employees, organization) != [] &&
      FindEmployee(EmployeesOf(employees, organization), selectedName, organization).None?
    ensures r.Ok? ==> exists e :: e in employees && NamedIn(e, selectedName, organization)
  {
    var emps := EmployeesOf(employees, organization);
    if emps == [] then Err(NoEmployees)
    else match FindEmployee(emps, selectedName, organization)
      case None => Err(NoEmployeeSelected)
      case Some(i) =>
        var emp := emps[i];
        match MonthRange(year, month)
        case Err(e) => Err(e)
        case Ok((start, end)) =>
          ComputePayslip(emp.basicSalary, AttendanceMap(attendances, emp.id, start, end), year, month, today)
  }

  // ---------------------------------------------------------------------
  // Which days count.

  /** A workday of the month is a valid date of that month that is not a Sunday. */
  lemma WorkdaysOfMonth(year: int, month: int, d: Date)
    requires 1 <= month <= 12
    ensures d in Workdays(MonthDays(year, month)) <==>
      ValidDate(d) && d.year == year && d.month == month && Weekday(d) != Sunday
  {
    InMonthDays(year, month, d);
  }

  /** In a run of consecutive days starting on weekday w, n - (n + w) / 7 days are not Sundays. */
  lemma {:induction false} WorkdaysOfRun(s: seq<Date>)
    requires Consecutive(s) && |s| > 0
    ensures |Workdays(s)| == |s| - (|s| + Weekday(s[0])) / 7
  {
    var w := Weekday(s[0]);
    if |s| == 1 {
    } else {
      var t := s[1..];
      ConsecutiveTail(s);
      WorkdaysOfRun(t);
      assert |Workdays(s)| == (if w < Sunday then 1 else 0) + |Workdays(t)|;
      RunCountStep(|s|, w, Weekday(t[0]));
    }
  }

  /** The count of non-Sundays after dropping the first day of a run, in closed form. */
  lemma RunCountStep(n: int, w: int, w2: int)
    requires n >= 2 && 0 <= w < 7 && w2 == (w + 1) % 7
    ensures (if w < Sunday then 1 else 0) + (n - 1) - (n - 1 + w2) / 7 == n - (n + w) / 7
  {
    if w == Sunday {
      assert (n + 6) / 7 == (n - 1) / 7 + 1;
    }
  }

  /**
   * Every real month has between 24 and 27 workdays, so the zero-workday
   * guard of lines 65 and 70 never fires for a date the page can pick.
   */
  lemma WorkdaysPerMonth(year: int, month: int)
    requires 1 <= month <= 12
    ensures |Workdays(MonthDays(year, month))| ==
      DaysInMonth(year, month) - (DaysInMonth(year, month) + Weekday(FirstOfMonth(year, month))) / 7
    ensures 24 <= |Workdays(MonthDays(year, month))| <= 27
  {
    MonthDaysSpanMonth(year, month);
    WorkdaysOfRun(MonthDays(year, month));
  }

  /** January 2024 starts on a Monday and has four Sundays, hence 27 workdays. */
  lemma January2024Workdays()
    ensures Weekday(Date(2024, 1, 1)) == 0
    ensures |Workdays(MonthDays(2024, 1))| == 27
  {
    assert DaysBeforeYear(2024) == 738885;
    assert Ordinal(Date(2024, 1, 1)) == 738886;
    assert Weekday(FirstOfMonth(2024, 1)) == 0;
    assert DaysInMonth(2024, 1) == 31;
    WorkdaysPerMonth(2024, 1);
  }

  /** Every workday marked present counts: full attendance counts every workday. */
  lemma {:induction false} CountPresentAll(ws: seq<Date>, presence: map<Date, bool>)
    requires forall d :: d in ws ==> d in presence && presence[d]
    ensures CountPresent(ws, presence) == |ws|
  {
    if |ws| > 0 {
      assert ws[0] in ws;
      CountPresentAll(ws[1..], presence);
    }
  }

  /** The count depends only on the entries for the listed days, a missing entry meaning absent. */
  lemma {:induction false} CountPresentAgree(ws: seq<Date>, p: map<Date, bool>, q: map<Date, bool>)
    requires forall d :: d in ws ==> MapGet(p, d, false) == MapGet(q, d, false)
    ensures CountPresent(ws, p) == CountPresent(ws, q)
  {
    if |ws| > 0 {
      assert ws[0] in ws;
      CountPresentAgree(ws[1..], p, q);
    }
  }

  /** No workday marked present, or none stored at all, counts nothing. */
  lemma {:induction false} CountPresentNone(ws: seq<Date>, presence: map<Date, bool>)
    requires forall d :: d in ws ==> !MapGet(presence, d, false)
    ensures CountPresent(ws, presence) == 0
  {
    if |ws| > 0 {
      assert ws[0] in ws;
      CountPresentNone(ws[1..], presence);
    }
  }

  /** A single day counts one exactly when its entry is present and true. */
  lemma CountPresentSingle(d: Date, presence: map<Date, bool>)
    ensures CountPresent([d], presence) == if MapGet(presence, d, false) then 1 else 0
  {
    assert [d][1..] == [];
  }

  /** The count over two stretches of days is the sum of their counts. */
  lemma {:induction false} CountPresentAppend(a: seq<Date>, b: seq<Date>, presence: map<Date, bool>)
    ensures CountPresent(a + b, presence) == CountPresent(a, presence) + CountPresent(b, presence)
  {
    if |a| == 0 {
      assert a + b == b;
    } else {
      assert (a + b)[0] == a[0];
      assert (a + b)[1..] == a[1..] + b;
      CountPresentAppend(a[1..], b, presence);
    }
  }

  /** A Sunday marked present is ignored. */
  lemma SundayIgnored(year: int, month: int, presence: map<Date, bool>, sunday: Date)
    requires 1 <= month <= 12
    requires 1 <= sunday.month <= 12 && Weekday(sunday) == Sunday
    ensures CountPresent(Workdays(MonthDays(year, month)), presence[sunday := true]) ==
            CountPresent(Workdays(MonthDays(year, month)), presence)
  {
    CountPresentAgree(Workdays(MonthDays(year, month)), presence[sunday := true], presence);
  }

  /** Days present of a payslip never exceed its workdays, and a real month always has workdays. */
  lemma PayslipCounts(basicSalary: real, presence: map<Date, bool>, year: int, month: int, today: Date)
    requires ComputePayslip(basicSalary, presence, year, month, today).Ok?
    ensures var p := ComputePayslip(basicSalary, presence, year, month, today).value;
      p.daysPresent <= p.totalWorkdays && 24 <= p.totalWorkdays <= 27
  {
    WorkdaysPerMonth(year, month);
  }

  /** The page counts exactly the stored records: the map it builds agrees with the table for every day of the month. */
  lemma PayslipPageUsesStoredAttendance(attendances: seq<AttendanceRecord>, employeeId: int, year: int, month: int)
    requires UniqueKeys(attendances) && 1 <= month <= 12
    ensures forall d :: d in MonthDays(year, month) ==>
      MapGet(AttendanceMap(attendances, employeeId, FirstOfMonth(year, month), LastOfMonth(year, month)), d, false)
      == Lookup(attendances, employeeId, d).GetOr(false)
  {
    var start, end := FirstOfMonth(year, month), LastOfMonth(year, month);
    var m := AttendanceMap(attendances, employeeId, start, end);
    forall d | d in MonthDays(year, month)
      ensures MapGet(m, d, false) == Lookup(attendances, employeeId, d).GetOr(false)
    {
      InMonthDays(year, month, d);
      AttendanceMapAgrees(attendances, employeeId, start, end, d);
    }
  }

  /**
   * The payslip the page shows for the selected employee is the one computed
   * from that employee's salary and any attendance map that agrees with the
   * stored records on every day of the month (a day without a record absent).
   */
  lemma PayslipPageValue(employees: seq<Employee>, attendances: seq<AttendanceRecord>, organization: string,
                         selectedName: string, year: int, month: int, today: Date, i: nat, presence: map<Date, bool>)
    requires UniqueKeys(attendances)
    requires FindEmployee(EmployeesOf(employees, organization), selectedName, organization) == Some(i)
    requires forall d :: ValidDate(d) && d.year == year && d.month == month ==>
      MapGet(presence, d, false) ==
        Lookup(attendances, EmployeesOf(employees, organization)[i].id, d).GetOr(false)
    ensures PayslipPage(employees, attendances, organization, selectedName, year, month, today) ==
      ComputePayslip(EmployeesOf(employees, organization)[i].basicSalary, presence, year, month, today)
  {
    var e := EmployeesOf(employees, organization)[i];
    if MonthRange(year, month).Ok? {
      var (start, end) := MonthRange(year, month).value;
      var m := AttendanceMap(attendances, e.id, start, end);
      PayslipPageUsesStoredAttendance(attendances, e.id, year, month);
      var ws := Workdays(MonthDays(year, month));
      forall d | d in ws ensures MapGet(m, d, false) == MapGet(presence, d, false) {
        InMonthDays(year, month, d);
      }
      CountPresentAgree(ws, m, presence);
    }
  }

  // ---------------------------------------------------------------------
  // The amounts.

  /** Ratio and percentage agree, and both lie in [0, 1] and [0, 100]. */
  lemma RatioBounds(daysPresent: nat, totalWorkdays: nat)
    requires daysPresent <= totalWorkdays
    ensures AttendancePercentage(daysPresent, totalWorkdays) == AttendanceRatio(daysPresent, totalWorkdays) * 100.0
    ensures 0.0 <= AttendanceRatio(daysPresent, totalWorkdays) <= 1.0
    ensures 0.0 <= AttendancePercentage(daysPresent, totalWorkdays) <= 100.0
  {
    if totalWorkdays > 0 {
      assert daysPresent as real <= totalWorkdays as real;
    }
  }

  /** With no workdays nothing is divided: ratio, percentage and every pro-rated amount are zero. */
  lemma ZeroWorkdays(basicSalary: real, daysPresent: nat, isPastMonth: bool)
    ensures var p := ComputePay(basicSalary, daysPresent, 0, isPastMonth);
      AttendanceRatio(daysPresent, 0) == 0.0 && p.attendancePercentage == 0.0 &&
      p.basicPay == 0.0 && p.hra == 0.0 && p.da == 0.0 && p.bonus == 0.0
  {
  }

  /** Basic pay is the salary pro-rated by attendance; HRA and DA are 20% and 10% of it. */
  lemma ProRatedPay(basicSalary: real, daysPresent: nat, totalWorkdays: nat, isPastMonth: bool)
    requires 0.0 <= basicSalary && daysPresent <= totalWorkdays
    ensures var p := ComputePay(basicSalary, daysPresent, totalWorkdays, isPastMonth);
      0.0 <= p.basicPay <= basicSalary &&
      p.hra == p.basicPay / 5.0 && p.da == p.basicPay / 10.0 &&
      (daysPresent == totalWorkdays && totalWorkdays > 0 ==> p.basicPay == basicSalary)
    ensures var p := ComputePay(basicSalary, daysPresent, totalWorkdays, isPastMonth);
      (totalWorkdays > 0 ==> p.basicPay * totalWorkdays as real == basicSalary * daysPresent as real) &&
      (totalWorkdays == 0 ==> p.basicPay == 0.0)
  {
    BasicPayBounds(basicSalary, daysPresent, totalWorkdays);
    BasicPayScales(basicSalary, daysPresent, totalWorkdays);
    BasicPayFields(basicSalary, daysPresent, totalWorkdays, isPastMonth);
  }

  /** The payslip's basic pay, HRA and DA are the pro-rated pay and its two fixed shares. */
  lemma BasicPayFields(basicSalary: real, daysPresent: nat, totalWorkdays: nat, isPastMonth: bool)
    ensures var p := ComputePay(basicSalary, daysPresent, totalWorkdays, isPastMonth);
      p.basicPay == BasicPay(basicSalary, daysPresent, totalWorkdays) &&
      p.hra == p.basicPay / 5.0 && p.da == p.basicPay / 10.0
  {
  }

  /** The pro-rated pay lies between 0 and the salary, and is the whole salary at full attendance. */
  lemma BasicPayBounds(basicSalary: real, daysPresent: nat, totalWorkdays: nat)
    requires 0.0 <= basicSalary && daysPresent <= totalWorkdays
    ensures 0.0 <= BasicPay(basicSalary, daysPresent, totalWorkdays) <= basicSalary
    ensures daysPresent == totalWorkdays && totalWorkdays > 0 ==> BasicPay(basicSalary, daysPresent, totalWorkdays) == basicSalary
  {
    var r := AttendanceRatio(daysPresent, totalWorkdays);
    RatioBounds(daysPresent, totalWorkdays);
    ScaleBounds(basicSalary, r);
    if daysPresent == totalWorkdays && totalWorkdays > 0 {
      SelfRatio(totalWorkdays);
      assert r == 1.0;
    }
  }

  /** Basic pay times the workdays is the salary times the days present: salary * days / workdays. */
  lemma BasicPayScales(basicSalary: real, daysPresent: nat, totalWorkdays: nat)
    ensures totalWorkdays > 0 ==>
      BasicPay(basicSalary, daysPresent, totalWorkdays) * totalWorkdays as real == basicSalary * daysPresent as real
    ensures totalWorkdays == 0 ==> BasicPay(basicSalary, daysPresent, totalWorkdays) == 0.0
  {
    if totalWorkdays > 0 {
      var r, t := AttendanceRatio(daysPresent, totalWorkdays), totalWorkdays as real;
      assert r * t == daysPresent as real;
      assert (basicSalary * r) * t == basicSalary * (r * t);
    }
  }

  lemma ScaleBounds(a: real, r: real)
    requires 0.0 <= a && 0.0 <= r <= 1.0
    ensures 0.0 <= a * r <= a
  {
    assert a * r + a * (1.0 - r) == a;
    assert a * (1.0 - r) >= 0.0;
  }

  lemma SelfRatio(n: nat)
    requires n > 0
    ensures AttendanceRatio(n, n) == 1.0 && AttendancePercentage(n, n) == 100.0
  {
    assert n as real / n as real == 1.0;
  }

  /**
   * The bonus is 5% of the full (not pro-rated) salary and is paid exactly
   * when at least 95% of the workdays are present: 19 of every 20.
   */
  lemma BonusThresholdDays(basicSalary: real, daysPresent: nat, totalWorkdays: nat, isPastMonth: bool)
    requires totalWorkdays > 0
    ensures var p := ComputePay(basicSalary, daysPresent, totalWorkdays, isPastMonth);
      (20 * daysPresent >= 19 * totalWorkdays ==> p.bonus == BonusRate * basicSalary) &&
      (20 * daysPresent < 19 * totalWorkdays ==> p.bonus == 0.0)
  {
    BonusCondition(daysPresent, totalWorkdays);
  }

  /** At least 95% present means at least 19 present days for every 20 workdays. */
  lemma BonusCondition(daysPresent: nat, totalWorkdays: nat)
    requires totalWorkdays > 0
    ensures AttendancePercentage(daysPresent, totalWorkdays) >= BonusThreshold <==>
      20 * daysPresent >= 19 * totalWorkdays
  {
    var n, t := daysPresent as real, totalWorkdays as real;
    RatioAtLeast(n, t, 0.95);
    assert AttendancePercentage(daysPresent, totalWorkdays) == (n / t) * 100.0;
  }

  /** A quotient by a positive number is at least c exactly when the dividend is at least c times the divisor. */
  lemma RatioAtLeast(n: real, t: real, c: real)
    requires t > 0.0
    ensures n / t >= c <==> n >= c * t
  {
    var r := n / t;
    assert r * t == n;
    ScaleCompare(r, c, t);
  }

  /** Multiplying both sides by a positive number keeps an inequality. */
  lemma ScaleCompare(a: real, b: real, t: real)
    requires t > 0.0
    ensures a >= b <==> a * t >= b * t
  {
    assert a * t - b * t == (a - b) * t;
    if a >= b {
      assert (a - b) * t >= 0.0;
    } else {
      assert (a - b) * t < 0.0;
    }
  }

  /** Full attendance gives 100% and the bonus. */
  lemma FullAttendanceBonus(basicSalary: real, totalWorkdays: nat, isPastMonth: bool)
    requires totalWorkdays > 0
    ensures var p := ComputePay(basicSalary, totalWorkdays, totalWorkdays, isPastMonth);
      p.attendancePercentage == 100.0 && p.bonus == BonusRate * basicSalary && p.penalty == 0.0
  {
    SelfRatio(totalWorkdays);
  }

  /**
   * The penalty applies only to a completed month below 75% attendance; it
   * then takes 30% of the gross, leaving 70%. Otherwise gross is untouched.
   */
  lemma PenaltyRule(basicSalary: real, daysPresent: nat, totalWorkdays: nat, isPastMonth: bool)
    ensures var p := ComputePay(basicSalary, daysPresent, totalWorkdays, isPastMonth);
      (p.penalty != 0.0 ==> isPastMonth && p.attendancePercentage < PenaltyThreshold) &&
      (isPastMonth && p.attendancePercentage < PenaltyThreshold ==>
         p.penalty == PenaltyRate * p.grossBeforePenalty && p.grossSalary == 0.7 * p.grossBeforePenalty) &&
      (!(isPastMonth && p.attendancePercentage < PenaltyThreshold) ==>
         p.penalty == 0.0 && p.grossSalary == p.grossBeforePenalty) &&
      p.grossBeforePenalty == p.basicPay + p.hra + p.da + p.bonus
  {
  }

  /**
   * The payslip reports the inputs' counts and their percentage, and for a
   * month with workdays the penalty applies exactly to a completed month with
   * fewer than 3 of every 4 workdays present.
   */
  lemma PenaltyThresholdDays(basicSalary: real, daysPresent: nat, totalWorkdays: nat, isPastMonth: bool)
    ensures var p := ComputePay(basicSalary, daysPresent, totalWorkdays, isPastMonth);
      p.daysPresent == daysPresent && p.totalWorkdays == totalWorkdays &&
      p.attendancePercentage == AttendancePercentage(daysPresent, totalWorkdays)
    ensures totalWorkdays > 0 ==>
      var p := ComputePay(basicSalary, daysPresent, totalWorkdays, isPastMonth);
      (isPastMonth && 4 * daysPresent < 3 * totalWorkdays ==> p.penalty == PenaltyRate * p.grossBeforePenalty) &&
      (!(isPastMonth && 4 * daysPresent < 3 * totalWorkdays) ==> p.penalty == 0.0)
  {
    if totalWorkdays > 0 {
      PenaltyCondition(daysPresent, totalWorkdays);
    }
  }

  /** Under 75% present means fewer than 3 present days for every 4 workdays. */
  lemma PenaltyCondition(daysPresent: nat, totalWorkdays: nat)
    requires totalWorkdays > 0
    ensures AttendancePercentage(daysPresent, totalWorkdays) < PenaltyThreshold <==>
      4 * daysPresent < 3 * totalWorkdays
  {
    var n, t := daysPresent as real, totalWorkdays as real;
    RatioAtLeast(n, t, 0.75);
    assert AttendancePercentage(daysPresent, totalWorkdays) == (n / t) * 100.0;
  }

  /** A current or future month is never penalised, even with no attendance at all. */
  lemma NoPenaltyForOpenMonth(basicSalary: real, presence: map<Date, bool>, year: int, month: int, today: Date)
    requires !IsPastMonth(year, month, today)
    requires ComputePayslip(basicSalary, presence, year, month, today).Ok?
    ensures ComputePayslip(basicSalary, presence, year, month, today).value.penalty == 0.0
  {
  }

  /** "Past month" is the strict order of months counted from year 0. */
  lemma PastMonthIsEarlier(year: int, month: int, today: Date)
    requires 1 <= month <= 12 && 1 <= today.month <= 12
    ensures IsPastMonth(year, month, today) <==> year * 12 + month < today.year * 12 + today.month
  {
    if year < today.year {
      assert year * 12 + 12 <= today.year * 12;
    } else if year > today.year {
      assert today.year * 12 + 12 <= year * 12;
    }
  }

  /** The bracket boundaries are inclusive, and the rate applies to the whole gross amount. */
  lemma TaxBrackets(gross: real)
    ensures gross <= TaxFreeLimit ==> Tax(gross) == 0.0
    ensures TaxFreeLimit < gross <= MidBracketLimit ==> Tax(gross) == gross / 20.0
    ensures MidBracketLimit < gross ==> Tax(gross) == gross / 10.0
    ensures 0.0 <= gross ==> 0.0 <= Tax(gross) <= gross / 10.0
    ensures Tax(15000.0) == 0.0 && Tax(15000.01) == 750.0005
    ensures Tax(30000.0) == 1500.0 && Tax(30000.01) == 3000.001
  {
  }

  /**
   * Tax and penalty never raise pay: for a non-negative salary the net lies
   * between 90% of the final gross and the final gross, which is at most the
   * gross before the penalty.
   */
  lemma NetBounds(basicSalary: real, daysPresent: nat, totalWorkdays: nat, isPastMonth: bool)
    requires 0.0 <= basicSalary && daysPresent <= totalWorkdays
    ensures var p := ComputePay(basicSalary, daysPresent, totalWorkdays, isPastMonth);
      0.0 <= p.grossSalary <= p.grossBeforePenalty &&
      p.tax == Tax(p.grossSalary) &&
      p.netSalary == p.grossSalary - p.tax &&
      0.9 * p.grossSalary <= p.netSalary <= p.grossSalary
  {
    ProRatedPay(basicSalary, daysPresent, totalWorkdays, isPastMonth);
  }

  /**
   * Because one rate taxes the whole amount, crossing a bracket limit lowers
   * the net: a gross of 30000 nets 28500, a gross of 30000.01 nets 27000.009.
   */
  lemma NetDropsAtBracket()
    ensures 30000.0 - Tax(30000.0) > 30000.01 - Tax(30000.01)
    ensures 15000.0 - Tax(15000.0) > 15000.01 - Tax(15000.01)
  {
  }

  /** Salary 30000, 27 of 27 workdays, completed month: 40500 gross, 4050 tax, 36450 net. */
  lemma FullMonthScenario(presence: map<Date, bool>, today: Date)
    requires forall d :: d in Workdays(MonthDays(2024, 1)) ==> d in presence && presence[d]
    requires IsPastMonth(2024, 1, today)
    ensures ComputePayslip(30000.0, presence, 2024, 1, today) ==
      Ok(Payslip(27, 27, 100.0, 30000.0, 6000.0, 3000.0, 1500.0, 40500.0, 0.0, 40500.0, 4050.0, 36450.0))
  {
    assert MonthRange(2024, 1).Ok?;
    FullAttendancePayslip(30000.0, presence, 2024, 1, today);
    January2024Workdays();
    FullPayFigures();
  }

  /** With every workday of a valid month marked present, the payslip is computed from n present days of n. */
  lemma FullAttendancePayslip(basicSalary: real, presence: map<Date, bool>, year: int, month: int, today: Date)
    requires MonthRange(year, month).Ok?
    requires forall d :: d in Workdays(MonthDays(year, month)) ==> d in presence && presence[d]
    ensures ComputePayslip(basicSalary, presence, year, month, today) ==
      Ok(ComputePay(basicSalary, |Workdays(MonthDays(year, month))|, |Workdays(MonthDays(year, month))|,
                    IsPastMonth(year, month, today)))
  {
    CountPresentAll(Workdays(MonthDays(year, month)), presence);
    PayslipOfCounts(basicSalary, presence, year, month, today);
  }

  /** A payslip for a valid month is the pay computed from that month's two counts. */
  lemma PayslipOfCounts(basicSalary: real, presence: map<Date, bool>, year: int, month: int, today: Date)
    requires MonthRange(year, month).Ok?
    ensures 1 <= month <= 12
    ensures ComputePayslip(basicSalary, presence, year, month, today) ==
      Ok(ComputePay(basicSalary, CountPresent(Workdays(MonthDays(year, month)), presence),
                    |Workdays(MonthDays(year, month))|, IsPastMonth(year, month, today)))
  {
  }

  /** The amounts of a full month at salary 30000, once the counts are 27 of 27. */
  lemma FullPayFigures()
    ensures ComputePay(30000.0, 27, 27, true) ==
      Payslip(27, 27, 100.0, 30000.0, 6000.0, 3000.0, 1500.0, 40500.0, 0.0, 40500.0, 4050.0, 36450.0)
  {
  }

  /**
   * Salary 30000, 15 of 27 workdays in a completed month: 21666.67 before the
   * penalty, a 6500 penalty, 15166.67 gross, 5% tax, 14408.33 net (exactly
   * 65000/3, 45500/3 and 43225/3). Over 26 workdays the same 15 days give
   * 22500 before the penalty, 6750 penalty, 15750 gross, 787.50 tax, 14962.50 net.
   */
  lemma PoorAttendanceScenario()
    ensures ComputePay(30000.0, 15, 27, true) ==
      Payslip(27, 15, 1500.0 / 27.0, 50000.0 / 3.0, 10000.0 / 3.0, 5000.0 / 3.0, 0.0,
              65000.0 / 3.0, 6500.0, 45500.0 / 3.0, 2275.0 / 3.0, 43225.0 / 3.0)
    ensures ComputePay(30000.0, 15, 26, true) ==
      Payslip(26, 15, 750.0 / 13.0, 225000.0 / 13.0, 45000.0 / 13.0, 22500.0 / 13.0, 0.0,
              22500.0, 6750.0, 15750.0, 787.5, 14962.5)
  {
  }
}
