/**
 * The proleptic Gregorian calendar as Python's `datetime.date` and the
 * `calendar` module see it: month lengths, the day ordinal (`toordinal`),
 * the weekday (Monday = 0 ... Sunday = 6), the days of a month, and the
 * Sunday-first month grid that `calendar.Calendar(firstweekday=6)` yields.
 */
module Calendar {

  datatype Date = Date(year: int, month: int, day: int)

  /** Python's `datetime.MINYEAR` and `datetime.MAXYEAR`. */
  const MinYear: int := 1
  const MaxYear: int := 9999

  /** Weekday index of Sunday under Python's `date.weekday()`. */
  const Sunday: int := 6

  predicate IsLeapYear(y: int) {
    y % 4 == 0 && (y % 100 != 0 || y % 400 == 0)
  }

  function DaysInYear(y: int): int {
    if IsLeapYear(y) then 366 else 365
  }

  function DaysInMonth(y: int, m: int): (n: int)
    requires 1 <= m <= 12
    ensures 28 <= n <= 31
    ensures m == 2 ==> (n == 29 <==> IsLeapYear(y))
  {
    if m == 2 then (if IsLeapYear(y) then 29 else 28)
    else if m == 4 || m == 6 || m == 9 || m == 11 then 30
    else 31
  }

  predicate ValidDate(d: Date) {
    1 <= d.month <= 12 && 1 <= d.day <= DaysInMonth(d.year, d.month)
  }

  /** Days in the years before `y` (zero for year 1). */
  function DaysBeforeYear(y: int): int {
    var p := y - 1;
    p * 365 + p / 4 - p / 100 + p / 400
  }

  /** Days in the months of year `y` before month `m`; month 13 stands for the next year. */
  function DaysBeforeMonth(y: int, m: int): int
    requires 1 <= m <= 13
    decreases m
  {
    if m == 1 then 0 else DaysBeforeMonth(y, m - 1) + DaysInMonth(y, m - 1)
  }

  /** `date.toordinal()`: 1 January of year 1 is day 1. */
  function Ordinal(d: Date): int
    requires 1 <= d.month <= 12
  {
    DaysBeforeYear(d.year) + DaysBeforeMonth(d.year, d.month) + d.day
  }

  /** `date.weekday()`: Monday is 0 and Sunday is 6. */
  function Weekday(d: Date): (w: int)
    requires 1 <= d.month <= 12
    ensures 0 <= w < 7
  {
    (Ordinal(d) + 6) % 7
  }

  function FirstOfMonth(y: int, m: int): Date {
    Date(y, m, 1)
  }

  function LastOfMonth(y: int, m: int): Date
    requires 1 <= m <= 12
  {
    Date(y, m, DaysInMonth(y, m))
  }

  /** The first day of the month after (y, m); December wraps to January of the next year. */
  function FirstOfNextMonth(y: int, m: int): Date {
    if m == 12 then Date(y + 1, 1, 1) else Date(y, m + 1, 1)
  }

  /** `d + timedelta(days=1)`. */
  function NextDay(d: Date): Date
    requires ValidDate(d)
  {
    if d.day < DaysInMonth(d.year, d.month) then Date(d.year, d.month, d.day + 1)
    else FirstOfNextMonth(d.year, d.month)
  }

  /** `d - timedelta(days=1)`. */
  function PrevDay(d: Date): Date
    requires ValidDate(d)
  {
    if d.day > 1 then Date(d.year, d.month, d.day - 1)
    else if d.month > 1 then LastOfMonth(d.year, d.month - 1)
    else Date(d.year - 1, 12, 31)
  }

  /** Every day of month (y, m), in calendar order. */
  function MonthDays(y: int, m: int): seq<Date>
    requires 1 <= m <= 12
  {
    seq(DaysInMonth(y, m), i => Date(y, m, i + 1))
  }

  /** A run of valid dates each of which is the day after the one before it. */
  predicate Consecutive(s: seq<Date>) {
    (forall i :: 0 <= i < |s| ==> ValidDate(s[i])) &&
    (forall i :: 0 <= i < |s| - 1 ==> s[i + 1] == NextDay(s[i]))
  }

  // ---------------------------------------------------------------------
  // Ordinals and weekdays advance by one per day.

  lemma DivStep(y: int)
    ensures y / 4 == (y - 1) / 4 + (if y % 4 == 0 then 1 else 0)
    ensures y / 100 == (y - 1) / 100 + (if y % 100 == 0 then 1 else 0)
    ensures y / 400 == (y - 1) / 400 + (if y % 400 == 0 then 1 else 0)
  {
  }

  /** A multiple of 400 is a multiple of 100, and a multiple of 100 is a multiple of 4. */
  lemma DivisorChain(y: int)
    ensures y % 400 == 0 ==> y % 100 == 0
    ensures y % 100 == 0 ==> y % 4 == 0
  {
    if y % 400 == 0 {
      var k := y / 400;
      assert y == 400 * k;
      MultipleOf100(4 * k);
    }
    if y % 100 == 0 {
      var k := y / 100;
      assert y == 100 * k;
      MultipleOf4(25 * k);
    }
  }

  lemma MultipleOf100(j: int)
    ensures (100 * j) % 100 == 0
  {
  }

  lemma MultipleOf4(j: int)
    ensures (4 * j) % 4 == 0
  {
  }

  lemma DaysBeforeNextYear(y: int)
    ensures DaysBeforeYear(y + 1) == DaysBeforeYear(y) + DaysInYear(y)
  {
    var p := y - 1;
    assert DaysBeforeYear(y) == p * 365 + p / 4 - p / 100 + p / 400;
    assert DaysBeforeYear(y + 1) == y * 365 + y / 4 - y / 100 + y / 400;
    DivStep(y);
    DivisorChain(y);
  }

  lemma DaysBeforeYearEnd(y: int)
    ensures DaysBeforeMonth(y, 12) + 31 == DaysInYear(y)
  {
    assert DaysBeforeMonth(y, 12) == 334 + DaysInMonth(y, 2) - 28;
  }

  /** The day after a valid date is valid and has the next ordinal. */
  lemma OrdinalNextDay(d: Date)
    requires ValidDate(d)
    ensures ValidDate(NextDay(d))
    ensures Ordinal(NextDay(d)) == Ordinal(d) + 1
  {
    if d.day == DaysInMonth(d.year, d.month) && d.month == 12 {
      DaysBeforeNextYear(d.year);
      DaysBeforeYearEnd(d.year);
    }
  }

  lemma WeekdayNextDay(d: Date)
    requires ValidDate(d)
    ensures ValidDate(NextDay(d))
    ensures Weekday(NextDay(d)) == (Weekday(d) + 1) % 7
  {
    OrdinalNextDay(d);
    ModSevenShift(Ordinal(d) + 6, 1);
  }

  /** In a run of consecutive days the ordinal grows by one per position. */
  lemma {:induction false} ConsecutiveOrdinals(s: seq<Date>, i: int)
    requires Consecutive(s)
    requires 0 <= i < |s|
    ensures Ordinal(s[i]) == Ordinal(s[0]) + i
  {
    if i > 0 {
      ConsecutiveOrdinals(s, i - 1);
      OrdinalNextDay(s[i - 1]);
    }
  }

  /** In a run of consecutive days the weekday advances by one per position. */
  lemma ConsecutiveWeekdays(s: seq<Date>, i: int, j: int)
    requires Consecutive(s)
    requires 0 <= i < |s| && 0 <= j < |s|
    ensures Weekday(s[i]) == (Weekday(s[j]) + i - j) % 7
  {
    ConsecutiveOrdinals(s, i);
    ConsecutiveOrdinals(s, j);
    ModSevenShift(Ordinal(s[j]) + 6, i - j);
  }

  lemma ModSevenShift(a: int, k: int)
    ensures (a + k) % 7 == (a % 7 + k) % 7
  {
    var q := a / 7;
    assert a == 7 * q + a % 7;
  }

  // ---------------------------------------------------------------------
  // The days of a month.

  /**
   * The month runs from day 1 to the day before the first of the next month,
   * day by day: the dates `start + timedelta(days=i)` for
   * `i in range((end - start).days + 1)`.
   */
  lemma MonthDaysSpanMonth(y: int, m: int)
    requires 1 <= m <= 12
    ensures ValidDate(FirstOfNextMonth(y, m))
    ensures PrevDay(FirstOfNextMonth(y, m)) == LastOfMonth(y, m)
    ensures Consecutive(MonthDays(y, m))
    ensures MonthDays(y, m)[0] == FirstOfMonth(y, m)
    ensures MonthDays(y, m)[|MonthDays(y, m)| - 1] == LastOfMonth(y, m)
    ensures |MonthDays(y, m)| == Ordinal(LastOfMonth(y, m)) - Ordinal(FirstOfMonth(y, m)) + 1
  {
  }

  /** A date belongs to MonthDays(y, m) exactly when it is a valid date of that month. */
  lemma InMonthDays(y: int, m: int, d: Date)
    requires 1 <= m <= 12
    ensures d in MonthDays(y, m) <==> ValidDate(d) && d.year == y && d.month == m
  {
    if ValidDate(d) && d.year == y && d.month == m {
      assert MonthDays(y, m)[d.day - 1] == d;
    }
  }

  // ---------------------------------------------------------------------
  // The Sunday-first month grid of calendar.Calendar(firstweekday=6).

  function PrevMonthYear(y: int, m: int): (int, int) {
    if m == 1 then (y - 1, 12) else (y, m - 1)
  }

  function NextMonthYear(y: int, m: int): (int, int) {
    if m == 12 then (y + 1, 1) else (y, m + 1)
  }

  /** Days of the previous month shown before day 1 (the week starts on Sunday). */
  function LeadDays(y: int, m: int): int
    requires 1 <= m <= 12
  {
    (Weekday(FirstOfMonth(y, m)) - Sunday) % 7
  }

  /** Days of the next month shown after the last day, to complete the week. */
  function TrailDays(y: int, m: int): int
    requires 1 <= m <= 12
  {
    (Sunday - Weekday(FirstOfMonth(y, m)) - DaysInMonth(y, m)) % 7
  }

  /** `itermonthdates(y, m)`: whole weeks, Sunday to Saturday, covering month (y, m). */
  function MonthGrid(y: int, m: int): seq<Date>
    requires 1 <= m <= 12
  {
    var lead := LeadDays(y, m);
    var (py, pm) := PrevMonthYear(y, m);
    var (ny, nm) := NextMonthYear(y, m);
    var end := DaysInMonth(py, pm) + 1;
    seq(lead, k => Date(py, pm, end - lead + k))
    + MonthDays(y, m)
    + seq(TrailDays(y, m), k => Date(ny, nm, k + 1))
  }

  lemma {:induction false} MonthGridConsecutive(y: int, m: int)
    requires 1 <= m <= 12
    ensures Consecutive(MonthGrid(y, m))
  {
    var g := MonthGrid(y, m);
    var lead, n := LeadDays(y, m), DaysInMonth(y, m);
    var (py, pm) := PrevMonthYear(y, m);
    assert |g| == lead + n + TrailDays(y, m);
    forall i | 0 <= i < |g|
      ensures ValidDate(g[i])
    {
      if i < lead {
        assert g[i] == Date(py, pm, DaysInMonth(py, pm) + 1 - lead + i);
      } else if i < lead + n {
        assert g[i] == Date(y, m, i - lead + 1);
      }
    }
    forall i | 0 <= i < |g| - 1
      ensures g[i + 1] == NextDay(g[i])
    {
      if i < lead - 1 {
        assert g[i] == Date(py, pm, DaysInMonth(py, pm) + 1 - lead + i);
      } else if i == lead - 1 {
        assert g[i] == Date(py, pm, DaysInMonth(py, pm));
        assert g[i + 1] == Date(y, m, 1);
      } else if i < lead + n - 1 {
        assert g[i] == Date(y, m, i - lead + 1);
      } else if i == lead + n - 1 {
        assert g[i] == Date(y, m, n);
      }
    }
  }

  /**
   * The grid is made of whole weeks, reaches back and forward by less than a
   * week, and holds the month's days at positions LeadDays .. LeadDays + n - 1;
   * every other cell belongs to a neighbouring month.
   */
  lemma MonthGridShape(y: int, m: int)
    requires 1 <= m <= 12
    ensures 0 <= LeadDays(y, m) <= 6 && 0 <= TrailDays(y, m) <= 6
    ensures |MonthGrid(y, m)| == LeadDays(y, m) + DaysInMonth(y, m) + TrailDays(y, m)
    ensures |MonthGrid(y, m)| % 7 == 0
    ensures forall i :: 0 <= i < |MonthGrid(y, m)| ==>
      (MonthGrid(y, m)[i].month == m <==> LeadDays(y, m) <= i < LeadDays(y, m) + DaysInMonth(y, m))
    ensures forall i :: LeadDays(y, m) <= i < LeadDays(y, m) + DaysInMonth(y, m) ==>
      MonthGrid(y, m)[i] == Date(y, m, i - LeadDays(y, m) + 1)
  {
    MonthGridSize(y, m);
    var g := MonthGrid(y, m);
    var lead, n := LeadDays(y, m), DaysInMonth(y, m);
    var (py, pm) := PrevMonthYear(y, m);
    var (ny, nm) := NextMonthYear(y, m);
    forall i | 0 <= i < |g|
      ensures g[i].month == m <==> lead <= i < lead + n
    {
      if i < lead {
        assert g[i] == Date(py, pm, DaysInMonth(py, pm) + 1 - lead + i);
      } else if i < lead + n {
        assert g[i] == Date(y, m, i - lead + 1);
      } else {
        assert g[i] == Date(ny, nm, i - lead - n + 1);
      }
    }
  }

  /** The lead and the trail are under a week and together with the month make whole weeks. */
  lemma MonthGridSize(y: int, m: int)
    requires 1 <= m <= 12
    ensures 0 <= LeadDays(y, m) <= 6 && 0 <= TrailDays(y, m) <= 6
    ensures |MonthGrid(y, m)| == LeadDays(y, m) + DaysInMonth(y, m) + TrailDays(y, m)
    ensures (LeadDays(y, m) + DaysInMonth(y, m) + TrailDays(y, m)) % 7 == 0
  {
    var lead, n, w := LeadDays(y, m), DaysInMonth(y, m), Weekday(FirstOfMonth(y, m));
    var t := TrailDays(y, m);
    var a, b := (w - Sunday) / 7, (Sunday - w - n) / 7;
    assert w - Sunday == 7 * a + lead;
    assert Sunday - w - n == 7 * b + t;
    ModSevenUnique(lead + n + t, -(a + b), 0);
  }

  /**
   * Cell i of the grid sits under day-name header i mod 7 of
   * Sun, Mon, ..., Sat: column 0 holds exactly the Sundays.
   */
  lemma MonthGridColumns(y: int, m: int)
    requires 1 <= m <= 12
    ensures forall i :: 0 <= i < |MonthGrid(y, m)| ==>
      i % 7 == (Weekday(MonthGrid(y, m)[i]) + 1) % 7
    ensures forall i :: 0 <= i < |MonthGrid(y, m)| ==>
      (Weekday(MonthGrid(y, m)[i]) == Sunday <==> i % 7 == 0)
  {
    var g := MonthGrid(y, m);
    var lead := LeadDays(y, m);
    MonthGridShape(y, m);
    MonthGridConsecutive(y, m);
    assert g[lead] == FirstOfMonth(y, m);
    forall i | 0 <= i < |g|
      ensures i % 7 == (Weekday(g[i]) + 1) % 7
      ensures Weekday(g[i]) == Sunday <==> i % 7 == 0
    {
      ColumnAt(g, lead, Weekday(FirstOfMonth(y, m)), i);
    }
  }

  /** One grid position: in a run whose position `lead` is the 1st of the month, position i sits in column i mod 7. */
  lemma ColumnAt(g: seq<Date>, lead: int, w: int, i: int)
    requires Consecutive(g) && 0 <= lead < |g| && 0 <= i < |g|
    requires w == Weekday(g[lead]) && lead == (w + 1) % 7
    ensures i % 7 == (Weekday(g[i]) + 1) % 7
    ensures Weekday(g[i]) == Sunday <==> i % 7 == 0
  {
    ConsecutiveWeekdays(g, i, lead);
    ColumnOfWeekday(w, i, lead, Weekday(g[i]));
  }

  /** The arithmetic behind the columns: shifting by the lead of (w + 1) mod 7 turns weekdays into columns. */
  lemma ColumnOfWeekday(w: int, i: int, lead: int, wi: int)
    requires 0 <= w < 7 && 0 <= i && lead == (w + 1) % 7 && wi == (w + i - lead) % 7
    ensures i % 7 == (wi + 1) % 7
    ensures wi == Sunday <==> i % 7 == 0
  {
    var q, c := i / 7, i % 7;
    assert i == 7 * q + c;
    var x := w + i - lead;
    if w < 6 {
      assert lead == w + 1;
      assert x == i - 1;
      if c == 0 { ModSevenUnique(x, q - 1, 6); } else { ModSevenUnique(x, q, c - 1); }
    } else {
      assert lead == 0;
      assert x == i + 6;
      if c == 0 { ModSevenUnique(x, q, 6); } else { ModSevenUnique(x, q + 1, c - 1); }
    }
  }

  lemma ModSevenUnique(a: int, q: int, r: int)
    requires a == 7 * q + r && 0 <= r < 7
    ensures a % 7 == r
  {
  }

  /** Dropping the first day of a run leaves a run, whose first weekday is the next one. */
  lemma ConsecutiveTail(s: seq<Date>)
    requires Consecutive(s) && |s| >= 2
    ensures Consecutive(s[1..])
    ensures s[1..][0] == NextDay(s[0])
    ensures Weekday(s[1]) == (Weekday(s[0]) + 1) % 7
  {
    var t := s[1..];
    assert forall i :: 0 <= i < |t| ==> t[i] == s[i + 1];
    WeekdayNextDay(s[0]);
  }
}
