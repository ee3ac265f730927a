/** The proleptic Gregorian calendar, as gmtime_r is specified to apply it. */
module Calendar {

  predicate IsLeap(y: int) {
    (y % 4 == 0 && y % 100 != 0) || y % 400 == 0
  }

  function YearLength(y: int): nat {
    if IsLeap(y) then 366 else 365
  }

  function MonthLength(y: int, m: int): nat
    requires 1 <= m <= 12
  {
    if m == 2 then (if IsLeap(y) then 29 else 28)
    else if m == 4 || m == 6 || m == 9 || m == 11 then 30
    else 31
  }

  datatype Date = Date(year: int, month: int, day: int)

  predicate ValidDate(d: Date) {
    1 <= d.month <= 12 && 1 <= d.day <= MonthLength(d.year, d.month)
  }

  // ---- Reference: the number of a day, counted from 1970-01-01, in closed form

  function LeapsBefore(y: int): int {
    (y - 1) / 4 - (y - 1) / 100 + (y - 1) / 400
  }

  function DaysBeforeYear(y: int): int {
    365 * (y - 1970) + LeapsBefore(y) - LeapsBefore(1970)
  }

  function DaysBeforeMonth(y: int, m: int): nat
    requires 1 <= m <= 13
    decreases m
  {
    if m == 1 then 0 else DaysBeforeMonth(y, m - 1) + MonthLength(y, m - 1)
  }

  function DayNumber(d: Date): int
    requires ValidDate(d)
  {
    DaysBeforeYear(d.year) + DaysBeforeMonth(d.year, d.month) + d.day - 1
  }

  // ---- The conversion: walk years, then months

  /** The year holding the day that is offset days after the first of year y, and the rest. */
  function WalkYears(y: int, offset: int): (int, nat)
    decreases offset < 0, if offset < 0 then -offset else offset
  {
    if offset < 0 then WalkYears(y - 1, offset + YearLength(y - 1))
    else if offset < YearLength(y) then (y, offset)
    else WalkYears(y + 1, offset - YearLength(y))
  }

  function WalkMonths(y: int, m: int, offset: nat): (int, nat)
    requires 1 <= m <= 12
    decreases 12 - m
  {
    if offset < MonthLength(y, m) || m == 12 then (m, offset)
    else WalkMonths(y, m + 1, offset - MonthLength(y, m))
  }

  function DateOf(days: int): Date {
    var (year, dayOfYear) := WalkYears(1970, days);
    var (month, dayOfMonth) := WalkMonths(year, 1, dayOfYear);
    Date(year, month, dayOfMonth + 1)
  }

  lemma LeapsStep(y: int)
    ensures LeapsBefore(y + 1) == LeapsBefore(y) + if IsLeap(y) then 1 else 0
  {
    hide IsLeap;
    FloorStep(y, 4);
    FloorStep(y, 100);
    FloorStep(y, 400);
    LeapRule(y);
  }

  /** Every fourth year, less every hundredth, plus every four-hundredth. */
  lemma LeapRule(y: int)
    ensures (if IsLeap(y) then 1 else 0) ==
      (if y % 4 == 0 then 1 else 0) - (if y % 100 == 0 then 1 else 0) + (if y % 400 == 0 then 1 else 0)
  {
    if y % 400 == 0 { HundredthsRepeat(y, y / 400); }
    if y % 100 == 0 { FourthsRepeat(y, y / 100); }
  }

  lemma HundredthsRepeat(y: int, q: int)
    requires y == 400 * q
    ensures y % 100 == 0
  {
  }

  lemma FourthsRepeat(y: int, q: int)
    requires y == 100 * q
    ensures y % 4 == 0
  {
  }

  lemma FloorStep(y: int, k: int)
    requires k == 4 || k == 100 || k == 400
    ensures y / k == (y - 1) / k + if y % k == 0 then 1 else 0
  {
  }

  lemma YearStep(y: int)
    ensures DaysBeforeYear(y + 1) == DaysBeforeYear(y) + YearLength(y)
  {
    LeapsStep(y);
  }

  lemma {:induction false} YearsWalked(y: int, offset: int)
    ensures var (year, rest) := WalkYears(y, offset);
      0 <= rest < YearLength(year) && DaysBeforeYear(year) + rest == DaysBeforeYear(y) + offset
    decreases offset < 0, if offset < 0 then -offset else offset
  {
    if offset < 0 {
      YearStep(y - 1);
      YearsWalked(y - 1, offset + YearLength(y - 1));
    } else if offset >= YearLength(y) {
      YearStep(y);
      YearsWalked(y + 1, offset - YearLength(y));
    }
  }

  lemma MonthsMakeYear(y: int)
    ensures DaysBeforeMonth(y, 13) == YearLength(y)
  {
    assert DaysBeforeMonth(y, 3) == 31 + MonthLength(y, 2);
    assert DaysBeforeMonth(y, 5) == DaysBeforeMonth(y, 3) + 61;
    assert DaysBeforeMonth(y, 7) == DaysBeforeMonth(y, 5) + 61;
    assert DaysBeforeMonth(y, 9) == DaysBeforeMonth(y, 7) + 62;
    assert DaysBeforeMonth(y, 11) == DaysBeforeMonth(y, 9) + 61;
    assert DaysBeforeMonth(y, 13) == DaysBeforeMonth(y, 11) + 61;
  }

  lemma MonthStep(y: int, m: int)
    requires 1 <= m <= 12
    ensures DaysBeforeMonth(y, m + 1) == DaysBeforeMonth(y, m) + MonthLength(y, m)
  {
  }

  lemma {:induction false} MonthsWalked(y: int, m: int, offset: nat)
    requires 1 <= m <= 12
    requires DaysBeforeMonth(y, m) + offset < DaysBeforeMonth(y, 13)
    ensures var (month, rest) := WalkMonths(y, m, offset);
      && m <= month <= 12 && 0 <= rest < MonthLength(y, month)
      && DaysBeforeMonth(y, month) + rest == DaysBeforeMonth(y, m) + offset
    decreases 12 - m
  {
    hide DaysBeforeMonth, MonthLength;
    MonthStep(y, m);
    if offset >= MonthLength(y, m) && m < 12 {
      MonthsWalked(y, m + 1, offset - MonthLength(y, m));
    }
  }

  /** The computed date is a real date, and it is the one with that day number. */
  lemma DateOfDay(days: int)
    ensures ValidDate(DateOf(days)) && DayNumber(DateOf(days)) == days
  {
    YearsWalked(1970, days);
    var (year, dayOfYear) := WalkYears(1970, days);
    MonthsMakeYear(year);
    MonthsWalked(year, 1, dayOfYear);
  }

  // ---- Order

  predicate Before(a: Date, b: Date) {
    || a.year < b.year
    || (a.year == b.year && a.month < b.month)
    || (a.year == b.year && a.month == b.month && a.day < b.day)
  }

  lemma {:induction false} YearsMonotone(a: int, b: int)
    requires a <= b
    ensures DaysBeforeYear(a) + (b - a) * 365 <= DaysBeforeYear(b)
    decreases b - a
  {
    if a < b {
      YearsMonotone(a, b - 1);
      YearStep(b - 1);
    }
  }

  lemma {:induction false} MonthsMonotone(y: int, a: int, b: int)
    requires 1 <= a <= b <= 13
    ensures DaysBeforeMonth(y, a) <= DaysBeforeMonth(y, b)
    decreases b - a
  {
    if a < b { MonthsMonotone(y, a, b - 1); }
  }

  lemma WithinYear(d: Date)
    requires ValidDate(d)
    ensures DaysBeforeYear(d.year) <= DayNumber(d) < DaysBeforeYear(d.year + 1)
  {
    MonthsMonotone(d.year, d.month + 1, 13);
    MonthsMakeYear(d.year);
    YearStep(d.year);
  }

  lemma OrderedDays(a: Date, b: Date)
    requires ValidDate(a) && ValidDate(b) && Before(a, b)
    ensures DayNumber(a) < DayNumber(b)
  {
    if a.year < b.year {
      WithinYear(a);
      WithinYear(b);
      YearsMonotone(a.year + 1, b.year);
    } else if a.month < b.month {
      MonthsMonotone(a.year, a.month + 1, b.month);
    }
  }

  /** Dates are ordered as their day numbers, so the date of a day is unique. */
  lemma DateOrder(a: Date, b: Date)
    requires ValidDate(a) && ValidDate(b)
    ensures Before(a, b) <==> DayNumber(a) < DayNumber(b)
    ensures a == b <==> DayNumber(a) == DayNumber(b)
  {
    if Before(a, b) { OrderedDays(a, b); }
    if Before(b, a) { OrderedDays(b, a); }
  }

  // ---- The civil calendar, independently: a table of month lengths and a formula for day numbers

  const MONTH_DAYS: seq<int> := [31, 28, 31, 30, 31, 30, 31, 31, 30, 31, 30, 31]

  /** Every fourth year, except hundredths that are not four-hundredths. */
  predicate HasLeapDay(y: int) {
    if y % 400 == 0 then true else if y % 100 == 0 then false else y % 4 == 0
  }

  predicate CivilDate(y: int, m: int, d: int) {
    1 <= m <= 12 && 1 <= d <= MONTH_DAYS[m - 1] + if m == 2 && HasLeapDay(y) then 1 else 0
  }

  /** Days since 1970-01-01, with years that begin in March so that the leap day comes last. */
  function CivilDay(y: int, m: int, d: int): int {
    var year := if m <= 2 then y - 1 else y;
    var month := if m <= 2 then m + 9 else m - 3;
    365 * year + year / 4 - year / 100 + year / 400 + (153 * month + 2) / 5 + d - 719469
  }

  lemma LeapDays(y: int)
    ensures HasLeapDay(y) <==> IsLeap(y)
  {
    if y % 400 == 0 { HundredthsRepeat(y, y / 400); FourthsRepeat(y, y / 100); }
  }

  lemma MonthTable(y: int, m: int)
    requires 1 <= m <= 12
    ensures MonthLength(y, m) == MONTH_DAYS[m - 1] + if m == 2 && HasLeapDay(y) then 1 else 0
  {
    LeapDays(y);
  }

  /** The days before each month, written out. */
  lemma DaysBeforeMonthTable(y: int, m: int)
    requires 1 <= m <= 12
    ensures DaysBeforeMonth(y, m) ==
      [0, 31, 59, 90, 120, 151, 181, 212, 243, 273, 304, 334][m - 1] + if m > 2 && HasLeapDay(y) then 1 else 0
  {
    hide HasLeapDay, MonthLength;
    if m > 1 {
      DaysBeforeMonthTable(y, m - 1);
      MonthTable(y, m - 1);
    }
  }

  lemma MarchBased(m: int)
    requires 1 <= m <= 12
    ensures var month := if m <= 2 then m + 9 else m - 3;
      (153 * month + 2) / 5 ==
        [306, 337, 0, 31, 61, 92, 122, 153, 184, 214, 245, 275][m - 1]
  {
  }

  lemma FirstOfMonth(y: int, m: int)
    requires 1 <= m <= 12
    ensures DaysBeforeYear(y) + DaysBeforeMonth(y, m) == CivilDay(y, m, 1)
  {
    hide HasLeapDay, IsLeap, DaysBeforeMonth;
    DaysBeforeMonthTable(y, m);
    MarchBased(m);
    if m > 2 {
      LeapDays(y);
      LeapsStep(y);
    }
  }

  /** The calendar the walk follows is the civil one: the same dates exist, with the same numbers. */
  lemma CivilCalendar(date: Date)
    ensures ValidDate(date) <==> CivilDate(date.year, date.month, date.day)
    ensures ValidDate(date) ==> DayNumber(date) == CivilDay(date.year, date.month, date.day)
  {
    hide HasLeapDay, MonthLength, DaysBeforeMonth, DaysBeforeYear;
    if 1 <= date.month <= 12 {
      MonthTable(date.year, date.month);
      FirstOfMonth(date.year, date.month);
    }
  }

  /** For any day at all, the computed date is the civil date of that number. */
  lemma DateOfCivilDay(y: int, m: int, d: int)
    requires CivilDate(y, m, d)
    ensures DateOf(CivilDay(y, m, d)) == Date(y, m, d)
  {
    var days := CivilDay(y, m, d);
    CivilCalendar(Date(y, m, d));
    DateOfDay(days);
    DateOrder(DateOf(days), Date(y, m, d));
  }
}
