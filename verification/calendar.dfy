/** The proleptic Gregorian calendar and the ISO 8601 week date (section
    4.1.4 of ISO 8601:2004: weeks run Monday to Sunday, and week 1 of a year
    is the week that holds its first Thursday), over day numbers.

    A date is its ordinal: 0001-01-01 is day 1, as in Python's
    `date.toordinal`. The ISO calendar follows CPython's `date.isocalendar`
    step by step. */
module Calendar {

  /** A calendar day, as a proleptic Gregorian ordinal. */
  type Date = d: int | d >= 1 witness 1

  /** A calendar date as (year, month, day of month). */
  datatype CivilDate = CivilDate(year: int, month: int, day: int)

  /** An ISO week date: ISO year, ISO week (1..53), ISO weekday (1 = Monday). */
  datatype IsoDate = IsoDate(year: int, week: int, weekday: int)

  predicate IsLeapYear(y: int) {
    y % 4 == 0 && (y % 100 != 0 || y % 400 == 0)
  }

  function DaysInYear(y: int): int {
    if IsLeapYear(y) then 366 else 365
  }

  /** Number of days in the years 1 .. y-1; for y < 1, minus the days of
      the years y .. 0. */
  function DaysBeforeYear(y: int): int
    decreases if y >= 1 then y - 1 else 1 - y
  {
    if y == 1 then 0
    else if y > 1 then DaysBeforeYear(y - 1) + DaysInYear(y - 1)
    else DaysBeforeYear(y + 1) - DaysInYear(y)
  }

  /** CPython's closed form `_days_before_year`. */
  function DaysBeforeYearFormula(y: int): int {
    var z := y - 1;
    z * 365 + z / 4 - z / 100 + z / 400
  }

  /** Days of year y before the first of month m; m == 13 gives the length of the year. */
  function DaysBeforeMonth(y: int, m: int): int
    requires 1 <= m <= 13
  {
    [0, 31, 59, 90, 120, 151, 181, 212, 243, 273, 304, 334, 365][m - 1]
    + (if m > 2 && IsLeapYear(y) then 1 else 0)
  }

  function DaysInMonth(y: int, m: int): int
    requires 1 <= m <= 12
  {
    DaysBeforeMonth(y, m + 1) - DaysBeforeMonth(y, m)
  }

  predicate ValidCivil(c: CivilDate) {
    c.year >= 1 && 1 <= c.month <= 12 && 1 <= c.day <= DaysInMonth(c.year, c.month)
  }

  lemma DaysBeforeYearStep(y: int)
    ensures DaysBeforeYear(y + 1) == DaysBeforeYear(y) + DaysInYear(y)
  {
  }

  /** The closed form adds one year's length per year, like the sum. */
  lemma FormulaStep(y: int)
    ensures DaysBeforeYearFormula(y + 1) == DaysBeforeYearFormula(y) + DaysInYear(y)
  {
    var z := y - 1;
    assert (z + 1) / 4 == z / 4 + (if (z + 1) % 4 == 0 then 1 else 0);
    assert (z + 1) / 100 == z / 100 + (if (z + 1) % 100 == 0 then 1 else 0);
    assert (z + 1) / 400 == z / 400 + (if (z + 1) % 400 == 0 then 1 else 0);
  }

  /** The year count agrees with CPython's closed form for every year. */
  lemma {:induction false} DaysBeforeYearClosedForm(y: int)
    ensures DaysBeforeYear(y) == DaysBeforeYearFormula(y)
    decreases if y >= 1 then y - 1 else 1 - y
  {
    if y > 1 {
      DaysBeforeYearClosedForm(y - 1);
      FormulaStep(y - 1);
    } else if y < 1 {
      DaysBeforeYearClosedForm(y + 1);
      FormulaStep(y);
    }
  }

  /** Later years start later: the years before b include all of a's days. */
  lemma {:induction false} DaysBeforeYearMonotone(a: int, b: int)
    requires a < b
    ensures DaysBeforeYear(a) + DaysInYear(a) <= DaysBeforeYear(b)
    decreases b - a
  {
    DaysBeforeYearStep(a);
    if a + 1 < b {
      DaysBeforeYearMonotone(a + 1, b);
      DaysBeforeYearStep(a + 1);
    }
  }

  /** The year holding day d, searched upwards from year y. */
  function YearFrom(d: int, y: int): (r: int)
    requires DaysBeforeYear(y) < d
    ensures r >= y
    ensures DaysBeforeYear(r) < d <= DaysBeforeYear(r) + DaysInYear(r)
    decreases d - DaysBeforeYear(y)
  {
    DaysBeforeYearStep(y);
    if d <= DaysBeforeYear(y + 1) then y else YearFrom(d, y + 1)
  }

  /** The month holding day `doy` (0-based) of year y, searched upwards from month m. */
  function MonthFrom(y: int, doy: int, m: int): (r: int)
    requires 1 <= m <= 12
    requires DaysBeforeMonth(y, m) <= doy < DaysInYear(y)
    ensures m <= r <= 12
    ensures DaysBeforeMonth(y, r) <= doy < DaysBeforeMonth(y, r + 1)
    decreases 12 - m
  {
    if doy < DaysBeforeMonth(y, m + 1) then m else MonthFrom(y, doy, m + 1)
  }

  /** The ordinal of a calendar date (CPython's `_ymd2ord`). */
  function FromCivil(c: CivilDate): (d: Date)
    requires ValidCivil(c)
    ensures DaysBeforeYear(c.year) < d <= DaysBeforeYear(c.year) + DaysInYear(c.year)
  {
    DaysBeforeYearNonnegative(c.year);
    DaysBeforeYear(c.year) + DaysBeforeMonth(c.year, c.month) + c.day
  }

  lemma {:induction false} DaysBeforeYearNonnegative(y: int)
    requires y >= 1
    ensures DaysBeforeYear(y) >= 0
    decreases y
  {
    if y > 1 { DaysBeforeYearNonnegative(y - 1); }
  }

  /** The calendar year of day d: `date.year`. */
  function YearOf(d: Date): (y: int)
    ensures y >= 1 && DaysBeforeYear(y) < d <= DaysBeforeYear(y) + DaysInYear(y)
  {
    YearFrom(d, 1)
  }

  /** The calendar date of an ordinal: `date.fromordinal(d)`. */
  function ToCivil(d: Date): (c: CivilDate)
    ensures ValidCivil(c)
    ensures FromCivil(c) == d
  {
    var y := YearOf(d);
    var doy := d - DaysBeforeYear(y) - 1;
    var m := MonthFrom(y, doy, 1);
    CivilDate(y, m, doy - DaysBeforeMonth(y, m) + 1)
  }


  function MonthOf(d: Date): int { ToCivil(d).month }

  /** Only one year contains a given day. */
  lemma YearUnique(d: int, a: int, b: int)
    requires DaysBeforeYear(a) < d <= DaysBeforeYear(a) + DaysInYear(a)
    requires DaysBeforeYear(b) < d <= DaysBeforeYear(b) + DaysInYear(b)
    ensures a == b
  {
    if a < b { DaysBeforeYearMonotone(a, b); }
    if b < a { DaysBeforeYearMonotone(b, a); }
  }

  /** Months are consecutive intervals of the year. */
  lemma DaysBeforeMonthMonotone(y: int, a: int, b: int)
    requires 1 <= a < b <= 13
    ensures DaysBeforeMonth(y, a + 1) <= DaysBeforeMonth(y, b)
  {
  }

  /** Calendar dates and ordinals are in one-to-one correspondence. */
  lemma CivilRoundTrip(c: CivilDate)
    requires ValidCivil(c)
    ensures ToCivil(FromCivil(c)) == c
  {
    var d := FromCivil(c);
    var r := ToCivil(d);
    assert DaysBeforeYear(1) == 0;
    YearUnique(d, r.year, c.year);
    var doy := d - DaysBeforeYear(c.year) - 1;
    if r.month < c.month { DaysBeforeMonthMonotone(c.year, r.month, c.month); }
    if c.month < r.month { DaysBeforeMonthMonotone(c.year, c.month, r.month); }
  }

  /** Python's `date.weekday()`: Monday is 0, Sunday is 6. */
  function Weekday(d: int): int {
    (d + 6) % 7
  }

  /** The Monday that starts ISO week 1 of year y (CPython's `_isoweek1monday`). */
  function IsoWeek1Monday(y: int): int {
    MondayNearest(DaysBeforeYear(y) + 1)
  }

  /** The Monday of the week holding `first` when that day is Monday to
      Thursday, else the following Monday. */
  function MondayNearest(first: int): int {
    var wd := Weekday(first);
    if wd > 3 then first - wd + 7 else first - wd
  }

  lemma MondayNearestFacts(first: int)
    ensures Weekday(MondayNearest(first)) == 0
    ensures first - 3 <= MondayNearest(first) <= first + 3
  {
  }

  lemma IsoWeek1MondayFacts(y: int)
    ensures Weekday(IsoWeek1Monday(y)) == 0
    ensures DaysBeforeYear(y) + 1 - 3 <= IsoWeek1Monday(y) <= DaysBeforeYear(y) + 1 + 3
  {
    MondayNearestFacts(DaysBeforeYear(y) + 1);
  }

  /** Two Mondays between 359 and 372 days apart are 52 or 53 weeks apart. */
  lemma MondaysApart(a: int, b: int)
    requires Weekday(a) == 0 && Weekday(b) == 0
    requires 359 <= b - a <= 372
    ensures b - a == 364 || b - a == 371
  {
  }

  /** An ISO year has 52 or 53 weeks. */
  lemma IsoYearLength(y: int)
    ensures IsoWeek1Monday(y + 1) - IsoWeek1Monday(y) == 364
         || IsoWeek1Monday(y + 1) - IsoWeek1Monday(y) == 371
  {
    IsoWeek1MondayFacts(y);
    IsoWeek1MondayFacts(y + 1);
    DaysBeforeYearStep(y);
    MondaysApart(IsoWeek1Monday(y), IsoWeek1Monday(y + 1));
  }

  lemma {:induction false} IsoWeek1MondayMonotone(a: int, b: int)
    requires a < b
    ensures IsoWeek1Monday(a + 1) <= IsoWeek1Monday(b)
    decreases b - a
  {
    if a + 1 < b {
      IsoYearLength(a + 1);
      IsoWeek1MondayMonotone(a + 1, b);
    }
  }

  /** CPython's `date.isocalendar()` for day d of calendar year y, given the
      week-1 Mondays w0, w1, w2 of years y-1, y, y+1: divide the distance
      from w1 into weeks, then step back to the previous ISO year or forward
      to the next. */
  function IsoFromMondays(d: int, y: int, w0: int, w1: int, w2: int): IsoDate {
    var week := (d - w1) / 7;
    var day := (d - w1) % 7;
    if week < 0 then
      IsoDate(y - 1, (d - w0) / 7 + 1, (d - w0) % 7 + 1)
    else if week >= 52 && d >= w2 then
      IsoDate(y + 1, 1, day + 1)
    else
      IsoDate(y, week + 1, day + 1)
  }

  /** The arithmetic behind `IsoCalendar`, over the four Mondays and the
      first days `lo + 1` and `hi + 1` of years y and y+1. */
  lemma IsoFromMondaysSpec(d: int, y: int, lo: int, hi: int, w0: int, w1: int, w2: int, w3: int)
    requires lo < d <= hi && 365 <= hi - lo <= 366
    requires Weekday(w0) == 0 && Weekday(w1) == 0 && Weekday(w2) == 0
    requires w1 - w0 == 364 || w1 - w0 == 371
    requires w2 - w1 == 364 || w2 - w1 == 371
    requires lo - 2 <= w1 <= lo + 4 && hi - 2 <= w2 <= hi + 4
    requires w3 - w2 == 364 || w3 - w2 == 371
    ensures var r := IsoFromMondays(d, y, w0, w1, w2);
      && (r.year == y - 1 || r.year == y || r.year == y + 1)
      && 1 <= r.week <= 53 && r.weekday == Weekday(d) + 1
      && var (wa, wb) := if r.year == y - 1 then (w0, w1) else if r.year == y then (w1, w2) else (w2, w3);
         wa <= d < wb && d == wa + 7 * (r.week - 1) + (r.weekday - 1)
  {
  }

  /** CPython's `date.isocalendar()`. */
  function IsoCalendar(d: Date): (r: IsoDate)
    ensures IsoWeek1Monday(r.year) <= d < IsoWeek1Monday(r.year + 1)
    ensures 1 <= r.week <= 53 && 1 <= r.weekday <= 7
    ensures d == IsoWeek1Monday(r.year) + 7 * (r.week - 1) + (r.weekday - 1)
    ensures r.weekday == Weekday(d) + 1
  {
    var y := YearOf(d);
    IsoWeek1MondayFacts(y);
    IsoWeek1MondayFacts(y + 1);
    IsoYearLength(y - 1);
    IsoYearLength(y);
    IsoYearLength(y + 1);
    IsoWeek1MondayFacts(y - 1);
    DaysBeforeYearStep(y);
    IsoFromMondaysSpec(d, y, DaysBeforeYear(y), DaysBeforeYear(y + 1),
      IsoWeek1Monday(y - 1), IsoWeek1Monday(y), IsoWeek1Monday(y + 1), IsoWeek1Monday(y + 2));
    IsoFromMondays(d, y, IsoWeek1Monday(y - 1), IsoWeek1Monday(y), IsoWeek1Monday(y + 1))
  }

  /** The (ISO year, ISO week) pair of a date: the row key of the grid. */
  function IsoKey(d: Date): (int, int) {
    var iso := IsoCalendar(d);
    (iso.year, iso.week)
  }

  /** The ISO year of a date is the year whose week-1 Monday is the last one
      on or before it. */
  lemma IsoYearUnique(d: int, a: int, b: int)
    requires IsoWeek1Monday(a) <= d < IsoWeek1Monday(a + 1)
    requires IsoWeek1Monday(b) <= d < IsoWeek1Monday(b + 1)
    ensures a == b
  {
    if a < b { IsoWeek1MondayMonotone(a, b); }
    if b < a { IsoWeek1MondayMonotone(b, a); }
  }

  /** Later dates never have an earlier (ISO year, ISO week). */
  lemma IsoKeyMonotone(d1: Date, d2: Date)
    requires d1 <= d2
    ensures IsoKey(d1).0 < IsoKey(d2).0
         || (IsoKey(d1).0 == IsoKey(d2).0 && IsoKey(d1).1 <= IsoKey(d2).1)
  {
    IsoYearMonotone(d1, d2);
    var a := IsoCalendar(d1);
    var b := IsoCalendar(d2);
    if a.year == b.year {
      WeeksOrdered(IsoWeek1Monday(a.year), d1, d2, a.week, a.weekday, b.week, b.weekday);
    }
  }

  lemma IsoYearMonotone(d1: Date, d2: Date)
    requires d1 <= d2
    ensures IsoCalendar(d1).year <= IsoCalendar(d2).year
  {
    var a := IsoCalendar(d1).year;
    var b := IsoCalendar(d2).year;
    if b < a {
      IsoWeek1MondayMonotone(b, a);
    }
  }

  /** Two days counted from the same Monday: the later one is in a week no earlier. */
  lemma WeeksOrdered(w: int, d1: int, d2: int, k1: int, e1: int, k2: int, e2: int)
    requires d1 <= d2 && 1 <= e1 <= 7 && 1 <= e2 <= 7
    requires d1 == w + 7 * (k1 - 1) + (e1 - 1) && d2 == w + 7 * (k2 - 1) + (e2 - 1)
    ensures k1 <= k2
  {
  }

  /** The ISO week and the weekday together determine the date. */
  lemma IsoCellDeterminesDate(d1: Date, d2: Date)
    requires IsoKey(d1) == IsoKey(d2) && Weekday(d1) == Weekday(d2)
    ensures d1 == d2
  {
    var a := IsoCalendar(d1);
    var b := IsoCalendar(d2);
  }
}
