/**
 * A proleptic Gregorian calendar in one fixed time zone without daylight
 * saving, standing in for the system calendar (`Calendar.current`).
 *
 * An instant is a whole number of seconds since 1970-01-01 00:00:00 local
 * time (negative before it). Day numbers count days since 1970-01-01.
 */
module Gregorian {
  import opened Wrappers
  import Arith = Arithmetic

  /** Days from 0000-01-01 to 1970-01-01. */
  const EpochDay: int := 719528

  /** The calendar units the engine asks for (a subset of `Calendar.Component`). */
  datatype Component = Year | Month | Day | Hour | Second

  datatype Date = Date(year: int, month: int, day: int)

  /** The date fields `dateComponents(_:from:)` extracts; a field not asked for is absent. */
  datatype DateComponents = DateComponents(year: Option<int>, month: Option<int>, day: Option<int>)

  predicate IsLeapYear(y: int) {
    y % 4 == 0 && (y % 100 != 0 || y % 400 == 0)
  }

  function DaysInYear(y: int): int {
    if IsLeapYear(y) then 366 else 365
  }

  function DaysInMonth(y: int, m: int): int
    requires 1 <= m <= 12
  {
    if m == 2 then (if IsLeapYear(y) then 29 else 28)
    else if m == 4 || m == 6 || m == 9 || m == 11 then 30
    else 31
  }

  /** Days of year `y` before the first of month `m`; `m == 13` gives the whole year. */
  function DaysBeforeMonth(y: int, m: int): int
    requires 1 <= m <= 13
  {
    if m == 1 then 0 else DaysBeforeMonth(y, m - 1) + DaysInMonth(y, m - 1)
  }

  /** The number of leap years in [0, y) (negated for y < 0: those in [y, 0)). */
  function LeapYearsBefore(y: int): int {
    (y + 3) / 4 - (y + 99) / 100 + (y + 399) / 400
  }

  /** Days from 0000-01-01 to the first of January of year `y`. */
  function DaysBeforeYear(y: int): int {
    365 * y + LeapYearsBefore(y)
  }

  predicate IsValidDate(d: Date) {
    1 <= d.month <= 12 && 1 <= d.day <= DaysInMonth(d.year, d.month)
  }

  /** Days from 1970-01-01 to `d`; a day past the end of the month runs on into the next ones. */
  function DayNumber(d: Date): int
    requires 1 <= d.month <= 12
  {
    DaysBeforeYear(d.year) + DaysBeforeMonth(d.year, d.month) + d.day - 1 - EpochDay
  }

  /** The first of month `m + 1` comes month `m`'s length after the first of month `m`. */
  lemma MonthLength(y: int, m: int)
    requires 1 <= m <= 12
    ensures DaysBeforeMonth(y, m + 1) - DaysBeforeMonth(y, m) == DaysInMonth(y, m)
  {
  }

  /** The twelve months make up the year. */
  lemma MonthsMakeYear(y: int)
    ensures DaysBeforeMonth(y, 13) == DaysInYear(y)
  {
    var leap := DaysInYear(y) - 365;
    assert DaysBeforeMonth(y, 2) == 31;
    assert DaysBeforeMonth(y, 3) == 59 + leap;
    assert DaysBeforeMonth(y, 4) == 90 + leap;
    assert DaysBeforeMonth(y, 5) == 120 + leap;
    assert DaysBeforeMonth(y, 6) == 151 + leap;
    assert DaysBeforeMonth(y, 7) == 181 + leap;
    assert DaysBeforeMonth(y, 8) == 212 + leap;
    assert DaysBeforeMonth(y, 9) == 243 + leap;
    assert DaysBeforeMonth(y, 10) == 273 + leap;
    assert DaysBeforeMonth(y, 11) == 304 + leap;
    assert DaysBeforeMonth(y, 12) == 334 + leap;
  }

  lemma {:induction false} DaysBeforeMonthMonotone(y: int, a: int, b: int)
    requires 1 <= a <= b <= 13
    ensures DaysBeforeMonth(y, a) + (b - a) * 28 <= DaysBeforeMonth(y, b)
    decreases b - a
  {
    if a < b {
      MonthLength(y, a);
      DaysBeforeMonthMonotone(y, a + 1, b);
    }
  }

  /** A year is 365 days, plus one when it is a leap year. */
  lemma YearLength(y: int)
    ensures DaysBeforeYear(y + 1) - DaysBeforeYear(y) == DaysInYear(y)
  {
    MultipleCrossing(y, 4);
    MultipleCrossing(y, 100);
    MultipleCrossing(y, 400);
    LeapDivisibility(y);
    assert LeapYearsBefore(y + 1) - LeapYearsBefore(y) == if IsLeapYear(y) then 1 else 0;
  }

  /** A multiple of 400 is a multiple of 100, and a multiple of 100 is a multiple of 4. */
  lemma LeapDivisibility(y: int)
    ensures y % 400 == 0 ==> y % 100 == 0
    ensures y % 100 == 0 ==> y % 4 == 0
  {
    if y % 400 == 0 {
      var q := y / 400;
      assert y == (4 * q) * 100;
      Arith.DivUnique(y, 100, 4 * q);
    }
    if y % 100 == 0 {
      var q := y / 100;
      assert y == (25 * q) * 4;
      Arith.DivUnique(y, 4, 25 * q);
    }
  }

  /** Going from `y - 1` to `y` passes a multiple of `k` exactly when `k` divides `y`. */
  lemma MultipleCrossing(y: int, k: int)
    requires 0 < k
    ensures (y + k) / k - (y + k - 1) / k == if y % k == 0 then 1 else 0
  {
    var q, r := y / k, y % k;
    assert (q + 1) * k == q * k + k;
    Arith.DivUnique(y + k, k, q + 1);
    if r == 0 {
      Arith.DivUnique(y + k - 1, k, q);
    } else {
      Arith.DivUnique(y + k - 1, k, q + 1);
    }
  }

  /** 400 years hold 146097 days; any year start lies within a few days of that average. */
  lemma YearStartBounds(y: int)
    ensures 146097 * y - 396 <= 400 * DaysBeforeYear(y) <= 146097 * y + 699
  {
    assert y <= 4 * ((y + 3) / 4) <= y + 3;
    assert y <= 100 * ((y + 99) / 100) <= y + 99;
    assert y <= 400 * ((y + 399) / 400) <= y + 399;
  }

  /** The year holding the `n`th day after 0000-01-01. */
  function YearOf(n: int): (y: int)
    ensures DaysBeforeYear(y) <= n < DaysBeforeYear(y + 1)
  {
    YearNear(n, (400 * n) / 146097)
  }

  /** The year holding day `n`, found from the estimate `y0` by checking its neighbours. */
  function YearNear(n: int, y0: int): (y: int)
    requires 146097 * y0 <= 400 * n < 146097 * (y0 + 1)
    ensures DaysBeforeYear(y) <= n < DaysBeforeYear(y + 1)
  {
    YearStartBounds(y0 - 1);
    YearStartBounds(y0);
    YearStartBounds(y0 + 1);
    YearStartBounds(y0 + 2);
    if DaysBeforeYear(y0 + 1) <= n then y0 + 1
    else if DaysBeforeYear(y0) <= n then y0
    else y0 - 1
  }

  /** At most one year holds a given day. */
  lemma YearUnique(n: int, y1: int, y2: int)
    requires DaysBeforeYear(y1) <= n < DaysBeforeYear(y1 + 1)
    requires DaysBeforeYear(y2) <= n < DaysBeforeYear(y2 + 1)
    ensures y1 == y2
  {
    YearStartBounds(y1);
    YearStartBounds(y1 + 1);
    YearStartBounds(y2);
    YearStartBounds(y2 + 1);
  }

  /** The month of year `y` holding day-of-year `doy` (0-based), searched from month `m` on. */
  function MonthOf(y: int, doy: int, m: int): (r: int)
    requires 1 <= m <= 12 && DaysBeforeMonth(y, m) <= doy < DaysInYear(y)
    ensures m <= r <= 12 && DaysBeforeMonth(y, r) <= doy < DaysBeforeMonth(y, r + 1)
    decreases 12 - m
  {
    MonthsMakeYear(y);
    if m == 12 || doy < DaysBeforeMonth(y, m + 1) then m else MonthOf(y, doy, m + 1)
  }

  /** At most one month holds a given day of the year. */
  lemma MonthUnique(y: int, doy: int, m1: int, m2: int)
    requires 1 <= m1 <= 12 && DaysBeforeMonth(y, m1) <= doy < DaysBeforeMonth(y, m1 + 1)
    requires 1 <= m2 <= 12 && DaysBeforeMonth(y, m2) <= doy < DaysBeforeMonth(y, m2 + 1)
    ensures m1 == m2
  {
    if m1 < m2 {
      DaysBeforeMonthMonotone(y, m1 + 1, m2);
    } else if m2 < m1 {
      DaysBeforeMonthMonotone(y, m2 + 1, m1);
    }
  }

  /** Every day number is the day number of some valid date, found from its year and month. */
  lemma DateExists(z: int)
    ensures exists d :: IsValidDate(d) && DayNumber(d) == z
  {
    var n := z + EpochDay;
    var y := YearOf(n);
    YearLength(y);
    var doy := n - DaysBeforeYear(y);
    var m := MonthOf(y, doy, 1);
    MonthLength(y, m);
    var d := Date(y, m, doy - DaysBeforeMonth(y, m) + 1);
    assert IsValidDate(d) && DayNumber(d) == z;
  }

  /** The calendar date of day number `z`: the valid date whose day number it is. */
  ghost function DateOfDay(z: int): (d: Date)
    ensures IsValidDate(d) && DayNumber(d) == z
  {
    DateExists(z);
    var d :| IsValidDate(d) && DayNumber(d) == z; d
  }

  /** A valid date lies in its own year and month. */
  lemma DateInYear(d: Date)
    requires IsValidDate(d)
    ensures var n := DayNumber(d) + EpochDay;
            DaysBeforeYear(d.year) <= n < DaysBeforeYear(d.year + 1) &&
            DaysBeforeMonth(d.year, d.month) <= n - DaysBeforeYear(d.year) < DaysBeforeMonth(d.year, d.month + 1)
  {
    MonthLength(d.year, d.month);
    DaysBeforeMonthMonotone(d.year, 1, d.month);
    DaysBeforeMonthMonotone(d.year, d.month + 1, 13);
    MonthsMakeYear(d.year);
    YearLength(d.year);
  }

  /** Distinct valid dates have distinct day numbers. */
  lemma DayNumberInjective(d1: Date, d2: Date)
    requires IsValidDate(d1) && IsValidDate(d2) && DayNumber(d1) == DayNumber(d2)
    ensures d1 == d2
  {
    var n := DayNumber(d1) + EpochDay;
    DateInYear(d1);
    DateInYear(d2);
    YearUnique(n, d1.year, d2.year);
    MonthUnique(d1.year, n - DaysBeforeYear(d1.year), d1.month, d2.month);
  }

  /** Every valid date is the date of its own day number: `DateOfDay` and `DayNumber` are inverse. */
  lemma DateOfDayNumber(d: Date)
    requires IsValidDate(d)
    ensures DateOfDay(DayNumber(d)) == d
  {
    DayNumberInjective(d, DateOfDay(DayNumber(d)));
  }

  /** The date of an instant. */
  ghost function DateOf(t: int): Date {
    DateOfDay(t / 86400)
  }

  /** Midnight at the start of the day numbered `z`. */
  function Midnight(z: int): int {
    z * 86400
  }

  /** Every instant lies in the day of its own date. */
  lemma InstantOnItsDate(t: int)
    ensures Midnight(DayNumber(DateOf(t))) <= t < Midnight(DayNumber(DateOf(t))) + 86400
  {
  }

  /** The date of an instant `s` seconds after midnight starting a valid date is that date. */
  lemma DateOfInstant(d: Date, s: int)
    requires IsValidDate(d) && 0 <= s < 86400
    ensures DateOf(Midnight(DayNumber(d)) + s) == d
    ensures (Midnight(DayNumber(d)) + s) % 86400 == s
  {
    assert (Midnight(DayNumber(d)) + s) / 86400 == DayNumber(d);
    DateOfDayNumber(d);
  }

  /** Models `dateComponents(comps, from: t)` for the year, month and day fields. */
  ghost function ComponentsOf(comps: set<Component>, t: int): (dc: DateComponents)
    ensures dc.year.Some? <==> Year in comps
    ensures dc.month.Some? <==> Month in comps
    ensures dc.day.Some? <==> Day in comps
  {
    var d := DateOf(t);
    DateComponents(
      if Year in comps then Some(d.year) else None,
      if Month in comps then Some(d.month) else None,
      if Day in comps then Some(d.day) else None)
  }

  /**
   * Models `date(from: dc)`: midnight of the described date, with an absent
   * month or day taken as 1 and an absent year as 1. Out-of-range months and
   * days carry over into the following ones.
   */
  function DateFrom(dc: DateComponents): (t: int)
    ensures t % 86400 == 0
  {
    var y := dc.year.GetOr(1);
    var m0 := dc.month.GetOr(1) - 1;
    var d := dc.day.GetOr(1);
    Midnight(DayNumber(Date(y + m0 / 12, m0 % 12 + 1, d)))
  }

  /** `t` moved by `k` months, the day of the month clamped to the last day of the target month. */
  ghost function AddMonths(t: int, k: int): int {
    var d := DateOf(t);
    var index := d.year * 12 + (d.month - 1) + k;
    var y, m := index / 12, index % 12 + 1;
    var day := if d.day <= DaysInMonth(y, m) then d.day else DaysInMonth(y, m);
    Midnight(DayNumber(Date(y, m, day))) + t % 86400
  }

  /** Models `date(byAdding: c, value: value, to: t)` in a zone without daylight saving. */
  ghost function Adding(c: Component, value: int, t: int): int {
    match c
    case Second => t + value
    case Hour => t + value * 3600
    case Day => t + value * 86400
    case Month => AddMonths(t, value)
    case Year => AddMonths(t, 12 * value)
  }

  /** `date(from:)` on fields read from a valid date gives midnight of that date; absent fields count as 1. */
  lemma DateFromFields(y: int, month: Option<int>, day: Option<int>)
    requires 1 <= month.GetOr(1) <= 12
    ensures DateFrom(DateComponents(Some(y), month, day)) == Midnight(DayNumber(Date(y, month.GetOr(1), day.GetOr(1))))
  {
    var m0 := month.GetOr(1) - 1;
    assert m0 / 12 == 0 && m0 % 12 == m0;
  }

  /** One month after midnight on the first of a month is midnight on the first of the next. */
  lemma AddOneMonth(y: int, m: int)
    requires 1 <= m <= 12
    ensures var next := if m == 12 then Date(y + 1, 1, 1) else Date(y, m + 1, 1);
            AddMonths(Midnight(DayNumber(Date(y, m, 1))), 1) == Midnight(DayNumber(next)) &&
            DayNumber(next) == DayNumber(Date(y, m, 1)) + DaysInMonth(y, m)
  {
    DateOfInstant(Date(y, m, 1), 0);
    var index := y * 12 + (m - 1) + 1;
    assert index / 12 == (if m == 12 then y + 1 else y);
    assert index % 12 + 1 == (if m == 12 then 1 else m + 1);
    MonthLength(y, m);
    if m == 12 {
      YearLength(y);
      MonthsMakeYear(y);
    }
  }

  /** One year after midnight on January 1 is midnight on the next January 1. */
  lemma AddOneYear(y: int)
    ensures AddMonths(Midnight(DayNumber(Date(y, 1, 1))), 12) == Midnight(DayNumber(Date(y + 1, 1, 1)))
    ensures DayNumber(Date(y + 1, 1, 1)) == DayNumber(Date(y, 1, 1)) + DaysInYear(y)
  {
    DateOfInstant(Date(y, 1, 1), 0);
    var index := y * 12 + 12;
    assert index / 12 == y + 1 && index % 12 == 0;
    YearLength(y);
  }

  /** A valid date lies within its month and within its year. */
  lemma DateWithinUnits(d: Date)
    requires IsValidDate(d)
    ensures DayNumber(d) == DayNumber(Date(d.year, d.month, 1)) + d.day - 1
    ensures 0 <= DayNumber(d) - DayNumber(Date(d.year, 1, 1)) < DaysInYear(d.year)
  {
    MonthLength(d.year, d.month);
    DaysBeforeMonthMonotone(d.year, 1, d.month);
    DaysBeforeMonthMonotone(d.year, d.month + 1, 13);
    MonthsMakeYear(d.year);
  }
}
