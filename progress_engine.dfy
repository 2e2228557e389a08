/**
 * The progress engine: how far an instant has got through its day, month or
 * year, as a whole percentage.
 */
module ProgressEngine {
  import opened Modes
  import opened Wrappers
  import G = Gregorian
  import Arith = Arithmetic

  /** The date fields that identify the interval of a mode. */
  function Components(mode: Mode): (r: set<G.Component>)
    ensures G.Year in r && G.Hour !in r && G.Second !in r
    ensures G.Day in r ==> G.Month in r
  {
    match mode
    case Year => {G.Year}
    case Month => {G.Year, G.Month}
    case Day => {G.Year, G.Month, G.Day}
  }

  /** The calendar unit one interval of a mode spans. */
  function NextComponent(mode: Mode): (r: G.Component)
    ensures r in Components(mode)
  {
    match mode
    case Year => G.Year
    case Month => G.Month
    case Day => G.Day
  }

  /** How fine a calendar unit is: years are coarsest, seconds finest. */
  function Fineness(c: G.Component): int {
    match c
    case Year => 0
    case Month => 1
    case Day => 2
    case Hour => 3
    case Second => 4
  }

  /** The unit an interval spans is the finest of the fields it is identified by. */
  lemma UnitMatchesFields(mode: Mode)
    ensures NextComponent(mode) in Components(mode)
    ensures forall c :: c in Components(mode) <==> Fineness(c) <= Fineness(NextComponent(mode))
  {
  }

  /** `now` moved back by the day-start hour. */
  ghost function AdjustedNow(now: int, dayStart: int): (r: int)
    ensures r == now - dayStart * 3600
  {
    G.Adding(G.Hour, -dayStart, now)
  }

  /** The start of the interval holding `adjusted`. */
  ghost function IntervalStart(mode: Mode, adjusted: int): int {
    G.DateFrom(G.ComponentsOf(Components(mode), adjusted))
  }

  /** The start of the interval after the one that starts at `start`. */
  ghost function IntervalNext(mode: Mode, start: int): int {
    G.Adding(NextComponent(mode), 1, start)
  }

  /** The last second of the interval that starts at `start`. */
  ghost function IntervalEnd(mode: Mode, start: int): (r: int)
    ensures r == IntervalNext(mode, start) - 1
  {
    G.Adding(G.Second, -1, IntervalNext(mode, start))
  }

  /** The whole percentage `elapsed` is of `total`, truncated toward zero. */
  function Percentage(elapsed: int, total: int): (p: int)
    requires 0 <= elapsed <= total && 0 < total
    ensures 0 <= p <= 100
  {
    PercentageBounds(elapsed, total);
    (elapsed * 100) / total
  }

  /** The progress of `adjusted` through the interval of `mode` that holds it. */
  ghost function ProgressAt(mode: Mode, adjusted: int): (p: int)
    ensures 0 <= p <= 100
  {
    var start := IntervalStart(mode, adjusted);
    var end := IntervalEnd(mode, start);
    IntervalBounds(mode, adjusted);
    Percentage(adjusted - start, end - start)
  }

  /** Models `progress(forMode:)` with `now` and the day-start hour passed in. */
  ghost function Progress(mode: Mode, now: int, dayStart: int): (p: int)
    ensures 0 <= p <= 100
  {
    ProgressAt(mode, AdjustedNow(now, dayStart))
  }

  // ---- The calendar view of an interval ----

  /** The first day of the interval holding date `d`. */
  function Truncate(mode: Mode, d: G.Date): G.Date {
    match mode
    case Day => d
    case Month => G.Date(d.year, d.month, 1)
    case Year => G.Date(d.year, 1, 1)
  }

  /** The first day of the interval after the one starting on `first`. */
  ghost function Following(mode: Mode, first: G.Date): G.Date
    requires 1 <= first.month <= 12
  {
    match mode
    case Day => G.DateOfDay(G.DayNumber(first) + 1)
    case Month => if first.month == 12 then G.Date(first.year + 1, 1, 1) else G.Date(first.year, first.month + 1, 1)
    case Year => G.Date(first.year + 1, 1, 1)
  }

  /** The calendar length, in days, of the interval holding date `d`. */
  function UnitDays(mode: Mode, d: G.Date): int
    requires 1 <= d.month <= 12
  {
    match mode
    case Day => 1
    case Month => G.DaysInMonth(d.year, d.month)
    case Year => G.DaysInYear(d.year)
  }

  /** The start of an interval is midnight of the adjusted date truncated to the mode's fields. */
  lemma StartIsTruncation(mode: Mode, adjusted: int)
    ensures G.IsValidDate(Truncate(mode, G.DateOf(adjusted)))
    ensures IntervalStart(mode, adjusted) == G.Midnight(G.DayNumber(Truncate(mode, G.DateOf(adjusted))))
  {
    var d := G.DateOf(adjusted);
    match mode
    case Day =>
      G.DateFromFields(d.year, Some(d.month), Some(d.day));
    case Month =>
      G.DateFromFields(d.year, Some(d.month), None);
    case Year =>
      G.DateFromFields(d.year, None, None);
  }

  /** Adding one unit to the first instant of an interval reaches the first instant of the next one. */
  lemma NextIsOneUnitLater(mode: Mode, first: G.Date)
    requires G.IsValidDate(first) && Truncate(mode, first) == first
    ensures G.IsValidDate(Following(mode, first)) && Truncate(mode, Following(mode, first)) == Following(mode, first)
    ensures G.DayNumber(Following(mode, first)) == G.DayNumber(first) + UnitDays(mode, first)
    ensures IntervalNext(mode, G.Midnight(G.DayNumber(first))) == G.Midnight(G.DayNumber(Following(mode, first)))
  {
    match mode
    case Day =>
    case Month =>
      G.AddOneMonth(first.year, first.month);
    case Year =>
      G.AddOneYear(first.year);
  }

  /** Truncation and the unit agree: `adjusted` lies in [start, start + one unit). */
  lemma IntervalBounds(mode: Mode, adjusted: int)
    ensures var start := IntervalStart(mode, adjusted);
            start <= adjusted < IntervalNext(mode, start) &&
            IntervalNext(mode, start) - start == UnitDays(mode, G.DateOf(adjusted)) * 86400
  {
    var d := G.DateOf(adjusted);
    var first := Truncate(mode, d);
    G.InstantOnItsDate(adjusted);
    G.DateWithinUnits(d);
    StartIsTruncation(mode, adjusted);
    NextIsOneUnitLater(mode, first);
    assert UnitDays(mode, first) == UnitDays(mode, d);
  }

  /** An instant between an interval's start and the next start has that same start. */
  lemma InsideHasSameStart(mode: Mode, a: int, b: int)
    requires IntervalStart(mode, a) <= b < IntervalNext(mode, IntervalStart(mode, a))
    ensures IntervalStart(mode, b) == IntervalStart(mode, a)
  {
    var first := Truncate(mode, G.DateOf(a));
    StartIsTruncation(mode, a);
    StartIsTruncation(mode, b);
    NextIsOneUnitLater(mode, first);
    var db := G.DateOf(b);
    G.InstantOnItsDate(b);
    var offset := G.DayNumber(db) - G.DayNumber(first);
    assert 0 <= offset < UnitDays(mode, first);
    match mode
    case Day =>
      G.DayNumberInjective(db, first);
    case Month =>
      var e := G.Date(first.year, first.month, 1 + offset);
      G.DateWithinUnits(e);
      G.DayNumberInjective(db, e);
    case Year =>
      G.DateWithinUnits(db);
      G.YearLength(db.year);
      G.YearLength(first.year);
      G.YearUnique(G.DayNumber(db) + G.EpochDay, db.year, first.year);
  }

  /** Two instants share an interval exactly when the second lies between its start and the next start. */
  lemma SameInterval(mode: Mode, a: int, b: int)
    ensures var start := IntervalStart(mode, a);
            IntervalStart(mode, b) == start <==> start <= b < IntervalNext(mode, start)
  {
    IntervalBounds(mode, b);
    if IntervalStart(mode, a) <= b < IntervalNext(mode, IntervalStart(mode, a)) {
      InsideHasSameStart(mode, a, b);
    }
  }

  /** The instant after an interval's last second starts a new interval. */
  lemma NextStartsNewInterval(mode: Mode, adjusted: int)
    ensures var next := IntervalNext(mode, IntervalStart(mode, adjusted));
            IntervalStart(mode, next) == next
  {
    var first := Truncate(mode, G.DateOf(adjusted));
    StartIsTruncation(mode, adjusted);
    NextIsOneUnitLater(mode, first);
    var g := Following(mode, first);
    var next := G.Midnight(G.DayNumber(g));
    G.DateOfInstant(g, 0);
    assert G.DateOf(next) == g;
    StartIsTruncation(mode, next);
  }

  /** The interval's span in seconds: its calendar length minus one second. */
  lemma TotalIsCalendarLength(mode: Mode, adjusted: int)
    ensures var start := IntervalStart(mode, adjusted);
            IntervalEnd(mode, start) - start == UnitDays(mode, G.DateOf(adjusted)) * 86400 - 1
  {
    IntervalBounds(mode, adjusted);
  }

  /** February spans 28 days in a common year and 29 in a leap year. */
  lemma FebruaryTotal(adjusted: int)
    requires G.DateOf(adjusted).month == 2
    ensures var start := IntervalStart(Month, adjusted);
            IntervalEnd(Month, start) - start ==
              (if G.IsLeapYear(G.DateOf(adjusted).year) then 29 else 28) * 86400 - 1
  {
    TotalIsCalendarLength(Month, adjusted);
  }

  /** A year spans 365 days, or 366 in a leap year. */
  lemma YearTotal(adjusted: int)
    ensures var start := IntervalStart(Year, adjusted);
            IntervalEnd(Year, start) - start ==
              (if G.IsLeapYear(G.DateOf(adjusted).year) then 366 else 365) * 86400 - 1
  {
    TotalIsCalendarLength(Year, adjusted);
  }

  // ---- Properties of the percentage ----

  /** At the first instant of an interval the progress is 0. */
  lemma ProgressZeroAtStart(mode: Mode, now: int, dayStart: int)
    requires AdjustedNow(now, dayStart) == IntervalStart(mode, AdjustedNow(now, dayStart))
    ensures Progress(mode, now, dayStart) == 0
  {
    var adjusted := AdjustedNow(now, dayStart);
    var start := IntervalStart(mode, adjusted);
    var total := IntervalEnd(mode, start) - start;
    ProgressFrom(mode, adjusted, 0, total);
    PercentageEnds(0, total);
  }

  /** The progress is 100 exactly in the last second of the interval. */
  lemma ProgressFullOnlyAtEnd(mode: Mode, now: int, dayStart: int)
    ensures var adjusted := AdjustedNow(now, dayStart);
            Progress(mode, now, dayStart) == 100 <==> adjusted == IntervalEnd(mode, IntervalStart(mode, adjusted))
  {
    var adjusted := AdjustedNow(now, dayStart);
    var start := IntervalStart(mode, adjusted);
    var total := IntervalEnd(mode, start) - start;
    ProgressFrom(mode, adjusted, adjusted - start, total);
    PercentageEnds(adjusted - start, total);
  }

  /** The progress is the percentage of the time since the start, out of the unit's length minus one second. */
  lemma ProgressIs(mode: Mode, adjusted: int)
    ensures var start := IntervalStart(mode, adjusted);
            var total := UnitDays(mode, G.DateOf(adjusted)) * 86400 - 1;
            0 <= adjusted - start <= total && 0 < total &&
            ProgressAt(mode, adjusted) == Percentage(adjusted - start, total)
  {
    var start := IntervalStart(mode, adjusted);
    var total := UnitDays(mode, G.DateOf(adjusted)) * 86400 - 1;
    TotalIsCalendarLength(mode, adjusted);
    assert InInterval(mode, adjusted, adjusted - start, total);
    ProgressFrom(mode, adjusted, adjusted - start, total);
  }

  /**
   * `adjusted` lies `elapsed` seconds into its interval, whose last second
   * comes `total` seconds after its first.
   */
  ghost predicate InInterval(mode: Mode, adjusted: int, elapsed: int, total: int) {
    var start := IntervalStart(mode, adjusted);
    adjusted - start == elapsed && IntervalEnd(mode, start) - start == total
  }

  /** The progress is the percentage `elapsed` is of `total` when those are the time since the start and the span. */
  lemma ProgressFrom(mode: Mode, adjusted: int, elapsed: int, total: int)
    requires InInterval(mode, adjusted, elapsed, total)
    ensures 0 <= elapsed <= total && 0 < total && ProgressAt(mode, adjusted) == Percentage(elapsed, total)
  {
    IntervalRange(mode, adjusted, elapsed, total);
  }

  /** The time since an interval's start is at most its span, and the span is positive. */
  lemma IntervalRange(mode: Mode, adjusted: int, elapsed: int, total: int)
    requires InInterval(mode, adjusted, elapsed, total)
    ensures 0 <= elapsed <= total && 0 < total
  {
    IntervalBounds(mode, adjusted);
  }

  /** Within one interval the progress never goes down as the shifted instant advances. */
  lemma ProgressAtMonotone(mode: Mode, a1: int, a2: int, start: int, e1: int, e2: int, total: int)
    requires a1 <= a2 && start == IntervalStart(mode, a1) == IntervalStart(mode, a2)
    requires e1 == a1 - start && e2 == a2 - start && total == IntervalEnd(mode, start) - start
    ensures ProgressAt(mode, a1) <= ProgressAt(mode, a2)
  {
    ProgressFrom(mode, a1, e1, total);
    ProgressFrom(mode, a2, e2, total);
    PercentageMonotone(e1, e2, total);
  }

  /** Within one interval the progress never goes down as `now` advances. */
  lemma ProgressMonotone(mode: Mode, now1: int, now2: int, dayStart: int)
    requires now1 <= now2
    requires IntervalStart(mode, AdjustedNow(now1, dayStart)) == IntervalStart(mode, AdjustedNow(now2, dayStart))
    ensures Progress(mode, now1, dayStart) <= Progress(mode, now2, dayStart)
  {
    var a1, a2 := AdjustedNow(now1, dayStart), AdjustedNow(now2, dayStart);
    var start := IntervalStart(mode, a1);
    ProgressAtMonotone(mode, a1, a2, start, a1 - start, a2 - start, IntervalEnd(mode, start) - start);
  }

  /** A day start of `h` hours gives the progress of `now` moved back `h` hours with a midnight day start. */
  lemma DayStartShift(mode: Mode, now: int, dayStart: int)
    ensures Progress(mode, now, dayStart) == Progress(mode, now - dayStart * 3600, 0)
  {
    assert AdjustedNow(now, dayStart) == AdjustedNow(now - dayStart * 3600, 0);
  }

  /** At a date and second, the interval starts on the truncated date and has that date's unit length. */
  lemma IntervalOfDate(mode: Mode, d: G.Date, second: int, adjusted: int)
    requires G.IsValidDate(d) && 0 <= second < 86400 && adjusted == G.Midnight(G.DayNumber(d)) + second
    ensures IntervalStart(mode, adjusted) == G.Midnight(G.DayNumber(Truncate(mode, d)))
    ensures UnitDays(mode, G.DateOf(adjusted)) == UnitDays(mode, d)
  {
    G.DateOfInstant(d, second);
    StartIsTruncation(mode, adjusted);
  }

  /**
   * At a date and second, the time since the interval's first day and the span
   * come from the calendar: `elapsed` and `total` name those two numbers.
   */
  lemma DateInInterval(mode: Mode, d: G.Date, second: int, adjusted: int, elapsed: int, total: int)
    requires G.IsValidDate(d) && 0 <= second < 86400 && adjusted == G.Midnight(G.DayNumber(d)) + second
    requires elapsed == (G.DayNumber(d) - G.DayNumber(Truncate(mode, d))) * 86400 + second
    requires total == UnitDays(mode, d) * 86400 - 1
    ensures InInterval(mode, adjusted, elapsed, total)
  {
    IntervalOfDate(mode, d, second, adjusted);
    TotalIsCalendarLength(mode, adjusted);
    var start := IntervalStart(mode, adjusted);
    SecondsBetween(G.DayNumber(d), G.DayNumber(Truncate(mode, d)), second, adjusted, start, elapsed);
    assert IntervalEnd(mode, start) - start == total;
  }

  /** An instant `second` seconds into day `day` lies that far, plus whole days, after midnight of day `first`. */
  lemma SecondsBetween(day: int, first: int, second: int, adjusted: int, start: int, elapsed: int)
    requires adjusted == G.Midnight(day) + second && start == G.Midnight(first)
    requires elapsed == (day - first) * 86400 + second
    ensures adjusted - start == elapsed
  {
  }

  /** At a date and second, the progress is the percentage of the seconds since the interval's first day. */
  lemma ProgressAtDate(mode: Mode, d: G.Date, second: int, adjusted: int, elapsed: int, total: int)
    requires G.IsValidDate(d) && 0 <= second < 86400 && adjusted == G.Midnight(G.DayNumber(d)) + second
    requires elapsed == (G.DayNumber(d) - G.DayNumber(Truncate(mode, d))) * 86400 + second
    requires total == UnitDays(mode, d) * 86400 - 1
    ensures 0 <= elapsed <= total && 0 < total
    ensures ProgressAt(mode, adjusted) == Percentage(elapsed, total)
  {
    DateInInterval(mode, d, second, adjusted, elapsed, total);
    ProgressFrom(mode, adjusted, elapsed, total);
  }

  /** The progress of a wall-clock time: the seconds since the interval's first day over its length minus one. */
  lemma ProgressOfDate(mode: Mode, d: G.Date, second: int, dayStart: int, now: int, elapsed: int, total: int)
    requires G.IsValidDate(d) && 0 <= second < 86400
    requires now == G.Midnight(G.DayNumber(d)) + second + dayStart * 3600
    requires elapsed == (G.DayNumber(d) - G.DayNumber(Truncate(mode, d))) * 86400 + second
    requires total == UnitDays(mode, d) * 86400 - 1
    ensures 0 <= elapsed <= total && 0 < total
    ensures Progress(mode, now, dayStart) == Percentage(elapsed, total)
  {
    assert AdjustedNow(now, dayStart) == G.Midnight(G.DayNumber(d)) + second;
    ProgressAtDate(mode, d, second, AdjustedNow(now, dayStart), elapsed, total);
  }

  /** Midnight starting February 15 is 14 days into February. */
  lemma MidFebruary(y: int)
    ensures Progress(Month, G.Midnight(G.DayNumber(G.Date(y, 2, 15))), 0) ==
              Percentage(14 * 86400, G.DaysInMonth(y, 2) * 86400 - 1)
  {
    FebruaryFifteenthDate(y);
    ProgressOfDate(Month, G.Date(y, 2, 15), 0, 0, G.Midnight(G.DayNumber(G.Date(y, 2, 15))), 14 * 86400, G.DaysInMonth(y, 2) * 86400 - 1);
  }

  /** February 15 is a date, fourteen days after the first of its month. */
  lemma FebruaryFifteenthDate(y: int)
    ensures G.IsValidDate(G.Date(y, 2, 15))
    ensures G.DayNumber(G.Date(y, 2, 15)) - G.DayNumber(Truncate(Month, G.Date(y, 2, 15))) == 14
  {
  }

  /** Fourteen days are 50% of a 28-day month and 48% of a 29-day one, each less a second. */
  lemma FebruaryPercentages()
    ensures Percentage(14 * 86400, 28 * 86400 - 1) == 50
    ensures Percentage(14 * 86400, 29 * 86400 - 1) == 48
  {
    Arith.DivUnique(14 * 86400 * 100, 28 * 86400 - 1, 50);
    Arith.DivUnique(14 * 86400 * 100, 29 * 86400 - 1, 48);
  }

  /** Midnight starting February 15 is 50% through a common February and 48% through a leap one. */
  lemma FebruaryFifteenth(y: int)
    ensures Progress(Month, G.Midnight(G.DayNumber(G.Date(y, 2, 15))), 0) == if G.IsLeapYear(y) then 48 else 50
  {
    MidFebruary(y);
    FebruaryPercentages();
  }

  /** January 1 at the day-start hour is 0% of the year. */
  lemma YearStartsAtZero(y: int, dayStart: int)
    ensures Progress(Year, G.Midnight(G.DayNumber(G.Date(y, 1, 1))) + dayStart * 3600, dayStart) == 0
  {
    PercentageEnds(0, G.DaysInYear(y) * 86400 - 1);
    ProgressOfDate(Year, G.Date(y, 1, 1), 0, dayStart, G.Midnight(G.DayNumber(G.Date(y, 1, 1))) + dayStart * 3600, 0, G.DaysInYear(y) * 86400 - 1);
  }

  /** December 31 at 23:59:59 after the day-start hour is 100% of the year. */
  lemma YearEndsAtHundred(y: int, dayStart: int)
    ensures Progress(Year, G.Midnight(G.DayNumber(G.Date(y, 12, 31))) + 86399 + dayStart * 3600, dayStart) == 100
  {
    var total := G.DaysInYear(y) * 86400 - 1;
    LastDayOfYear(y);
    PercentageEnds(total, total);
    ProgressOfDate(Year, G.Date(y, 12, 31), 86399, dayStart, G.Midnight(G.DayNumber(G.Date(y, 12, 31))) + 86399 + dayStart * 3600, total, total);
  }

  /** December 31 is the last day of its year. */
  lemma LastDayOfYear(y: int)
    ensures G.DayNumber(G.Date(y, 12, 31)) - G.DayNumber(G.Date(y, 1, 1)) == G.DaysInYear(y) - 1
  {
    G.MonthLength(y, 12);
    G.MonthsMakeYear(y);
  }

  /** January 1 at the day-start hour is 0% of the year; the second before the next January 1 is 100%. */
  lemma YearRollover(y: int, dayStart: int)
    ensures Progress(Year, G.Midnight(G.DayNumber(G.Date(y, 1, 1))) + dayStart * 3600, dayStart) == 0
    ensures Progress(Year, G.Midnight(G.DayNumber(G.Date(y, 12, 31))) + 86399 + dayStart * 3600, dayStart) == 100
  {
    YearStartsAtZero(y, dayStart);
    YearEndsAtHundred(y, dayStart);
  }

  // ---- Facts about the percentage ----

  lemma PercentageBounds(elapsed: int, total: int)
    requires 0 <= elapsed <= total && 0 < total
    ensures var p := (elapsed * 100) / total;
            0 <= p <= 100 && (elapsed == 0 ==> p == 0) && (p == 100 <==> elapsed == total)
  {
    var x, p := elapsed * 100, (elapsed * 100) / total;
    assert p * total <= x < p * total + total;
    if p < 0 {
      Arith.MulMonotone(p + 1, 0, total);
    }
    if p > 100 || (p == 100 && elapsed < total) {
      Arith.MulMonotone(100, p, total);
    }
    if elapsed == total {
      Arith.DivUnique(x, total, 100);
    }
    if elapsed == 0 {
      Arith.DivUnique(x, total, 0);
    }
  }

  /** No time elapsed is 0%; the whole span, and only it, is 100%. */
  lemma PercentageEnds(elapsed: int, total: int)
    requires 0 <= elapsed <= total && 0 < total
    ensures elapsed == 0 ==> Percentage(elapsed, total) == 0
    ensures Percentage(elapsed, total) == 100 <==> elapsed == total
  {
    PercentageBounds(elapsed, total);
  }

  lemma PercentageMonotone(e1: int, e2: int, total: int)
    requires 0 <= e1 <= e2 <= total && 0 < total
    ensures Percentage(e1, total) <= Percentage(e2, total)
  {
    var p1, p2 := Percentage(e1, total), Percentage(e2, total);
    assert p1 * total <= e1 * 100 && e2 * 100 < p2 * total + total;
    if p2 < p1 {
      Arith.MulMonotone(p2 + 1, p1, total);
    }
  }
}
