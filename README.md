# DayBattery in Dafny

DayBattery is a macOS menu-bar app. It shows how far the current day, month or
year has progressed, as a percentage, in one of three label formats. The day
may be set to start at a chosen hour. This project models the app's core and
proves properties of the model:

- **Wrappers** (`wrappers.dfy`) and **Arithmetic** (`arithmetic.dfy`): an
  `Option` type, and two facts about multiplication and division.
- **Modes** (`modes.dfy`): `Mode` and `Format` and their integer raw values.
- **Gregorian** (`gregorian.dfy`): a proleptic Gregorian calendar in one
  fixed time zone without daylight saving. It stands in for `Calendar.current`.
  - An instant is a whole number of seconds since 1970-01-01 00:00 local time.
  - A day number counts days since that date.
  - It provides `dateComponents`, `date(from:)` and `date(byAdding:value:to:)`
    in the forms the app uses them. Adding months clamps the day to the
    target month's length; adding a year adds twelve months.
- **ProgressEngine** (`progress_engine.dfy`): `progress(forMode:)`. The
  current instant and the day-start hour are parameters. The proofs show:
  - the interval start is the truncation of the shifted instant to the
    mode's fields;
  - the instant lies in [start, start + one unit);
  - the total is the unit's calendar length minus one second;
  - the percentage lies in [0, 100], is 0 at the start, is 100 exactly in the
    final second, and never decreases within an interval.
- **Decimal** (`decimal.dfy`): the `%d` rendering of an integer, as
  section 7.21.6.1 of ISO C describes it, with a parser that inverts it.
- **Labels** (`labels.dfy`): `name(forMode:)` and
  `text(forMode:progress:withFormat:)`, which produce `"42%"`, `"D: 42%"` and
  `"Day: 42%"`.
- **Settings** (`settings.dfy`): the app delegate's stored state as a class.
  - Its fields are the three settings, a `map<string, int>` standing for the
    user-defaults store, and the three menu items' check marks.
  - Each property observer is a method.
  - Launch is a constructor that decodes the stored integers.
  - The proofs show that exactly the current mode's item is checked and that
    each setter writes only its own key.

On a first launch nothing is stored, and `UserDefaults.integer(forKey:)` reads a
missing key as 0. One might expect an unset format to fall back to long, but
`Format(rawValue: 0)` is percent. So a first launch shows the percent format,
and only an out-of-range stored value gives long. The model follows the code,
and `Settings.FirstLaunch` proves this.

Everything is a function of its inputs, so `progress(forMode:)` is
deterministic in the instant, the mode and the day-start hour by construction.

The result does reach 100. One might expect it to stay in [0, 99], with
December 31 23:59:59 giving 99, and the model follows the code instead. The
code puts the end of the interval one second before the next start, and it
divides the elapsed time by that shortened total. So the whole final second of
every interval gives 100. `ProgressFullOnlyAtEnd` and `YearRollover` prove
this.

## Model

| member | source | states |
|---|---|---|
| Modes.Format.FromRaw | DayBattery/AppDelegate.swift:16-20 | `Format(rawValue:)` succeeds exactly for 0, 1 and 2, and then yields the case with that raw value |
| Modes.Format.RawValue | DayBattery/AppDelegate.swift:16-20 | a format's raw value is its ordinal 0, 1 or 2; FormatRawRoundTrip shows `Format(rawValue:)` inverts it |
| Modes.FormatRawRoundTrip | DayBattery/AppDelegate.swift:16-20 | decoding a format's raw value gives that format back |
| Modes.Mode.FromRaw | DayBattery/AppDelegate.swift:26-30 | `Mode(rawValue:)` succeeds exactly for 0, 1 and 2, and then yields the case with that raw value |
| Modes.Mode.RawValue | DayBattery/AppDelegate.swift:26-30 | a mode's raw value is its ordinal 0, 1 or 2; ModeRawRoundTrip shows `Mode(rawValue:)` inverts it |
| Modes.ModeRawRoundTrip | DayBattery/AppDelegate.swift:26-30 | decoding a mode's raw value gives that mode back |
| Gregorian.YearOf | DayBattery/AppDelegate.swift:165 | the year found for a day lies between that year's first day and the next year's first day |
| Gregorian.YearNear | DayBattery/AppDelegate.swift:165 | from a year estimate that is at most one year off, it finds the year holding the day |
| Gregorian.YearUnique | DayBattery/AppDelegate.swift:165 | only one year brackets a given day |
| Gregorian.MonthOf | DayBattery/AppDelegate.swift:165 | the month found for a day of the year lies between that month's first day and the next month's |
| Gregorian.MonthUnique | DayBattery/AppDelegate.swift:165 | only one month brackets a given day of the year |
| Gregorian.DaysBeforeMonthMonotone | DayBattery/AppDelegate.swift:165 | every month has at least 28 days, so later months start later |
| Gregorian.MonthLength | DayBattery/AppDelegate.swift:165 | consecutive month starts are that month's length apart |
| Gregorian.YearLength | DayBattery/AppDelegate.swift:165-167 | consecutive January firsts are 365 days apart, or 366 in a leap year |
| Gregorian.LeapDivisibility | DayBattery/AppDelegate.swift:165 | a multiple of 400 is a multiple of 100, and a multiple of 100 is a multiple of 4 |
| Gregorian.MultipleCrossing | DayBattery/AppDelegate.swift:165 | the count of multiples of k goes up by one from year y - 1 to year y exactly when k divides y |
| Gregorian.YearStartBounds | DayBattery/AppDelegate.swift:165 | the first day of year y lies within a few days of y times the average year length of 146097/400 days |
| Gregorian.MonthsMakeYear | DayBattery/AppDelegate.swift:165-167 | the twelve month lengths sum to the year's length |
| Gregorian.DateExists | DayBattery/AppDelegate.swift:165 | every day number is the day number of some valid date |
| Gregorian.DateInYear | DayBattery/AppDelegate.swift:165 | a valid date's day lies within its own year and its own month |
| Gregorian.DateOfDay | DayBattery/AppDelegate.swift:165 | reading the fields of a day gives a valid date with that day number |
| Gregorian.DayNumberInjective | DayBattery/AppDelegate.swift:165 | different valid dates have different day numbers |
| Gregorian.DateOfDayNumber | DayBattery/AppDelegate.swift:165 | reading the fields of a valid date's day number gives back that date |
| Gregorian.InstantOnItsDate | DayBattery/AppDelegate.swift:165 | an instant lies in the day that its date reading names |
| Gregorian.DateOfInstant | DayBattery/AppDelegate.swift:165 | an instant given as a date and a second of the day reads back as that date and second |
| Gregorian.ComponentsOf | DayBattery/AppDelegate.swift:165 | `dateComponents` fills exactly the requested fields |
| Gregorian.DateFrom | DayBattery/AppDelegate.swift:166 | `date(from:)` always gives a midnight |
| Gregorian.DateFromFields | DayBattery/AppDelegate.swift:166 | `date(from:)` on in-range fields gives midnight of that date, with an absent month or day taken as 1 |
| Gregorian.AddMonths | DayBattery/AppDelegate.swift:167 | month addition with the day clamped: AddOneMonth shows one month after the first of a month is the first of the next, across year ends, that month's length later |
| Gregorian.Adding | DayBattery/AppDelegate.swift:164-168 | `date(byAdding:value:to:)`: AddOneMonth and AddOneYear give the month and year steps; AdjustedNow and IntervalEnd show an hour is 3600 seconds and a second is one |
| Gregorian.AddOneMonth | DayBattery/AppDelegate.swift:167 | one month after midnight on the first of a month is midnight on the first of the next month, even across a year boundary, and they are that month's length apart |
| Gregorian.AddOneYear | DayBattery/AppDelegate.swift:167 | one year after midnight on January 1 is midnight on the next January 1, the year's length later |
| Gregorian.DateWithinUnits | DayBattery/AppDelegate.swift:165-167 | a valid date lies within its month and within its year |
| ProgressEngine.UnitMatchesFields | DayBattery/AppDelegate.swift:177-198 | the unit `nextComponent` adds is the finest of the fields `components` keeps |
| ProgressEngine.Components | DayBattery/AppDelegate.swift:177-186 | the fields always include the year, are only date fields, and never the day without the month |
| ProgressEngine.NextComponent | DayBattery/AppDelegate.swift:189-198 | the unit added is one of the fields `components` keeps; UnitMatchesFields shows it is the finest |
| ProgressEngine.AdjustedNow | DayBattery/AppDelegate.swift:164 | the shifted instant is `dayStart` hours before `now` |
| ProgressEngine.IntervalStart | DayBattery/AppDelegate.swift:165-166 | StartIsTruncation: midnight of the shifted date truncated to the mode's fields; IntervalBounds: at or before the shifted instant |
| ProgressEngine.IntervalNext | DayBattery/AppDelegate.swift:167 | NextIsOneUnitLater: the following day, first of month or January 1; IntervalBounds: after the shifted instant |
| ProgressEngine.IntervalEnd | DayBattery/AppDelegate.swift:168 | the end is one second before the next start |
| ProgressEngine.StartIsTruncation | DayBattery/AppDelegate.swift:164-166 | the interval start is midnight of the shifted instant's date truncated to the mode's fields |
| ProgressEngine.NextIsOneUnitLater | DayBattery/AppDelegate.swift:167 | the next start is the following day, first of month or January 1, one calendar unit of days later |
| ProgressEngine.IntervalBounds | DayBattery/AppDelegate.swift:164-167 | start <= shifted instant < next start, and next start - start is the unit's length in seconds |
| ProgressEngine.InsideHasSameStart | DayBattery/AppDelegate.swift:164-167 | every instant from an interval's start up to its next start truncates to that start |
| ProgressEngine.SameInterval | DayBattery/AppDelegate.swift:164-167 | two instants truncate to the same start if and only if the second lies in the first's interval |
| ProgressEngine.NextStartsNewInterval | DayBattery/AppDelegate.swift:167 | the next start truncates to itself, so it opens the following interval |
| ProgressEngine.TotalIsCalendarLength | DayBattery/AppDelegate.swift:167-171 | the total is the unit's calendar length in seconds minus one |
| ProgressEngine.FebruaryTotal | DayBattery/AppDelegate.swift:167-171 | February's total is 28·86400−1 seconds in a common year and 29·86400−1 in a leap year |
| ProgressEngine.YearTotal | DayBattery/AppDelegate.swift:167-171 | a year's total is 365 or 366 days, minus one second |
| ProgressEngine.Percentage | DayBattery/AppDelegate.swift:172-173 | the truncated percentage lies in [0, 100] |
| ProgressEngine.PercentageBounds | DayBattery/AppDelegate.swift:172-173 | `(elapsed * 100) / total` lies in [0, 100], is 0 when nothing has elapsed, and is 100 exactly when all of the total has elapsed |
| ProgressEngine.PercentageEnds | DayBattery/AppDelegate.swift:172-173 | the percentage is 0 when nothing has elapsed, and is 100 if and only if all of the total has elapsed |
| ProgressEngine.PercentageMonotone | DayBattery/AppDelegate.swift:170-173 | more elapsed time never gives a smaller percentage |
| ProgressEngine.ProgressAt | DayBattery/AppDelegate.swift:165-173 | the progress of a shifted instant lies in [0, 100] |
| ProgressEngine.Progress | DayBattery/AppDelegate.swift:161-174 | `progress(forMode:)` lies in [0, 100] |
| ProgressEngine.ProgressIs | DayBattery/AppDelegate.swift:165-173 | the progress is the percentage of the time since the start, out of the unit's length minus one second |
| ProgressEngine.ProgressFrom | DayBattery/AppDelegate.swift:165-173 | when `elapsed` and `total` are the time since the start and the end minus the start, they are in range and the progress is their percentage |
| ProgressEngine.IntervalRange | DayBattery/AppDelegate.swift:165-171 | the time since the interval start lies between 0 and the total, and the total is positive |
| ProgressEngine.ProgressZeroAtStart | DayBattery/AppDelegate.swift:170-173 | the progress is 0 when the shifted instant is the interval start |
| ProgressEngine.ProgressFullOnlyAtEnd | DayBattery/AppDelegate.swift:168-173 | the progress is 100 if and only if the shifted instant is the interval's last second |
| ProgressEngine.ProgressAtMonotone | DayBattery/AppDelegate.swift:165-173 | within one interval, a later shifted instant never gives a smaller progress, given its start, offsets and total |
| ProgressEngine.ProgressMonotone | DayBattery/AppDelegate.swift:161-173 | within one interval, a later instant never gives a smaller progress |
| ProgressEngine.DayStartShift | DayBattery/AppDelegate.swift:164 | a day start of h hours gives the progress of the instant h hours earlier with a midnight day start |
| ProgressEngine.IntervalOfDate | DayBattery/AppDelegate.swift:165-167 | at a date and second, the interval starts at midnight of the truncated date and spans that date's unit |
| ProgressEngine.DateInInterval | DayBattery/AppDelegate.swift:165-171 | at a date and second, the time since the start is the days since the truncated date plus the second, and the total is the unit's days in seconds minus one |
| ProgressEngine.ProgressAtDate | DayBattery/AppDelegate.swift:165-173 | at a date and second, the progress is the percentage of the seconds since the interval's first day |
| ProgressEngine.ProgressOfDate | DayBattery/AppDelegate.swift:161-173 | the same as ProgressAtDate, for a wall-clock instant and any day-start hour |
| ProgressEngine.MidFebruary | DayBattery/AppDelegate.swift:161-173 | midnight starting February 15 is 14 days into a February of 28 or 29 days |
| ProgressEngine.FebruaryPercentages | DayBattery/AppDelegate.swift:172-173 | fourteen days are 50% of a 28-day span less one second and 48% of a 29-day one |
| ProgressEngine.FebruaryFifteenth | DayBattery/AppDelegate.swift:161-173 | that midnight is 50% through February 2023 and 48% through February 2024 |
| ProgressEngine.YearStartsAtZero | DayBattery/AppDelegate.swift:161-173 | January 1 at the day-start hour is 0% of the year |
| ProgressEngine.LastDayOfYear | DayBattery/AppDelegate.swift:165-167 | December 31 is the year's length minus one days after January 1 |
| ProgressEngine.YearEndsAtHundred | DayBattery/AppDelegate.swift:161-173 | 23:59:59 on December 31, shifted by the day-start hour, is 100% of the year |
| ProgressEngine.YearRollover | DayBattery/AppDelegate.swift:161-173 | January 1 at the day-start hour is 0% of the year, and the second before the next January 1 is 100% |
| Decimal.DigitChar | DayBattery/AppDelegate.swift:140 | a digit value renders as a digit character |
| Decimal.DigitValue | DayBattery/AppDelegate.swift:140 | a digit character has a single digit value, and rendering that value gives the character back |
| Decimal.Digits | DayBattery/AppDelegate.swift:140 | the digits are non-empty, have no leading zero, and are one digit long exactly below 10 |
| Decimal.ValueAppend | DayBattery/AppDelegate.swift:140 | appending a digit multiplies the value by ten and adds the digit |
| Decimal.ValueOfDigits | DayBattery/AppDelegate.swift:140 | reading back the digits of a number gives the number |
| Decimal.FormatInt | DayBattery/AppDelegate.swift:140 | `%d` puts a minus sign exactly before negative numbers, followed by digits |
| Decimal.ParseInt | DayBattery/AppDelegate.swift:140 | not a source operation but the partner of the `%d` rendering: a string it accepts is non-empty, and ParseFormat shows it inverts FormatInt |
| Decimal.ParseFormat | DayBattery/AppDelegate.swift:140 | parsing the `%d` rendering of a number gives the number back |
| Decimal.FormatIntInjective | DayBattery/AppDelegate.swift:140 | different numbers render differently |
| Decimal.FormatIntPlain | DayBattery/AppDelegate.swift:140-144 | a rendering contains no ':', '%' or space, so it cannot be confused with the label's punctuation |
| Decimal.DigitsExamples | DayBattery/AppDelegate.swift:140 | 0, 7, 42, 100 and −5 render as "0", "7", "42", "100" and "-5" |
| Labels.Name | DayBattery/AppDelegate.swift:149-158 | a mode's name is 3 to 5 letters long |
| Labels.Initial | DayBattery/AppDelegate.swift:142 | the initial is a capital letter that begins the mode's name; the short format puts it before ": " (TextShape) |
| Labels.Text | DayBattery/AppDelegate.swift:136-146 | a label ends in '%', and its length is the number's length plus 1, 4, or the name's length plus 3 |
| Labels.TextShape | DayBattery/AppDelegate.swift:139-144 | percent: the number then '%'; short: the initial, ": ", the number, '%'; long: the full name, ": ", the number, '%' |
| Labels.Pieces | DayBattery/AppDelegate.swift:139-144 | a label splits back into its prefix, separator and number |
| Labels.Initials | DayBattery/AppDelegate.swift:142-158 | short labels start with 'D', 'M' or 'Y' |
| Labels.InitialsDistinct | DayBattery/AppDelegate.swift:142-158 | two modes have the same initial if and only if they are the same mode |
| Labels.ColonPosition | DayBattery/AppDelegate.swift:139-144 | a label has no ':' if and only if it is a percent label; otherwise its first ':' comes right after the initial or the name |
| Labels.TextInjective | DayBattery/AppDelegate.swift:136-158 | a label determines its number, and also its mode unless it is a percent label |
| Labels.TextExamples | DayBattery/AppDelegate.swift:136-158 | sample labels "42%", "D: 42%", "M: 7%", "Year: 100%" and "Month: 0%" |
| Settings.DecodeMode | DayBattery/AppDelegate.swift:81-82 | a stored 0, 1 or 2 decodes to the mode with that raw value; anything else decodes to day |
| Settings.DecodeFormat | DayBattery/AppDelegate.swift:83-84 | a stored 0, 1 or 2 decodes to the format with that raw value; anything else decodes to long |
| Wrappers.Option.GetOr | DayBattery/AppDelegate.swift:82-84 | Swift's `??`: DecodeMode and DecodeFormat show the fallback is taken exactly for out-of-range raw values |
| Settings.DecodeStored | DayBattery/AppDelegate.swift:81-84 | a stored raw value decodes back to the mode or format that was stored |
| Settings.LaunchedDefaults | DayBattery/AppDelegate.swift:81-85 | launch writes the three settings keys and leaves every other key as it was |
| Settings.LaunchIdempotent | DayBattery/AppDelegate.swift:81-85 | after one launch the stored mode and format are in range, and launching again leaves the store unchanged |
| Settings.StoredInteger | DayBattery/AppDelegate.swift:81-85 | `UserDefaults.integer(forKey:)`: FirstLaunch shows a missing key reads as 0 |
| Settings.FirstLaunch | DayBattery/AppDelegate.swift:81-85 | with nothing stored, launch gives the day mode, the percent format and a midnight day start, and stores 0 under all three keys |
| Settings.AppDelegate.OneItemChecked | DayBattery/AppDelegate.swift:46-56 | when the check marks match the mode, exactly one item is checked |
| Settings.AppDelegate.Launch | DayBattery/AppDelegate.swift:81-85 | launch decodes each stored setting, takes the day-start hour unvalidated, and leaves the store holding the decoded settings with the checked item matching the mode |
| Settings.AppDelegate.SetMode | DayBattery/AppDelegate.swift:43-59 | assigning the mode stores its raw value under "selectedMode" and changes no other key, checks exactly the mode's item, and leaves format and day start alone |
| Settings.AppDelegate.SetFormat | DayBattery/AppDelegate.swift:61-66 | assigning the format stores its raw value under "selectedFormat" only and changes nothing else |
| Settings.AppDelegate.SetDayStart | DayBattery/AppDelegate.swift:68-73 | assigning the day start stores it under "selectedDayStart" only and changes nothing else |
| Settings.AppDelegate.Titles | DayBattery/AppDelegate.swift:91-99 | the titles `tick()` sets: StatusShowsCheckedItem and StatusTellsMode relate the status title to the checked item and the mode |
| Settings.AppDelegate.StatusShowsCheckedItem | DayBattery/AppDelegate.swift:91-99 | in the long format the status-bar title equals the checked item's title |
| Settings.AppDelegate.StatusTellsMode | DayBattery/AppDelegate.swift:99 | outside the percent format, the status-bar title differs from the label of any other mode with the same progress |

## Left out

- Dates before the switch from the Julian calendar on 1582-10-15, and Foundation's
  counting of years by era, are not compared with Foundation. The model's
  calendar is proleptic Gregorian for every year, and lemmas such as
  `FebruaryFifteenth` hold for all of them.
- `Gregorian.DateOfDay` picks the date of a day number by `:|`. So the engine
  (`DateOf`, `ComponentsOf`, `Progress`, `Titles`) is ghost and is not
  compiled. `DateExists` shows how to build the date from `YearOf` and `MonthOf`.
  Giving that construction as the body would expose the calendar arithmetic to
  every proof about the engine.

- `Calendar.current`'s time zone, daylight saving and locale are not modelled.
  The calendar is a fixed-zone proleptic Gregorian one, because the real
  calendar is foreign code.
- The `guard … else { return 0 }` paths of `progress(forMode:)` are left out.
  The model's calendar cannot fail, so those branches cannot be reached.
- `Date()` is not modelled. The instant is a parameter, and so is
  `currentDayStart` where the engine reads it.
- The Double division and `Int(Double)` conversion are left out. The model
  uses integer seconds and `(elapsed * 100) / total` truncated. Sub-second
  instants and floating-point rounding are not modelled.
- Decimal.FormatInt: renders any integer and does not model the 32-bit
  argument width that `%d` expects. The progress passed to it is proved to lie
  in [0, 100].
- Swift's 64-bit `Int` overflow is not modelled. Integers are unbounded.
- Gregorian.DateFrom: an absent year is taken as 1. No mode leaves the year
  out, so this case is never exercised and is not compared with Foundation.
- The repeating `Timer` and the redisplay that `tick()` performs are left out.
  The titles `tick()` would compute are the ghost function
  `Settings.AppDelegate.Titles`. The setters do not store titles, so
  `tick()`'s effect after each assignment is not part of the state.
- The menu items' check marks before launch come from the nib and are
  unknown. The constructor starts them all unchecked; the observer then sets
  them.
- The status item, menu wiring, `changeMode`'s dispatch on the sender,
  `openPreferences`, `quit` and the preferences-window callbacks are AppKit
  plumbing and are left out. Each of `changeMode` and the two callbacks only
  assigns through one of the modelled setters.
- `DayBattery/PreferencesWindowController.swift` is not part of this model. It
  is window code without computed results.
- `UserDefaults` persistence across runs is not modelled. The store is an
  in-memory map from keys to integers.
