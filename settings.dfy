/**
 * The application state behind the menu: the selected mode, format and
 * day-start hour, the user-defaults store they are written to, and the
 * check marks of the three mode items.
 */
module Settings {
  import opened Modes
  import L = Labels
  import E = ProgressEngine

  const ModeKey: string := "selectedMode"
  const FormatKey: string := "selectedFormat"
  const DayStartKey: string := "selectedDayStart"

  /** Models `UserDefaults.integer(forKey:)`: the stored integer, or 0 for a missing key. */
  function StoredInteger(store: map<string, int>, key: string): int {
    if key in store then store[key] else 0
  }

  /** Models `Mode(rawValue:) ?? .day`. */
  function DecodeMode(raw: int): (m: Mode)
    ensures 0 <= raw <= 2 ==> m.RawValue() == raw
    ensures !(0 <= raw <= 2) ==> m == Day
  {
    Mode.FromRaw(raw).GetOr(Day)
  }

  /** Models `Format(rawValue:) ?? .long`. */
  function DecodeFormat(raw: int): (f: Format)
    ensures 0 <= raw <= 2 ==> f.RawValue() == raw
    ensures !(0 <= raw <= 2) ==> f == Long
  {
    Format.FromRaw(raw).GetOr(Long)
  }

  /** Decoding a stored raw value gives back the mode or format that was stored. */
  lemma DecodeStored(m: Mode, f: Format)
    ensures DecodeMode(m.RawValue()) == m && DecodeFormat(f.RawValue()) == f
  {
    ModeRawRoundTrip(m);
    FormatRawRoundTrip(f);
  }

  /** The store as launch leaves it: each setting decoded and written back. */
  function LaunchedDefaults(store: map<string, int>): (s: map<string, int>)
    ensures s.Keys == store.Keys + {ModeKey, FormatKey, DayStartKey}
    ensures forall k :: k in store && k !in {ModeKey, FormatKey, DayStartKey} ==> s[k] == store[k]
  {
    store[ModeKey := DecodeMode(StoredInteger(store, ModeKey)).RawValue()]
         [FormatKey := DecodeFormat(StoredInteger(store, FormatKey)).RawValue()]
         [DayStartKey := StoredInteger(store, DayStartKey)]
  }

  /** After one launch every setting is stored in range, so a second launch changes nothing. */
  lemma LaunchIdempotent(store: map<string, int>)
    ensures var s := LaunchedDefaults(store);
            0 <= s[ModeKey] <= 2 && 0 <= s[FormatKey] <= 2 &&
            LaunchedDefaults(s) == s
  {
    var s := LaunchedDefaults(store);
    DecodeStored(DecodeMode(StoredInteger(store, ModeKey)), DecodeFormat(StoredInteger(store, FormatKey)));
    assert StoredInteger(s, ModeKey) == s[ModeKey];
    assert StoredInteger(s, FormatKey) == s[FormatKey];
  }

  /**
   * On a first launch nothing is stored, and a missing key reads as 0: the
   * mode is day, the format is percent (not the out-of-range fallback long),
   * and the day starts at midnight.
   */
  lemma FirstLaunch()
    ensures DecodeMode(StoredInteger(map[], ModeKey)) == Day
    ensures DecodeFormat(StoredInteger(map[], FormatKey)) == Percent
    ensures StoredInteger(map[], DayStartKey) == 0
    ensures LaunchedDefaults(map[]) == map[ModeKey := 0, FormatKey := 0, DayStartKey := 0]
  {
  }

  /** The four titles `tick()` shows: the three menu items and the status bar. */
  datatype MenuTitles = MenuTitles(day: string, month: string, year: string, status: string)

  class AppDelegate {
    var currentMode: Mode
    var currentFormat: Format
    var currentDayStart: int
    /** The user-defaults store. */
    var defaults: map<string, int>
    /** Whether the day, month and year menu items carry a check mark. */
    var dayItemOn: bool
    var monthItemOn: bool
    var yearItemOn: bool

    /** The checked item is the one for the current mode, and it alone is checked. */
    predicate MenuMatchesMode()
      reads this
    {
      dayItemOn == (currentMode == Day) && monthItemOn == (currentMode == Month) && yearItemOn == (currentMode == Year)
    }

    /** The store holds the current mode, format and day start. */
    predicate Persisted()
      reads this
    {
      ModeKey in defaults && defaults[ModeKey] == currentMode.RawValue() &&
      FormatKey in defaults && defaults[FormatKey] == currentFormat.RawValue() &&
      DayStartKey in defaults && defaults[DayStartKey] == currentDayStart
    }

    function CheckedCount(): (n: nat)
      reads this
    {
      (if dayItemOn then 1 else 0) + (if monthItemOn then 1 else 0) + (if yearItemOn then 1 else 0)
    }

    /** When the menu matches the mode exactly one item is checked. */
    lemma OneItemChecked()
      requires MenuMatchesMode()
      ensures CheckedCount() == 1
    {
    }

    /** Models launch (DayBattery/AppDelegate.swift, lines 81-85): read and decode each stored setting, then assign it through its observer. */
    constructor Launch(store: map<string, int>)
      ensures currentMode == DecodeMode(StoredInteger(store, ModeKey))
      ensures currentFormat == DecodeFormat(StoredInteger(store, FormatKey))
      ensures currentDayStart == StoredInteger(store, DayStartKey)
      ensures defaults == LaunchedDefaults(store)
      ensures MenuMatchesMode() && Persisted()
    {
      currentMode := Year;
      currentFormat := Long;
      currentDayStart := 0;
      defaults := store;
      dayItemOn, monthItemOn, yearItemOn := false, false, false;
      new;
      SetMode(DecodeMode(StoredInteger(defaults, ModeKey)));
      SetFormat(DecodeFormat(StoredInteger(defaults, FormatKey)));
      SetDayStart(StoredInteger(defaults, DayStartKey));
    }

    /** Models assigning `currentMode`: store its raw value, clear all three check marks, check the mode's item. */
    method SetMode(mode: Mode)
      modifies this
      ensures currentMode == mode
      ensures defaults == old(defaults)[ModeKey := mode.RawValue()]
      ensures dayItemOn == (mode == Day) && monthItemOn == (mode == Month) && yearItemOn == (mode == Year)
      ensures currentFormat == old(currentFormat) && currentDayStart == old(currentDayStart)
      ensures MenuMatchesMode()
      ensures old(Persisted()) ==> Persisted()
    {
      currentMode := mode;
      defaults := defaults[ModeKey := currentMode.RawValue()];
      dayItemOn := false;
      monthItemOn := false;
      yearItemOn := false;
      match currentMode
      case Day => dayItemOn := true;
      case Month => monthItemOn := true;
      case Year => yearItemOn := true;
    }

    /** Models assigning `currentFormat`: store its raw value. */
    method SetFormat(format: Format)
      modifies this
      ensures currentFormat == format
      ensures defaults == old(defaults)[FormatKey := format.RawValue()]
      ensures currentMode == old(currentMode) && currentDayStart == old(currentDayStart)
      ensures dayItemOn == old(dayItemOn) && monthItemOn == old(monthItemOn) && yearItemOn == old(yearItemOn)
      ensures old(MenuMatchesMode()) ==> MenuMatchesMode()
      ensures old(Persisted()) ==> Persisted()
    {
      currentFormat := format;
      defaults := defaults[FormatKey := currentFormat.RawValue()];
    }

    /** Models assigning `currentDayStart`: store the hour as given, unvalidated. */
    method SetDayStart(hour: int)
      modifies this
      ensures currentDayStart == hour
      ensures defaults == old(defaults)[DayStartKey := hour]
      ensures currentMode == old(currentMode) && currentFormat == old(currentFormat)
      ensures dayItemOn == old(dayItemOn) && monthItemOn == old(monthItemOn) && yearItemOn == old(yearItemOn)
      ensures old(MenuMatchesMode()) ==> MenuMatchesMode()
      ensures old(Persisted()) ==> Persisted()
    {
      currentDayStart := hour;
      defaults := defaults[DayStartKey := currentDayStart];
    }

    /** Models the titles `tick()` computes at instant `now`. */
    ghost function Titles(now: int): MenuTitles
      reads this
    {
      MenuTitles(
        L.Text(Day, E.Progress(Day, now, currentDayStart), Long),
        L.Text(Month, E.Progress(Month, now, currentDayStart), Long),
        L.Text(Year, E.Progress(Year, now, currentDayStart), Long),
        L.Text(currentMode, E.Progress(currentMode, now, currentDayStart), currentFormat))
    }

    /** In the long format the status bar repeats the title of the checked item. */
    lemma StatusShowsCheckedItem(now: int)
      requires MenuMatchesMode() && currentFormat == Long
      ensures var t := Titles(now);
              (dayItemOn ==> t.status == t.day) && (monthItemOn ==> t.status == t.month) &&
              (yearItemOn ==> t.status == t.year)
    {
    }

    /** The status title names the current mode unless the format is percent, and always shows its progress. */
    lemma StatusTellsMode(now: int, other: Mode)
      requires currentFormat != Percent && other != currentMode
      ensures Titles(now).status != L.Text(other, E.Progress(currentMode, now, currentDayStart), currentFormat)
    {
      var p := E.Progress(currentMode, now, currentDayStart);
      if Titles(now).status == L.Text(other, p, currentFormat) {
        L.TextInjective(currentMode, p, other, p, currentFormat);
      }
    }
  }
}
