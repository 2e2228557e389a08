/**
 * The menu and status-bar labels: `name(forMode:)` and
 * `text(forMode:progress:withFormat:)`.
 */
module Labels {
  import opened Modes
  import D = Decimal

  /** The display name of a mode. */
  function Name(mode: Mode): (s: string)
    ensures 3 <= |s| <= 5
    ensures forall i :: 0 <= i < |s| ==> 'A' <= s[i] <= 'Z' || 'a' <= s[i] <= 'z'
  {
    match mode
    case Year => "Year"
    case Month => "Month"
    case Day => "Day"
  }

  /** The first character of a mode's name, as the short format shows it: a capital letter the name begins with. */
  function Initial(mode: Mode): (c: char)
    ensures 'A' <= c <= 'Z'
    ensures Name(mode)[..1] == [c]
  {
    Name(mode)[0]
  }

  /** Models `text(forMode:progress:withFormat:)`. */
  function Text(mode: Mode, progress: int, format: Format): (s: string)
    ensures |s| == |D.FormatInt(progress)| + 1 + (match format case Percent => 0 case Short => 3 case Long => |Name(mode)| + 2)
    ensures s[|s| - 1] == '%'
  {
    var number := D.FormatInt(progress);
    match format
    case Percent => number + "%"
    case Short => [Initial(mode)] + ": " + number + "%"
    case Long => Name(mode) + ": " + number + "%"
  }

  /** The layout of each format: the number then '%'; before it, nothing, the initial or the name, then ": ". */
  lemma TextShape(mode: Mode, progress: int, format: Format)
    ensures var s := Text(mode, progress, format);
            var k := match format case Percent => 0 case Short => 1 case Long => |Name(mode)|;
            var n := if format == Percent then 0 else k + 2;
            (format == Short ==> s[..k] == [Initial(mode)]) &&
            (format == Long ==> s[..k] == Name(mode)) &&
            (format != Percent ==> s[k..n] == ": ") &&
            s[n..|s| - 1] == D.FormatInt(progress)
  {
    var number := D.FormatInt(progress);
    match format
    case Percent => Pieces("", "", number);
    case Short => Pieces([Initial(mode)], ": ", number);
    case Long => Pieces(Name(mode), ": ", number);
  }

  /** A label splits back into its prefix, its separator and its number. */
  lemma Pieces(prefix: string, sep: string, number: string)
    ensures var s := prefix + sep + number + "%";
            var k, n := |prefix|, |prefix| + |sep|;
            s[..k] == prefix && s[k..n] == sep && s[n..|s| - 1] == number
  {
    var s := prefix + sep + number + "%";
    assert s == prefix + (sep + (number + "%"));
  }

  /** The names, and so the short-format initials, are "Day", "Month" and "Year". */
  lemma Initials()
    ensures Initial(Day) == 'D' && Initial(Month) == 'M' && Initial(Year) == 'Y'
  {
  }

  /** No two modes share an initial, so a short label still tells the mode. */
  lemma InitialsDistinct(m1: Mode, m2: Mode)
    ensures Initial(m1) == Initial(m2) <==> m1 == m2
  {
  }

  /** A percent label has no ':' and every other label has one, right after the name or initial. */
  lemma ColonPosition(mode: Mode, progress: int, format: Format)
    ensures var s := Text(mode, progress, format);
            var k := if format == Short then 1 else |Name(mode)|;
            (format == Percent <==> ':' !in s) &&
            (format != Percent ==> s[k] == ':' && forall i :: 0 <= i < k ==> s[i] != ':')
  {
    var s := Text(mode, progress, format);
    var number := D.FormatInt(progress);
    D.FormatIntPlain(progress);
    if format == Percent {
      assert forall i :: 0 <= i < |s| - 1 ==> s[i] == number[i];
    } else {
      var k := if format == Short then 1 else |Name(mode)|;
      assert s[k] == ':';
    }
  }

  /** A label determines its number and, unless it is a percent label, its mode. */
  lemma TextInjective(m1: Mode, p1: int, m2: Mode, p2: int, format: Format)
    requires Text(m1, p1, format) == Text(m2, p2, format)
    ensures p1 == p2
    ensures format != Percent ==> m1 == m2
  {
    var s := Text(m1, p1, format);
    TextShape(m1, p1, format);
    TextShape(m2, p2, format);
    if format == Short {
      assert Initial(m1) == s[0] == Initial(m2);
      InitialsDistinct(m1, m2);
    } else if format == Long {
      ColonPosition(m1, p1, format);
      ColonPosition(m2, p2, format);
      assert s[|Name(m1)|] == ':' && s[|Name(m2)|] == ':';
    }
    D.FormatIntInjective(p1, p2);
  }

  lemma TextExamples()
    ensures Text(Day, 42, Percent) == "42%"
    ensures Text(Day, 42, Short) == "D: 42%"
    ensures Text(Month, 7, Short) == "M: 7%"
    ensures Text(Year, 100, Long) == "Year: 100%"
    ensures Text(Month, 0, Long) == "Month: 0%"
  {
  }
}
