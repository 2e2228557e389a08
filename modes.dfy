/** The two settings enumerations and their stored integer ordinals (`rawValue`). */
module Modes {
  import opened Wrappers

  /** How a percentage is rendered. */
  datatype Format = Percent | Short | Long {

    function RawValue(): (r: int)
      ensures 0 <= r <= 2
    {
      match this
      case Percent => 0
      case Short => 1
      case Long => 2
    }

    /** Models `Format(rawValue:)`: defined exactly on the ordinals 0, 1 and 2. */
    static function FromRaw(raw: int): (r: Option<Format>)
      ensures r.Some? <==> 0 <= raw <= 2
      ensures r.Some? ==> r.value.RawValue() == raw
    {
      if raw == 0 then Some(Percent)
      else if raw == 1 then Some(Short)
      else if raw == 2 then Some(Long)
      else None
    }
  }

  /** The span whose progress is measured. */
  datatype Mode = Day | Month | Year {

    function RawValue(): (r: int)
      ensures 0 <= r <= 2
    {
      match this
      case Day => 0
      case Month => 1
      case Year => 2
    }

    /** Models `Mode(rawValue:)`: defined exactly on the ordinals 0, 1 and 2. */
    static function FromRaw(raw: int): (r: Option<Mode>)
      ensures r.Some? <==> 0 <= raw <= 2
      ensures r.Some? ==> r.value.RawValue() == raw
    {
      if raw == 0 then Some(Day)
      else if raw == 1 then Some(Month)
      else if raw == 2 then Some(Year)
      else None
    }
  }

  /** Storing an ordinal and reading it back gives the same format. */
  lemma FormatRawRoundTrip(f: Format)
    ensures Format.FromRaw(f.RawValue()) == Some(f)
  {
  }

  /** Storing an ordinal and reading it back gives the same mode. */
  lemma ModeRawRoundTrip(m: Mode)
    ensures Mode.FromRaw(m.RawValue()) == Some(m)
  {
  }
}
