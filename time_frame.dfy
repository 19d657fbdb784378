/** Parsing of the bar-size unit ("minute", "hour", "day") shared by the data
    download helpers and by the missing-period scans. */
module TimeFrames {
  import opened Wrappers

  datatype TimeFrameUnit = Minute | Hour | Day

  /** A bar size: `amount` units of `unit`. */
  datatype TimeFrame = TimeFrame(amount: int, unit: TimeFrameUnit)

  datatype UnitError = UnsupportedUnit(unit: string)

  /** Lower-casing of one character (ASCII letters only). */
  function LowerChar(c: char): (r: char)
    ensures 'A' <= c <= 'Z' ==> r as int == c as int + 32
    ensures !('A' <= c <= 'Z') ==> r == c
    ensures !('A' <= r <= 'Z')
  {
    if 'A' <= c <= 'Z' then (c as int + 32) as char else c
  }

  /** String lower-casing, character by character. */
  function ToLower(s: string): (r: string)
    ensures |r| == |s|
    ensures forall i :: 0 <= i < |s| ==> r[i] == LowerChar(s[i])
  {
    seq(|s|, i requires 0 <= i < |s| => LowerChar(s[i]))
  }

  lemma ToLowerIdempotent(s: string)
    ensures ToLower(ToLower(s)) == ToLower(s)
  {
    var t := ToLower(s);
    assert forall i :: 0 <= i < |t| ==> ToLower(t)[i] == t[i];
  }

  /** The unit a (case-insensitive) unit name denotes: "minute"/"min",
      "hour"/"hr" and "day"; anything else denotes none. */
  function ParseUnit(timeUnit: string): (r: Option<TimeFrameUnit>)
    ensures r == Some(Minute) <==> ToLower(timeUnit) == "minute" || ToLower(timeUnit) == "min"
    ensures r == Some(Hour) <==> ToLower(timeUnit) == "hour" || ToLower(timeUnit) == "hr"
    ensures r == Some(Day) <==> ToLower(timeUnit) == "day"
  {
    var u := ToLower(timeUnit);
    if u == "minute" || u == "min" then Some(Minute)
    else if u == "hour" || u == "hr" then Some(Hour)
    else if u == "day" then Some(Day)
    else None
  }

  /** The unit name is matched only through its lower-cased form. */
  lemma ParseUnitCaseInsensitive(a: string, b: string)
    requires ToLower(a) == ToLower(b)
    ensures ParseUnit(a) == ParseUnit(b)
  {
  }

  lemma {:induction false} ParseUnitOfLowered(s: string)
    ensures ParseUnit(ToLower(s)) == ParseUnit(s)
  {
    ToLowerIdempotent(s);
    ParseUnitCaseInsensitive(ToLower(s), s);
  }

  /** The names the parser accepts, in any letter case. */
  lemma ParseUnitExamples()
    ensures ParseUnit("MINUTE") == Some(Minute) && ParseUnit("Min") == Some(Minute)
    ensures ParseUnit("Hour") == Some(Hour) && ParseUnit("HR") == Some(Hour)
    ensures ParseUnit("Day") == Some(Day)
    ensures ParseUnit("days") == None && ParseUnit("") == None && ParseUnit("week") == None
  {
    assert ToLower("MINUTE") == "minute";
    assert ToLower("Min") == "min";
    assert ToLower("Hour") == "hour";
    assert ToLower("HR") == "hr";
    assert ToLower("Day") == "day";
    assert ToLower("days") == "days";
    assert ToLower("week") == "week";
  }

  /** Length of one unit in minutes, as the pandas time deltas give it. */
  function UnitMinutes(u: TimeFrameUnit): (r: int)
    ensures r >= 1
  {
    match u
    case Minute => 1
    case Hour => 60
    case Day => 1440
  }

  /** The strict parser: an unsupported unit raises, and the error carries
      the lower-cased unit name; the length is passed through untouched. */
  function SetTimeFrame(timeUnitLength: int, timeUnit: string): (r: Result<TimeFrame, UnitError>)
    ensures r.Ok? <==> ParseUnit(timeUnit).Some?
    ensures r.Ok? ==> r.value == TimeFrame(timeUnitLength, ParseUnit(timeUnit).value)
    ensures r.Err? ==> r.error == UnsupportedUnit(ToLower(timeUnit))
  {
    var unit := ToLower(timeUnit);
    if unit == "minute" || unit == "min" then Ok(TimeFrame(timeUnitLength, Minute))
    else if unit == "hour" || unit == "hr" then Ok(TimeFrame(timeUnitLength, Hour))
    else if unit == "day" then Ok(TimeFrame(timeUnitLength, Day))
    else Err(UnsupportedUnit(unit))
  }

  /** The lenient parser of the two data_extract_load modules: an
      unsupported unit falls off the end of the if/elif chain and gives None. */
  function SetTimeFrameOrNone(timeUnitLength: int, timeUnit: string): (r: Option<TimeFrame>)
    ensures r.Some? <==> ParseUnit(timeUnit).Some?
    ensures r.Some? ==> r.value.amount == timeUnitLength && r.value.unit == ParseUnit(timeUnit).value
  {
    if ToLower(timeUnit) == "minute" || ToLower(timeUnit) == "min" then Some(TimeFrame(timeUnitLength, Minute))
    else if ToLower(timeUnit) == "hour" || ToLower(timeUnit) == "hr" then Some(TimeFrame(timeUnitLength, Hour))
    else if ToLower(timeUnit) == "day" then Some(TimeFrame(timeUnitLength, Day))
    else None
  }

  /** The lenient and the strict parser agree wherever the strict one succeeds,
      and the lenient one gives None exactly where the strict one raises. */
  lemma LenientAgreesWithStrict(timeUnitLength: int, timeUnit: string)
    ensures SetTimeFrameOrNone(timeUnitLength, timeUnit) ==
      match SetTimeFrame(timeUnitLength, timeUnit)
      case Ok(tf) => Some(tf)
      case Err(_) => None
  {
  }
}
