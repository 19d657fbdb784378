/** The discretised time axis shared by both missing-period scans. A
    timestamp is a whole number of minutes since 1970-01-01 00:00 (naive,
    no time zone); a slot is the half-open interval [s, s + delta). */
module TimeAxis {
  import opened Wrappers
  import opened TimeFrames

  /** A reported period, `(start, end)`. */
  datatype Period = Period(start: int, end: int)

  /** The scans reject a unit string they do not know. */
  datatype ScanError = InvalidTimeUnit

  /** `pd.Timedelta(minutes=n)`, `hours=n` or `days=n`, in minutes, for a
      known unit. */
  function SlotLength(timeUnit: string, timeUnitLength: int): (r: Option<int>)
    ensures r.Some? <==> ParseUnit(timeUnit).Some?
    ensures r.Some? && timeUnitLength > 0 ==> r.value >= timeUnitLength
    ensures ParseUnit(timeUnit) == Some(Minute) ==> r == Some(timeUnitLength)
    ensures ParseUnit(timeUnit) == Some(Hour) ==> r == Some(60 * timeUnitLength)
    ensures ParseUnit(timeUnit) == Some(Day) ==> r == Some(1440 * timeUnitLength)
  {
    match ParseUnit(timeUnit)
    case None => None
    case Some(u) => Some(timeUnitLength * UnitMinutes(u))
  }

  /** The slot starts the scans visit: `start`, `start + delta`, ... for as
      long as the slot start is before `end`. */
  function Slots(start: int, end: int, delta: int): (r: seq<int>)
    requires delta > 0
    ensures r == [] <==> start >= end
    ensures r != [] ==> r[0] == start && r[|r| - 1] < end <= r[|r| - 1] + delta
    ensures forall k :: 0 <= k < |r| - 1 ==> r[k + 1] == r[k] + delta
    ensures forall s :: s in r ==> start <= s < end
    decreases end - start
  {
    if start >= end then []
    else
      var rest := Slots(start + delta, end, delta);
      assert forall k :: 1 <= k < |rest| + 1 ==> ([start] + rest)[k] == rest[k - 1];
      [start] + rest
  }

  /** The slots after the first one are the slots from `start + delta`. */
  lemma SlotsStep(start: int, end: int, delta: int, s: int)
    requires delta > 0 && start < end
    ensures s in Slots(start, end, delta) <==> s == start || s in Slots(start + delta, end, delta)
  {
  }

  /** Some existing timestamp falls in [s, e): the slot "has data". */
  predicate HasData(existing: seq<int>, s: int, e: int)
  {
    exists i :: 0 <= i < |existing| && s <= existing[i] < e
  }
}
