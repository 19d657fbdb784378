/** The newer `identify_missing_periods`: every slot whose start falls on a
    trading day and that holds no data is reported on its own. A trading
    day is a weekday that is not a market holiday; the holiday list of the
    NYSE calendar is an input, as a set of day numbers. */
module DataExtractLoad {
  import opened Wrappers
  import opened TimeFrames
  import opened TimeAxis

  /** Minutes in a day. */
  const MinutesPerDay := 1440

  /** The calendar day of a timestamp, counted from 1970-01-01 (the time
      of day dropped). */
  function Day(t: int): int
  {
    t / MinutesPerDay
  }

  /** `date.weekday()` of a day number: Monday is 0 and Sunday is 6;
      1970-01-01 was a Thursday. */
  function Weekday(day: int): (r: int)
    ensures 0 <= r < 7
    ensures day == 0 ==> r == 3
  {
    (day + 3) % 7
  }

  /** The next day is the next weekday, Sunday wrapping round to Monday. */
  lemma WeekdayStep(day: int)
    ensures Weekday(day + 1) == (Weekday(day) + 1) % 7
  {
    var q := (day + 3) / 7;
    assert day + 3 == 7 * q + Weekday(day);
    assert day + 4 == 7 * q + (Weekday(day) + 1);
    if Weekday(day) == 6 {
      assert day + 4 == 7 * (q + 1);
    }
  }

  /** Weekdays repeat every seven days, so 2024-01-06 (day 19728) is a
      Saturday like 1970-01-03 (day 2). */
  lemma WeekdayWeekly(day: int, weeks: int)
    ensures Weekday(day + 7 * weeks) == Weekday(day)
  {
    var q := (day + 3) / 7;
    assert day + 3 + 7 * weeks == 7 * (q + weeks) + Weekday(day);
  }

  /** `is_trading_day`: false on Saturday and Sunday, otherwise true
      exactly when the date is not a holiday. */
  function IsTradingDay(t: int, holidays: set<int>): (r: bool)
    ensures Weekday(Day(t)) >= 5 ==> !r
    ensures Weekday(Day(t)) < 5 ==> (r <==> Day(t) !in holidays)
  {
    if Weekday(Day(t)) >= 5 then false
    else Day(t) !in holidays
  }

  /** Only the date matters, not the time of day. */
  lemma TradingDayIgnoresTimeOfDay(t: int, u: int, holidays: set<int>)
    requires Day(t) == Day(u)
    ensures IsTradingDay(t, holidays) == IsTradingDay(u, holidays)
  {
  }

  /** The slot starting at `s`, when it is reported. */
  function SlotAt(existing: seq<int>, holidays: set<int>, delta: int, s: int): (r: seq<Period>)
    ensures |r| <= 1
    ensures r != [] <==> IsTradingDay(s, holidays) && !HasData(existing, s, s + delta)
    ensures r != [] ==> r[0] == Period(s, s + delta)
  {
    if IsTradingDay(s, holidays) && !HasData(existing, s, s + delta) then [Period(s, s + delta)] else []
  }

  /** The slots reported from `cur` on. */
  function MissingFrom(existing: seq<int>, holidays: set<int>, delta: int, cur: int, end: int): seq<Period>
    requires delta > 0
    decreases end - cur
  {
    if cur >= end then []
    else SlotAt(existing, holidays, delta, cur) + MissingFrom(existing, holidays, delta, cur + delta, end)
  }

  /** The slots reported for slot length `delta` from `startDate` to
      `endDate`. */
  function MissingSlots(existing: seq<int>, holidays: set<int>, delta: int, startDate: int, endDate: int)
    : (r: seq<Period>)
    requires delta > 0 || startDate >= endDate
    ensures startDate >= endDate ==> r == []
  {
    if startDate >= endDate then [] else MissingFrom(existing, holidays, delta, startDate, endDate)
  }

  /** `identify_missing_periods`: an unknown unit fails; otherwise every
      missing slot on a trading day is reported. The caller passes no
      length, so the slot is one unit long by default. */
  method IdentifyMissingPeriods(existing: seq<int>, startDate: int, endDate: int, timeUnit: string,
                                holidays: set<int>, timeUnitLength: int := 1)
    returns (r: Result<seq<Period>, ScanError>)
    requires ParseUnit(timeUnit).None? || startDate >= endDate || timeUnitLength > 0
    ensures SlotLength(timeUnit, timeUnitLength).None? <==> r == Err(InvalidTimeUnit)
    ensures SlotLength(timeUnit, timeUnitLength).Some? ==>
      r == Ok(MissingSlots(existing, holidays, SlotLength(timeUnit, timeUnitLength).value, startDate, endDate))
  {
    var length := SlotLength(timeUnit, timeUnitLength);
    if length.None? {
      return Err(InvalidTimeUnit);
    }
    var delta := length.value;
    var missingPeriods: seq<Period> := [];
    var current := startDate;
    ghost var target := MissingSlots(existing, holidays, delta, startDate, endDate);
    while current < endDate
      invariant delta > 0 || current >= endDate
      invariant delta > 0 ==> missingPeriods + MissingFrom(existing, holidays, delta, current, endDate) == target
      invariant delta <= 0 ==> missingPeriods == [] && target == []
      decreases endDate - current
    {
      var periodEnd := current + delta;
      if IsTradingDay(current, holidays) {
        if !HasData(existing, current, periodEnd) {
          missingPeriods := missingPeriods + [Period(current, periodEnd)];
        }
      }
      current := periodEnd;
    }
    assert missingPeriods == target;
    return Ok(missingPeriods);
  }

  /** A period is reported exactly when it is a slot of the range whose
      start is on a trading day and which holds no data. */
  lemma {:induction false} MissingFromIff(existing: seq<int>, holidays: set<int>, delta: int, cur: int, end: int,
                                          p: Period)
    requires delta > 0
    ensures p in MissingFrom(existing, holidays, delta, cur, end) <==>
      && p.start in Slots(cur, end, delta)
      && p.end == p.start + delta
      && IsTradingDay(p.start, holidays)
      && !HasData(existing, p.start, p.end)
    decreases end - cur
  {
    if cur < end {
      MissingFromUnfold(existing, holidays, delta, cur, end);
      InSlotAt(existing, holidays, delta, cur, p);
      SlotsStep(cur, end, delta, p.start);
      MissingFromIff(existing, holidays, delta, cur + delta, end, p);
    }
  }

  /** The scan reports the slot at `cur`, if missing, then the rest. */
  lemma MissingFromUnfold(existing: seq<int>, holidays: set<int>, delta: int, cur: int, end: int)
    requires delta > 0 && cur < end
    ensures MissingFrom(existing, holidays, delta, cur, end) ==
      SlotAt(existing, holidays, delta, cur) + MissingFrom(existing, holidays, delta, cur + delta, end)
  {
  }

  /** The slot at s reports exactly the period [s, s + delta), and only when
      it is missing on a trading day. */
  lemma InSlotAt(existing: seq<int>, holidays: set<int>, delta: int, s: int, p: Period)
    ensures p in SlotAt(existing, holidays, delta, s) <==>
      p == Period(s, s + delta) && IsTradingDay(s, holidays) && !HasData(existing, s, s + delta)
  {
  }

  /** Every reported period starts where the previous one ends or later,
      so the periods are strictly increasing and pairwise disjoint. */
  lemma {:induction false} MissingFromOrdered(existing: seq<int>, holidays: set<int>, delta: int, cur: int, end: int)
    requires delta > 0
    ensures forall i, j :: 0 <= i < j < |MissingFrom(existing, holidays, delta, cur, end)| ==>
      MissingFrom(existing, holidays, delta, cur, end)[i].end <= MissingFrom(existing, holidays, delta, cur, end)[j].start
    ensures forall p :: p in MissingFrom(existing, holidays, delta, cur, end) ==> p.start >= cur
    decreases end - cur
  {
    if cur < end {
      var head := SlotAt(existing, holidays, delta, cur);
      var rest := MissingFrom(existing, holidays, delta, cur + delta, end);
      MissingFromOrdered(existing, holidays, delta, cur + delta, end);
      var all := head + rest;
      forall i, j | 0 <= i < j < |all| ensures all[i].end <= all[j].start {
        if head != [] {
          assert all[j] == rest[j - 1] && all[j] in rest;
          if i > 0 {
            assert all[i] == rest[i - 1];
          }
        }
      }
      forall p | p in all ensures p.start >= cur {
        if p !in head {
          assert p in rest;
        }
      }
    }
  }

  /** The reported periods are exactly the missing one-slot periods on
      trading days, each starting before the end date. */
  lemma MissingSlotsIff(existing: seq<int>, holidays: set<int>, delta: int, startDate: int, endDate: int, p: Period)
    requires delta > 0
    ensures p in MissingSlots(existing, holidays, delta, startDate, endDate) <==>
      && p.start in Slots(startDate, endDate, delta)
      && p.end == p.start + delta
      && IsTradingDay(p.start, holidays)
      && !HasData(existing, p.start, p.end)
  {
    MissingFromIff(existing, holidays, delta, startDate, endDate, p);
  }

  /** The reported periods are in increasing order and disjoint. */
  lemma MissingSlotsOrdered(existing: seq<int>, holidays: set<int>, delta: int, startDate: int, endDate: int)
    requires delta > 0
    ensures forall i, j :: 0 <= i < j < |MissingSlots(existing, holidays, delta, startDate, endDate)| ==>
      MissingSlots(existing, holidays, delta, startDate, endDate)[i].end <=
      MissingSlots(existing, holidays, delta, startDate, endDate)[j].start
  {
    if startDate < endDate {
      MissingFromOrdered(existing, holidays, delta, startDate, endDate);
    }
  }
}
