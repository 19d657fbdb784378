/** The archived `identify_missing_periods`: walk the slots from the start
    date, and coalesce consecutive trading slots without data into runs.
    A trading slot with data closes the open run; a slot outside every
    trading session neither starts, extends nor closes a run. The NYSE
    schedule is an input: a sequence of sessions. */
module ArchivedLoad {
  import opened Wrappers
  import opened TimeFrames
  import opened TimeAxis

  /** One trading session of the schedule, naive minutes. */
  datatype Session = Session(marketOpen: int, marketClose: int)

  /** The slot [s, e) lies inside some session. */
  predicate Trading(sessions: seq<Session>, s: int, e: int)
  {
    exists k :: 0 <= k < |sessions| && sessions[k].marketOpen <= s && sessions[k].marketClose >= e
  }

  /** A trading slot with no data: the slots the scan reports. */
  predicate MissingSlot(existing: seq<int>, sessions: seq<Session>, delta: int, s: int)
  {
    Trading(sessions, s, s + delta) && !HasData(existing, s, s + delta)
  }

  /** A trading slot with data: the slots that close a run. */
  predicate PresentSlot(existing: seq<int>, sessions: seq<Session>, delta: int, s: int)
  {
    Trading(sessions, s, s + delta) && HasData(existing, s, s + delta)
  }

  /** The open run as a list: empty when no run is open. */
  function Flush(run: Option<Period>): (r: seq<Period>)
    ensures run.None? <==> r == []
    ensures run.Some? ==> r == [run.value]
  {
    if run.Some? then [run.value] else []
  }

  /** The periods the scan reports from slot `cur` on, when `run` is the
      run open before that slot. */
  function Coalesce(existing: seq<int>, sessions: seq<Session>, delta: int, cur: int, end: int,
                    run: Option<Period>): seq<Period>
    requires delta > 0
    decreases end - cur
  {
    if cur >= end then Flush(run)
    else
      var next := cur + delta;
      if !Trading(sessions, cur, next) then Coalesce(existing, sessions, delta, next, end, run)
      else if !HasData(existing, cur, next) then
        var start := if run.Some? then run.value.start else cur;
        Coalesce(existing, sessions, delta, next, end, Some(Period(start, next)))
      else Flush(run) + Coalesce(existing, sessions, delta, next, end, None)
  }

  /** The periods reported for slots of length `delta` from `startDate` to
      `endDate`. */
  function MissingRuns(existing: seq<int>, sessions: seq<Session>, delta: int, startDate: int, endDate: int)
    : (r: seq<Period>)
    requires delta > 0 || startDate >= endDate
    ensures startDate >= endDate ==> r == []
  {
    if startDate >= endDate then [] else Coalesce(existing, sessions, delta, startDate, endDate, None)
  }

  /** The open run of the scan: `current_missing_start` and
      `current_missing_end`. */
  function OpenRun(missingStart: Option<int>, missingEnd: int): Option<Period>
  {
    if missingStart.Some? then Some(Period(missingStart.value, missingEnd)) else None
  }

  /** `identify_missing_periods`: an unknown unit fails before the scan;
      otherwise the result is the coalesced runs of missing trading
      slots. The scan only terminates for a positive slot length, so a
      non-positive length is allowed only when there is nothing to scan. */
  method IdentifyMissingPeriods(existing: seq<int>, startDate: int, endDate: int, timeUnit: string,
                                sessions: seq<Session>, timeUnitLength: int := 1)
    returns (r: Result<seq<Period>, ScanError>)
    requires ParseUnit(timeUnit).None? || startDate >= endDate || timeUnitLength > 0
    ensures SlotLength(timeUnit, timeUnitLength).None? <==> r == Err(InvalidTimeUnit)
    ensures SlotLength(timeUnit, timeUnitLength).Some? ==>
      r == Ok(MissingRuns(existing, sessions, SlotLength(timeUnit, timeUnitLength).value, startDate, endDate))
  {
    var length := SlotLength(timeUnit, timeUnitLength);
    if length.None? {
      return Err(InvalidTimeUnit);
    }
    var delta := length.value;
    var missingPeriods: seq<Period> := [];
    var current := startDate;
    var missingStart: Option<int> := None;
    var missingEnd := 0;
    ghost var target := MissingRuns(existing, sessions, delta, startDate, endDate);
    while current < endDate
      invariant delta > 0 || current >= endDate
      invariant delta > 0 ==>
        missingPeriods + Coalesce(existing, sessions, delta, current, endDate, OpenRun(missingStart, missingEnd)) == target
      invariant delta <= 0 ==> missingPeriods == [] && missingStart.None? && target == []
      decreases endDate - current
    {
      var periodEnd := current + delta;
      if Trading(sessions, current, periodEnd) {
        if !HasData(existing, current, periodEnd) {
          if missingStart.None? {
            missingStart := Some(current);
          }
          missingEnd := periodEnd;
        } else {
          if missingStart.Some? {
            missingPeriods := missingPeriods + [Period(missingStart.value, missingEnd)];
            missingStart := None;
          }
        }
      }
      current := periodEnd;
    }
    assert delta > 0 ==>
      Coalesce(existing, sessions, delta, current, endDate, OpenRun(missingStart, missingEnd))
      == Flush(OpenRun(missingStart, missingEnd));
    if missingStart.Some? {
      missingPeriods := missingPeriods + [Period(missingStart.value, missingEnd)];
    }
    assert missingPeriods == target;
    return Ok(missingPeriods);
  }

  /** The open run lies before slot `cur` and is non-empty. */
  predicate RunBefore(run: Option<Period>, cur: int)
  {
    run.Some? ==> run.value.start < run.value.end <= cur
  }

  /** An open run is eventually reported, from the same start and ending no
      earlier. */
  lemma {:induction false} RunReported(existing: seq<int>, sessions: seq<Session>, delta: int, cur: int, end: int,
                                       run: Option<Period>)
    requires delta > 0 && run.Some? && RunBefore(run, cur)
    ensures exists p :: (p in Coalesce(existing, sessions, delta, cur, end, run) &&
      p.start == run.value.start && p.end >= run.value.end)
    decreases end - cur
  {
    var next := cur + delta;
    if cur >= end {
      assert run.value in Coalesce(existing, sessions, delta, cur, end, run);
    } else if !Trading(sessions, cur, next) {
      RunReported(existing, sessions, delta, next, end, run);
    } else if !HasData(existing, cur, next) {
      RunReported(existing, sessions, delta, next, end, Some(Period(run.value.start, next)));
    } else {
      assert run.value in Coalesce(existing, sessions, delta, cur, end, run);
    }
  }

  /** Every period reported from `cur` on starts at or after `cur`, unless
      it is the open run. */
  lemma {:induction false} StartsFrom(existing: seq<int>, sessions: seq<Session>, delta: int, cur: int, end: int,
                                      run: Option<Period>)
    requires delta > 0
    ensures forall p :: p in Coalesce(existing, sessions, delta, cur, end, run) ==>
      p.start >= cur || (run.Some? && p.start == run.value.start)
    decreases end - cur
  {
    var next := cur + delta;
    if cur < end {
      if !Trading(sessions, cur, next) {
        StartsFrom(existing, sessions, delta, next, end, run);
      } else if !HasData(existing, cur, next) {
        StartsFrom(existing, sessions, delta, next, end, Some(Period(if run.Some? then run.value.start else cur, next)));
      } else {
        StartsFrom(existing, sessions, delta, next, end, None);
      }
    }
  }

  /** Every missing trading slot from `cur` on lies inside a reported
      period. */
  lemma {:induction false} CoalesceCovers(existing: seq<int>, sessions: seq<Session>, delta: int, cur: int, end: int,
                                          run: Option<Period>, s: int)
    requires delta > 0 && RunBefore(run, cur)
    requires s in Slots(cur, end, delta) && MissingSlot(existing, sessions, delta, s)
    ensures exists p :: p in Coalesce(existing, sessions, delta, cur, end, run) && p.start <= s && s + delta <= p.end
    decreases end - cur
  {
    var next := cur + delta;
    SlotsStep(cur, end, delta, s);
    if s == cur {
      var started := Some(Period(if run.Some? then run.value.start else cur, next));
      RunReported(existing, sessions, delta, next, end, started);
    } else if !Trading(sessions, cur, next) {
      CoalesceCovers(existing, sessions, delta, next, end, run, s);
    } else if !HasData(existing, cur, next) {
      CoalesceCovers(existing, sessions, delta, next, end, Some(Period(if run.Some? then run.value.start else cur, next)), s);
    } else {
      CoalesceCovers(existing, sessions, delta, next, end, None, s);
      var p :| p in Coalesce(existing, sessions, delta, next, end, None) && p.start <= s && s + delta <= p.end;
      assert p in Coalesce(existing, sessions, delta, cur, end, run);
    }
  }

  /** No reported period overlaps a trading slot with data from `cur` on. */
  lemma {:induction false} CoalesceExcludes(existing: seq<int>, sessions: seq<Session>, delta: int, cur: int, end: int,
                                            run: Option<Period>, s: int)
    requires delta > 0 && RunBefore(run, cur)
    requires s in Slots(cur, end, delta) && PresentSlot(existing, sessions, delta, s)
    ensures forall p :: p in Coalesce(existing, sessions, delta, cur, end, run) ==> p.end <= s || p.start >= s + delta
    decreases end - cur
  {
    var next := cur + delta;
    SlotsStep(cur, end, delta, s);
    var here := Coalesce(existing, sessions, delta, cur, end, run);
    if s == cur {
      assert here == Flush(run) + Coalesce(existing, sessions, delta, next, end, None);
      StartsFrom(existing, sessions, delta, next, end, None);
    } else {
      assert s in Slots(next, end, delta);
      if !Trading(sessions, cur, next) {
        assert here == Coalesce(existing, sessions, delta, next, end, run);
        CoalesceExcludes(existing, sessions, delta, next, end, run, s);
      } else if !HasData(existing, cur, next) {
        var extended := Some(Period(if run.Some? then run.value.start else cur, next));
        assert here == Coalesce(existing, sessions, delta, next, end, extended);
        CoalesceExcludes(existing, sessions, delta, next, end, extended, s);
      } else {
        assert here == Flush(run) + Coalesce(existing, sessions, delta, next, end, None);
        CoalesceExcludes(existing, sessions, delta, next, end, None, s);
      }
    }
  }

  /** Every reported period is non-empty, starts at a missing trading slot
      and ends at the end of one. */
  lemma {:induction false} CoalesceBounds(existing: seq<int>, sessions: seq<Session>, delta: int, cur: int, end: int,
                                          run: Option<Period>)
    requires delta > 0 && RunBefore(run, cur)
    requires run.Some? ==>
      MissingSlot(existing, sessions, delta, run.value.start) &&
      MissingSlot(existing, sessions, delta, run.value.end - delta)
    ensures forall p :: p in Coalesce(existing, sessions, delta, cur, end, run) ==>
      && p.start < p.end
      && MissingSlot(existing, sessions, delta, p.start)
      && MissingSlot(existing, sessions, delta, p.end - delta)
    decreases end - cur
  {
    var next := cur + delta;
    if cur < end {
      var here := Coalesce(existing, sessions, delta, cur, end, run);
      if !Trading(sessions, cur, next) {
        assert here == Coalesce(existing, sessions, delta, next, end, run);
        CoalesceBounds(existing, sessions, delta, next, end, run);
      } else if !HasData(existing, cur, next) {
        assert next - delta == cur;
        var extended := Some(Period(if run.Some? then run.value.start else cur, next));
        assert here == Coalesce(existing, sessions, delta, next, end, extended);
        CoalesceBounds(existing, sessions, delta, next, end, extended);
      } else {
        assert here == Flush(run) + Coalesce(existing, sessions, delta, next, end, None);
        CoalesceBounds(existing, sessions, delta, next, end, None);
      }
    }
  }

  /** A reported period starts at a slot start visited from `cur` on,
      unless it is the open run. */
  lemma {:induction false} CoalesceStartsOnGrid(existing: seq<int>, sessions: seq<Session>, delta: int, cur: int,
                                                end: int, run: Option<Period>, p: Period)
    requires delta > 0 && p in Coalesce(existing, sessions, delta, cur, end, run)
    ensures p.start in Slots(cur, end, delta) || (run.Some? && p.start == run.value.start)
    decreases end - cur
  {
    var next := cur + delta;
    if cur < end {
      SlotsStep(cur, end, delta, p.start);
      var here := Coalesce(existing, sessions, delta, cur, end, run);
      if !Trading(sessions, cur, next) {
        assert here == Coalesce(existing, sessions, delta, next, end, run);
        CoalesceStartsOnGrid(existing, sessions, delta, next, end, run, p);
      } else if !HasData(existing, cur, next) {
        var extended := Some(Period(if run.Some? then run.value.start else cur, next));
        assert here == Coalesce(existing, sessions, delta, next, end, extended);
        CoalesceStartsOnGrid(existing, sessions, delta, next, end, extended, p);
      } else {
        var rest := Coalesce(existing, sessions, delta, next, end, None);
        assert here == Flush(run) + rest;
        if p !in Flush(run) {
          CoalesceStartsOnGrid(existing, sessions, delta, next, end, None, p);
        }
      }
    }
  }

  /** A reported period ends at the end of a slot visited from `cur` on,
      unless it is the open run. */
  lemma {:induction false} CoalesceEndsOnGrid(existing: seq<int>, sessions: seq<Session>, delta: int, cur: int,
                                              end: int, run: Option<Period>, p: Period)
    requires delta > 0 && p in Coalesce(existing, sessions, delta, cur, end, run)
    ensures p.end - delta in Slots(cur, end, delta) || (run.Some? && p.end == run.value.end)
    decreases end - cur
  {
    var next := cur + delta;
    if cur < end {
      SlotsStep(cur, end, delta, p.end - delta);
      var here := Coalesce(existing, sessions, delta, cur, end, run);
      if !Trading(sessions, cur, next) {
        assert here == Coalesce(existing, sessions, delta, next, end, run);
        CoalesceEndsOnGrid(existing, sessions, delta, next, end, run, p);
      } else if !HasData(existing, cur, next) {
        assert next - delta == cur;
        var extended := Some(Period(if run.Some? then run.value.start else cur, next));
        assert here == Coalesce(existing, sessions, delta, next, end, extended);
        CoalesceEndsOnGrid(existing, sessions, delta, next, end, extended, p);
      } else {
        var rest := Coalesce(existing, sessions, delta, next, end, None);
        assert here == Flush(run) + rest;
        if p !in Flush(run) {
          CoalesceEndsOnGrid(existing, sessions, delta, next, end, None, p);
        }
      }
    }
  }

  /** The reported periods are in increasing order, each ending strictly
      before the next one starts. */
  lemma {:induction false} CoalesceOrdered(existing: seq<int>, sessions: seq<Session>, delta: int, cur: int, end: int,
                                           run: Option<Period>)
    requires delta > 0 && RunBefore(run, cur)
    ensures forall i, j :: 0 <= i < j < |Coalesce(existing, sessions, delta, cur, end, run)| ==>
      Coalesce(existing, sessions, delta, cur, end, run)[i].end < Coalesce(existing, sessions, delta, cur, end, run)[j].start
    decreases end - cur
  {
    var next := cur + delta;
    if cur < end {
      if !Trading(sessions, cur, next) {
        CoalesceOrdered(existing, sessions, delta, next, end, run);
      } else if !HasData(existing, cur, next) {
        CoalesceOrdered(existing, sessions, delta, next, end, Some(Period(if run.Some? then run.value.start else cur, next)));
      } else {
        var rest := Coalesce(existing, sessions, delta, next, end, None);
        CoalesceOrdered(existing, sessions, delta, next, end, None);
        StartsFrom(existing, sessions, delta, next, end, None);
        var all := Flush(run) + rest;
        forall i, j | 0 <= i < j < |all| ensures all[i].end < all[j].start {
          if run.Some? {
            assert rest[j - 1] in rest;
            if i > 0 {
              assert all[i] == rest[i - 1] && all[j] == rest[j - 1];
            }
          }
        }
      }
    }
  }

  /** Only a trading slot with data closes a run: between two consecutive
      reported periods lies such a slot, returned as `s`. */
  lemma {:induction false} CoalesceGap(existing: seq<int>, sessions: seq<Session>, delta: int, cur: int,
                                       end: int, run: Option<Period>, i: int) returns (s: int)
    requires delta > 0 && RunBefore(run, cur)
    requires 0 <= i && i + 1 < |Coalesce(existing, sessions, delta, cur, end, run)|
    ensures s in Slots(cur, end, delta) && PresentSlot(existing, sessions, delta, s)
    ensures Coalesce(existing, sessions, delta, cur, end, run)[i].end <= s
    ensures s + delta <= Coalesce(existing, sessions, delta, cur, end, run)[i + 1].start
    decreases end - cur
  {
    var next := cur + delta;
    var here := Coalesce(existing, sessions, delta, cur, end, run);
    if cur >= end {
      assert false;
    } else if !Trading(sessions, cur, next) {
      assert here == Coalesce(existing, sessions, delta, next, end, run);
      s := CoalesceGap(existing, sessions, delta, next, end, run, i);
      SlotsStep(cur, end, delta, s);
    } else if !HasData(existing, cur, next) {
      var extended := Some(Period(if run.Some? then run.value.start else cur, next));
      assert here == Coalesce(existing, sessions, delta, next, end, extended);
      s := CoalesceGap(existing, sessions, delta, next, end, extended, i);
      SlotsStep(cur, end, delta, s);
    } else {
      var rest := Coalesce(existing, sessions, delta, next, end, None);
      assert here == Flush(run) + rest;
      if run.Some? && i == 0 {
        StartsFrom(existing, sessions, delta, next, end, None);
        assert here[0] == run.value && here[1] == rest[0] && rest[0] in rest;
        SlotsStep(cur, end, delta, cur);
        s := cur;
      } else {
        var j := if run.Some? then i - 1 else i;
        assert here[i] == rest[j] && here[i + 1] == rest[j + 1];
        s := CoalesceGap(existing, sessions, delta, next, end, None, j);
        SlotsStep(cur, end, delta, s);
      }
    }
  }

  /** Every missing trading slot in the scanned range lies inside a
      reported period. */
  lemma MissingRunsCover(existing: seq<int>, sessions: seq<Session>, delta: int, startDate: int, endDate: int, s: int)
    requires delta > 0
    requires s in Slots(startDate, endDate, delta) && MissingSlot(existing, sessions, delta, s)
    ensures exists p :: p in MissingRuns(existing, sessions, delta, startDate, endDate) && p.start <= s && s + delta <= p.end
  {
    CoalesceCovers(existing, sessions, delta, startDate, endDate, None, s);
  }

  /** No reported period overlaps a trading slot that has data, so a
      period holds only missing or non-trading slots. */
  lemma MissingRunsExclude(existing: seq<int>, sessions: seq<Session>, delta: int, startDate: int, endDate: int, s: int)
    requires delta > 0
    requires s in Slots(startDate, endDate, delta) && PresentSlot(existing, sessions, delta, s)
    ensures forall p :: p in MissingRuns(existing, sessions, delta, startDate, endDate) ==> p.end <= s || p.start >= s + delta
  {
    CoalesceExcludes(existing, sessions, delta, startDate, endDate, None, s);
  }

  /** Every reported period starts at a slot start before the end date,
      ends at a slot end, is non-empty, and begins and ends with a missing
      trading slot. */
  lemma MissingRunsShape(existing: seq<int>, sessions: seq<Session>, delta: int, startDate: int, endDate: int)
    requires delta > 0
    ensures forall p :: p in MissingRuns(existing, sessions, delta, startDate, endDate) ==>
      && startDate <= p.start < p.end
      && p.start < endDate
      && p.start in Slots(startDate, endDate, delta)
      && p.end - delta in Slots(startDate, endDate, delta)
      && MissingSlot(existing, sessions, delta, p.start)
      && MissingSlot(existing, sessions, delta, p.end - delta)
  {
    if startDate < endDate {
      CoalesceBounds(existing, sessions, delta, startDate, endDate, None);
      forall p | p in Coalesce(existing, sessions, delta, startDate, endDate, None)
        ensures p.start in Slots(startDate, endDate, delta) && p.end - delta in Slots(startDate, endDate, delta)
      {
        CoalesceStartsOnGrid(existing, sessions, delta, startDate, endDate, None, p);
        CoalesceEndsOnGrid(existing, sessions, delta, startDate, endDate, None, p);
      }
    }
  }

  /** The reported periods are increasing and pairwise disjoint: a trading
      slot with data separates any two of them. */
  lemma MissingRunsOrdered(existing: seq<int>, sessions: seq<Session>, delta: int, startDate: int, endDate: int)
    requires delta > 0
    ensures forall i, j :: 0 <= i < j < |MissingRuns(existing, sessions, delta, startDate, endDate)| ==>
      MissingRuns(existing, sessions, delta, startDate, endDate)[i].end <
      MissingRuns(existing, sessions, delta, startDate, endDate)[j].start
  {
    if startDate < endDate {
      CoalesceOrdered(existing, sessions, delta, startDate, endDate, None);
    }
  }

  /** Consecutive reported periods are separated by a trading slot with
      data in the scanned range: a slot outside every session never closes
      a run, and neither does a missing trading slot. */
  lemma MissingRunsSeparated(existing: seq<int>, sessions: seq<Session>, delta: int, startDate: int, endDate: int,
                             i: int)
    requires delta > 0
    requires 0 <= i && i + 1 < |MissingRuns(existing, sessions, delta, startDate, endDate)|
    ensures exists s :: (s in Slots(startDate, endDate, delta) && PresentSlot(existing, sessions, delta, s) &&
      MissingRuns(existing, sessions, delta, startDate, endDate)[i].end <= s &&
      s + delta <= MissingRuns(existing, sessions, delta, startDate, endDate)[i + 1].start)
  {
    var s := CoalesceGap(existing, sessions, delta, startDate, endDate, None, i);
  }
}
