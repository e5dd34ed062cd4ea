/**
 * Slot rounding and slot expansion (`_ceil_to_slot`, `_to_slots` in
 * app/service/topic_stats.py).
 *
 * A slot is the 15-minute window `[s, s + Slot)` whose start lies on a
 * quarter of a wall-clock hour. With timestamps counted in microseconds from
 * an hour-aligned origin, that is `s % Slot == 0`.
 */
module Slots {
  import opened Models
  import opened SortedSets

  const MicrosPerSecond: int := 1_000_000
  const MicrosPerMinute: int := 60 * MicrosPerSecond
  /** The grid width in minutes; `_ceil_to_slot` has 15 written into it. */
  const SlotMinutes: int := 15
  /** `SLOT`, in microseconds. */
  const Slot: int := SlotMinutes * MicrosPerMinute

  /** The `minute`, `second` and `microsecond` fields of a moment. */
  function Minute(t: Timestamp): int { (t / MicrosPerMinute) % 60 }
  function Second(t: Timestamp): int { (t / MicrosPerSecond) % 60 }
  function Microsecond(t: Timestamp): int { t % MicrosPerSecond }

  /** `t` is a slot boundary: a multiple of 15 minutes past the hour, with zero seconds. */
  predicate Aligned(t: Timestamp) { t % Slot == 0 }

  /**
   * `_ceil_to_slot`: rounds a moment up to the next slot boundary, field by
   * field. The result is a slot boundary, no earlier than the moment and less
   * than one slot after it.
   */
  function CeilToSlot(moment: Timestamp): (r: Timestamp)
    ensures Aligned(r)
    ensures moment <= r < moment + Slot
  {
    CeilBranches(moment);
    // moment.replace(second=0, microsecond=0)
    var trimmed := moment - Second(moment) * MicrosPerSecond - Microsecond(moment);
    var remainder := Minute(trimmed) % 15;
    if remainder == 0 && Second(moment) == 0 && Microsecond(moment) == 0 then trimmed
    else
      var delta := (15 - remainder) % 15;
      trimmed + (if delta == 0 then 15 else delta) * MicrosPerMinute
  }

  /** Each branch of `_ceil_to_slot` yields a slot boundary in `[t, t + Slot)`. */
  lemma CeilBranches(t: Timestamp)
    ensures var trimmed := t - Second(t) * MicrosPerSecond - Microsecond(t);
      var remainder := Minute(trimmed) % 15;
      var delta := (15 - remainder) % 15;
      var r := trimmed + (if delta == 0 then 15 else delta) * MicrosPerMinute;
      && (remainder == 0 && Second(t) == 0 && Microsecond(t) == 0 ==> Aligned(trimmed) && trimmed == t)
      && (!(remainder == 0 && Second(t) == 0 && Microsecond(t) == 0) ==> Aligned(r) && t <= r < t + Slot)
  {
    var q := t / MicrosPerMinute;
    var trimmed := t - Second(t) * MicrosPerSecond - Microsecond(t);
    TrimToMinute(t);
    var remainder := Minute(trimmed) % 15;
    if remainder == 0 && Second(t) == 0 && Microsecond(t) == 0 {
      AlignedMinutes(q);
    } else {
      var delta := (15 - remainder) % 15;
      var step := if delta == 0 then 15 else delta;
      QuarterStep(q);
      RoundUpMinutes(t, q, step);
    }
  }

  /** The minutes `_ceil_to_slot` adds reach the next quarter hour: a whole quarter when already on one. */
  lemma QuarterStep(q: int)
    ensures var delta := (15 - q % 15) % 15;
      var step := if delta == 0 then 15 else delta;
      && 1 <= step <= 15 && (q + step) % 15 == 0
      && (step == 15 <==> q % 15 == 0)
  {
    var k, m := q / 15, q % 15;
    assert q == 15 * k + m && 0 <= m < 15;
    if m == 0 {
      assert q + 15 == 15 * (k + 1);
    } else {
      assert (15 - m) % 15 == 15 - m;
      assert q + (15 - m) == 15 * (k + 1);
    }
  }

  /** Dropping seconds and microseconds leaves the whole minutes, whose minute field gives the remainder. */
  lemma TrimToMinute(t: Timestamp)
    ensures var q := t / MicrosPerMinute;
      var trimmed := t - Second(t) * MicrosPerSecond - Microsecond(t);
      && trimmed == q * MicrosPerMinute
      && Minute(trimmed) % 15 == q % 15
      && q * MicrosPerMinute <= t < q * MicrosPerMinute + MicrosPerMinute
      && (Second(t) == 0 && Microsecond(t) == 0 <==> trimmed == t)
  {
    OffsetInMinute(t);
    var q := t / MicrosPerMinute;
    var trimmed := t - Second(t) * MicrosPerSecond - Microsecond(t);
    assert trimmed == q * MicrosPerMinute;
    assert trimmed / MicrosPerMinute == q;
  }

  /** Moving up `step` whole minutes from the minute of `t` onto a quarter hour lands in `[t, t + Slot)`. */
  lemma RoundUpMinutes(t: Timestamp, q: int, step: int)
    requires q * MicrosPerMinute <= t < q * MicrosPerMinute + MicrosPerMinute
    requires 1 <= step <= 15 && (q + step) % 15 == 0
    requires step == 15 ==> q * MicrosPerMinute < t
    ensures var r := q * MicrosPerMinute + step * MicrosPerMinute;
      Aligned(r) && t <= r < t + Slot
  {
    assert q * MicrosPerMinute + step * MicrosPerMinute == (q + step) * MicrosPerMinute;
    AlignedMinutes(q + step);
  }

  /** Seconds and microseconds together are the moment's offset into its minute. */
  lemma OffsetInMinute(t: Timestamp)
    ensures Second(t) * MicrosPerSecond + Microsecond(t) == t % MicrosPerMinute
    ensures t / MicrosPerMinute * MicrosPerMinute + t % MicrosPerMinute == t
  {
    var a, b := t / MicrosPerSecond, t % MicrosPerSecond;
    var c, d := a / 60, a % 60;
    assert t == c * MicrosPerMinute + (d * MicrosPerSecond + b);
    assert 0 <= d * MicrosPerSecond + b < MicrosPerMinute;
  }

  /** A whole number of minutes is aligned exactly when the minute count is a multiple of 15. */
  lemma AlignedMinutes(q: int)
    ensures Aligned(q * MicrosPerMinute) <==> q % 15 == 0
  {
    var k, j := q / 15, q % 15;
    assert q * MicrosPerMinute == k * Slot + j * MicrosPerMinute;
    assert 0 <= j * MicrosPerMinute < Slot;
  }

  /** The boundary one slot later is a boundary too. */
  lemma NextAligned(t: Timestamp)
    requires Aligned(t)
    ensures Aligned(t + Slot)
  {
    assert t + Slot == (t / Slot + 1) * Slot;
  }

  /** Two different slot boundaries are at least one slot apart. */
  lemma AlignedGap(a: Timestamp, b: Timestamp)
    requires Aligned(a) && Aligned(b) && a < b
    ensures a + Slot <= b
  {
    assert a == a / Slot * Slot && b == b / Slot * Slot;
    assert a / Slot < b / Slot;
  }

  /** The rounding is the least slot boundary at or after the moment. */
  lemma CeilToSlotIsLeast(t: Timestamp, a: Timestamp)
    requires Aligned(a) && t <= a
    ensures CeilToSlot(t) <= a
  {
        if a < CeilToSlot(t) {
      AlignedGap(a, CeilToSlot(t));
    }
  }

  /** A moment is returned unchanged exactly when it already is a slot boundary. */
  lemma CeilToSlotFixesExactlyAligned(t: Timestamp)
    ensures CeilToSlot(t) == t <==> Aligned(t)
  {
        if Aligned(t) {
      CeilToSlotIsLeast(t, t);
    }
  }

  /**
   * The any-test of `_count_buckets`: some interval holds the whole slot
   * starting at `s`.
   */
  predicate Covers(intervals: seq<Interval>, s: Timestamp) {
    exists k :: 0 <= k < |intervals| && intervals[k].start <= s && s + Slot <= intervals[k].end
  }

  /** The slot starts that `_to_slots` emits for one window. */
  ghost function WindowSlots(w: Interval): set<Timestamp> {
    set s | CeilToSlot(w.start) <= s <= w.end - Slot && Aligned(s)
  }

  /** The slot starts that `_to_slots` collects for a list of windows. */
  ghost function SlotSet(intervals: seq<Interval>): set<Timestamp>
    decreases |intervals|
  {
    if intervals == [] then {}
    else SlotSet(intervals[..|intervals| - 1]) + WindowSlots(intervals[|intervals| - 1])
  }

  /** A slot start is collected exactly when it is aligned and its whole slot fits inside some window. */
  lemma {:induction false} SlotSetMembers(intervals: seq<Interval>, s: Timestamp)
    ensures s in SlotSet(intervals) <==> Aligned(s) && Covers(intervals, s)
    decreases |intervals|
  {
    if intervals != [] {
      var n := |intervals| - 1;
      var init, w := intervals[..n], intervals[n];
      SlotSetMembers(init, s);
      if Aligned(s) && w.start <= s {
        CeilToSlotIsLeast(w.start, s);
      }
      assert s in WindowSlots(w) <==> Aligned(s) && w.start <= s && s + Slot <= w.end;
      if Covers(intervals, s) {
        var k :| 0 <= k < |intervals| && intervals[k].start <= s && s + Slot <= intervals[k].end;
        if k < n {
          assert init[k] == intervals[k];
        }
      }
      if Covers(init, s) {
        var k :| 0 <= k < |init| && init[k].start <= s && s + Slot <= init[k].end;
        assert intervals[k] == init[k];
      }
    }
  }

  /** The slot list of a set of windows, in ascending order. */
  ghost function SlotList(intervals: seq<Interval>): seq<Timestamp> {
    SortedSeq(SlotSet(intervals))
  }

  /** The aligned slot starts in `[first, stop)`. */
  ghost function Span(first: Timestamp, stop: Timestamp): set<Timestamp> {
    set s | first <= s < stop && Aligned(s)
  }

  /** One step of the walk over a window adds exactly the current slot start. */
  lemma SpanStep(first: Timestamp, slotStart: Timestamp)
    requires Aligned(slotStart) && first <= slotStart
    ensures Span(first, slotStart + Slot) == Span(first, slotStart) + {slotStart}
  {
    forall s | s in Span(first, slotStart + Slot)
      ensures s in Span(first, slotStart) || s == slotStart
    {
      if s > slotStart {
        AlignedGap(slotStart, s);
      }
    }
  }

  /** When the walk over a window stops, it has visited exactly the window's slots. */
  lemma SpanAtExit(window: Interval, slotStart: Timestamp)
    requires Aligned(slotStart) && CeilToSlot(window.start) <= slotStart
    requires slotStart == CeilToSlot(window.start) || slotStart <= window.end
    requires window.end < slotStart + Slot
    ensures Span(CeilToSlot(window.start), slotStart) == WindowSlots(window)
  {
    var first := CeilToSlot(window.start);
    forall s | s in WindowSlots(window)
      ensures s < slotStart
    {
      if s > slotStart {
        AlignedGap(slotStart, s);
      }
    }
    forall s | s in Span(first, slotStart)
      ensures s + Slot <= window.end
    {
      AlignedGap(s, slotStart);
    }
  }

  /**
   * `_to_slots`: the sorted, duplicate-free slot starts whose whole slot fits
   * inside one of the windows, walking each window from its rounded-up start.
   */
  /** The inner loop of `_to_slots`: walks one window from its rounded-up start, a slot at a time. */
  method AddWindowSlots(found: set<Timestamp>, window: Interval) returns (found': set<Timestamp>)
    ensures found' == found + WindowSlots(window)
  {
    found' := found;
    var first := CeilToSlot(window.start);
    var slotStart := first;
    while slotStart + Slot <= window.end
      invariant Aligned(slotStart) && first <= slotStart
      invariant slotStart == first || slotStart <= window.end
      invariant found' == found + Span(first, slotStart)
      decreases window.end - slotStart
    {
      found' := found' + {slotStart};
      SpanStep(first, slotStart);
      NextAligned(slotStart);
      slotStart := slotStart + Slot;
    }
    SpanAtExit(window, slotStart);
  }

  method ToSlots(intervals: seq<Interval>) returns (slots: seq<Timestamp>)
    ensures slots == SlotList(intervals)
    ensures StrictlyIncreasing(slots)
    ensures forall s :: s in slots <==> Aligned(s) && Covers(intervals, s)
  {
    var found: set<Timestamp> := {};
    for i := 0 to |intervals|
      invariant found == SlotSet(intervals[..i])
    {
      found := AddWindowSlots(found, intervals[i]);
      assert intervals[..i + 1][..i] == intervals[..i];
    }
    assert intervals[..|intervals|] == intervals;
    slots := SortedElements(found);
    forall s ensures s in slots <==> Aligned(s) && Covers(intervals, s) {
      SlotSetMembers(intervals, s);
    }
  }
}
