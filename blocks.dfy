/**
 * Block merging (`_build_blocks` in app/service/topic_stats.py): for one tier,
 * a single pass over the counted slots in time order that merges runs of
 * adjacent slots labelled with that tier into `StatsInterval`s.
 */
module Blocks {
  import opened Models
  import opened SortedSets
  import opened Slots
  import opened Tiers

  /** The arguments of `_build_blocks`: slot counts, slot labels, the target tier and its range. */
  datatype Ladder = Ladder(
    counts: map<Timestamp, nat>,
    labels: map<Timestamp, Option<Tier>>,
    tier: Tier,
    range: Range)

  /**
   * The open block: `current_start`, `current_min`, `current_max` and
   * `current_end`, which the loop sets and clears together.
   */
  datatype Run = Run(start: Timestamp, minCount: int, maxCount: int, end: Timestamp)

  /** The loop state: the blocks appended so far and the open block, if any. */
  datatype ScanState = ScanState(blocks: seq<StatsInterval>, current: Option<Run>)

  /** Python's `x or d` on an integer: `d` when `x` is 0. */
  function OrElse(x: int, d: int): int {
    if x != 0 then x else d
  }

  function Min(a: int, b: int): int { if a <= b then a else b }
  function Max(a: int, b: int): int { if a >= b then a else b }

  /** `slot_labels.get(slot) == ratio`. */
  predicate InTier(lad: Ladder, s: Timestamp) {
    s in lad.labels && lad.labels[s] == Some(lad.tier)
  }

  /** The block appended when a run is closed; a zero count falls back to the range bound. */
  function Close(r: Run, range: Range): StatsInterval {
    StatsInterval(r.start, r.end + Slot, OrElse(r.minCount, range.lower), OrElse(r.maxCount, range.upper))
  }

  /** One iteration of the loop of `_build_blocks` at `slot`. */
  function Step(lad: Ladder, st: ScanState, slot: Timestamp): ScanState
    requires slot in lad.counts
  {
    // a gap after the open block closes it
    var st1 :=
      if st.current.Some? && slot != st.current.value.end + Slot
      then ScanState(st.blocks + [Close(st.current.value, lad.range)], None)
      else st;
    if !InTier(lad, slot) then
      if st1.current.None? then st1
      else ScanState(st1.blocks + [Close(st1.current.value, lad.range)], None)
    else
      var count := lad.counts[slot];
      if st1.current.None? then ScanState(st1.blocks, Some(Run(slot, count, count, slot)))
      else
        var r := st1.current.value;
        ScanState(st1.blocks, Some(Run(r.start, Min(OrElse(r.minCount, count), count), Max(OrElse(r.maxCount, count), count), slot)))
  }

  /** The loop state after the slots of `slots`, in order. */
  function Scan(lad: Ladder, slots: seq<Timestamp>): ScanState
    requires forall s :: s in slots ==> s in lad.counts
    decreases |slots|
  {
    if slots == [] then ScanState([], None)
    else
      var n := |slots| - 1;
      assert slots[n] in slots;
      Step(lad, Scan(lad, slots[..n]), slots[n])
  }

  /** The blocks once the loop is over: the open block, if any, is closed last. */
  function Finish(st: ScanState, range: Range): seq<StatsInterval> {
    if st.current.Some? then st.blocks + [Close(st.current.value, range)] else st.blocks
  }

  /** What `_build_blocks` returns. */
  ghost function BlocksOf(lad: Ladder): seq<StatsInterval> {
    if lad.range == Empty then []
    else
      SortedSeqIsSortedSet(lad.counts.Keys);
      Finish(Scan(lad, SortedSeq(lad.counts.Keys)), lad.range)
  }

  /** Scanning one more slot is one more step. */
  lemma ScanAppend(lad: Ladder, P: seq<Timestamp>, s: Timestamp)
    requires forall t :: t in P + [s] ==> t in lad.counts
    ensures s in lad.counts && forall t :: t in P ==> t in lad.counts
    ensures Scan(lad, P + [s]) == Step(lad, Scan(lad, P), s)
  {
    assert s in P + [s];
    assert forall t :: t in P ==> t in P + [s];
    assert (P + [s])[..|P|] == P;
  }

  /** `_build_blocks`: one pass over the slots in time order, opening, growing and closing blocks. */
  method BuildBlocks(lad: Ladder) returns (blocks: seq<StatsInterval>)
    ensures blocks == BlocksOf(lad)
    ensures lad.range == Empty ==> blocks == []
  {
    if lad.range == Empty {
      return [];
    }
    var slots := SortedElements(lad.counts.Keys);
    var current: Option<Run>;
    blocks, current := ScanSlots(lad, slots);
    if current.Some? {
      blocks := blocks + [Close(current.value, lad.range)];
    }
  }

  /** The loop of `_build_blocks` over `slots`, in order. */
  method ScanSlots(lad: Ladder, slots: seq<Timestamp>) returns (blocks: seq<StatsInterval>, current: Option<Run>)
    requires forall s :: s in slots ==> s in lad.counts
    ensures ScanState(blocks, current) == Scan(lad, slots)
  {
    blocks, current := [], None;
    for i := 0 to |slots|
      invariant ScanState(blocks, current) == Scan(lad, slots[..i])
    {
      assert slots[..i + 1] == slots[..i] + [slots[i]];
      ScanAppend(lad, slots[..i], slots[i]);
      blocks, current := VisitSlot(lad, blocks, current, slots[i]);
    }
    assert slots[..|slots|] == slots;
  }

  /**
   * The body of the loop of `_build_blocks` for one slot: a gap closes the
   * open block; an off-tier slot then closes it too; a tier slot opens a
   * block or extends the open one.
   */
  method VisitSlot(lad: Ladder, blocks: seq<StatsInterval>, current: Option<Run>, slot: Timestamp)
    returns (blocks': seq<StatsInterval>, current': Option<Run>)
    requires slot in lad.counts
    ensures ScanState(blocks', current') == Step(lad, ScanState(blocks, current), slot)
  {
    blocks', current' := blocks, current;
    if current'.Some? && slot != current'.value.end + Slot {
      blocks' := blocks' + [Close(current'.value, lad.range)];
      current' := None;
    }
    if !(slot in lad.labels && lad.labels[slot] == Some(lad.tier)) {
      if current'.None? {
        return;
      }
      blocks' := blocks' + [Close(current'.value, lad.range)];
      current' := None;
      return;
    }
    var count := lad.counts[slot];
    if current'.None? {
      current' := Some(Run(slot, count, count, slot));
      return;
    }
    var run := current'.value;
    current' := Some(Run(run.start, Min(OrElse(run.minCount, count), count), Max(OrElse(run.maxCount, count), count), slot));
  }

  // ---------------------------------------------------------------------------
  // What one step does to the finished block list

  /** Block `b` holds the slot starting at `t`. */
  predicate Within(b: StatsInterval, t: Timestamp) {
    b.start <= t < b.end
  }

  /**
   * A step leaves the finished blocks as they were (an off-tier slot), adds a
   * one-slot block (a tier slot after a gap or with no open block), or
   * stretches the last block over the slot (a tier slot right after it).
   */
  lemma StepShape(lad: Ladder, st: ScanState, s: Timestamp)
    requires s in lad.counts
    ensures var st' := Step(lad, st, s);
      var F, F' := Finish(st, lad.range), Finish(st', lad.range);
      var c := lad.counts[s];
      && (!InTier(lad, s) ==> F' == F && st'.current.None?)
      && (InTier(lad, s) && (st.current.None? || s != st.current.value.end + Slot) ==>
            st'.current == Some(Run(s, c, c, s)) && F' == F + [Close(Run(s, c, c, s), lad.range)])
      && (InTier(lad, s) && st.current.Some? && s == st.current.value.end + Slot ==>
            var r := st.current.value;
            st'.current == Some(Run(r.start, Min(OrElse(r.minCount, c), c), Max(OrElse(r.maxCount, c), c), s))
            && F == st.blocks + [Close(r, lad.range)]
            && F' == st.blocks + [Close(st'.current.value, lad.range)])
  {
  }

  /** A tier slot right after the open block stretches that block over it. */
  lemma StretchShape(lad: Ladder, st: ScanState, s: Timestamp)
    requires s in lad.counts
    requires InTier(lad, s) && st.current.Some? && s == st.current.value.end + Slot
    ensures var st' := Step(lad, st, s);
      var F, F' := Finish(st, lad.range), Finish(st', lad.range);
      var r, c := st.current.value, lad.counts[s];
      && F != [] && F' != []
      && st'.current.Some? && st'.current.value.end == s
      && st'.current.value.minCount == Min(OrElse(r.minCount, c), c)
      && st'.current.value.maxCount == Max(OrElse(r.maxCount, c), c)
      && F' == F[..|F| - 1] + [F'[|F'| - 1]]
      && F'[|F'| - 1].start == F[|F| - 1].start
      && F'[|F'| - 1].end == s + Slot
      && F'[|F'| - 1] == Close(st'.current.value, lad.range)
      && F[|F| - 1] == Close(r, lad.range)
  {
    var F := Finish(st, lad.range);
    assert F[..|F| - 1] == st.blocks;
  }

  // ---------------------------------------------------------------------------
  // Invariants of the scan over a sorted prefix `P` of the slots

  ghost predicate Ordered(blocks: seq<StatsInterval>) {
    forall i, j :: 0 <= i < j < |blocks| ==> blocks[i].end < blocks[j].start
  }

  /** The slots are strictly increasing slot boundaries, all counted. */
  ghost predicate GoodSlots(lad: Ladder, P: seq<Timestamp>) {
    && StrictlyIncreasing(P)
    && (forall t :: t in P ==> t in lad.counts && Aligned(t))
  }

  /** Blocks are in time order with gaps between them, on the slot grid, and behind the scan. */
  ghost predicate OrderInv(lad: Ladder, P: seq<Timestamp>, st: ScanState) {
    var F := Finish(st, lad.range);
    && Ordered(F)
    && OnGrid(F)
    && (P == [] ==> F == [] && st.current.None?)
    && (P != [] ==> EndBy(F, P[|P| - 1] + Slot))
    && (P != [] && st.current.None? ==> EndBy(F, P[|P| - 1]))
    && (st.current.Some? ==> P != [] && st.current.value.end == P[|P| - 1])
  }

  /** Every block is a non-empty run of whole slots. */
  ghost predicate OnGrid(F: seq<StatsInterval>) {
    forall b :: b in F ==> Aligned(b.start) && Aligned(b.end) && b.start < b.end
  }

  /** Every block ends at `x` or earlier. */
  ghost predicate EndBy(F: seq<StatsInterval>, x: Timestamp) {
    forall b :: b in F ==> b.end <= x
  }

  /** Appending a whole-slot block after the end of every block keeps the list ordered and on the grid. */
  lemma AppendKeepsOrder(F: seq<StatsInterval>, nb: StatsInterval, x: Timestamp)
    requires Ordered(F) && OnGrid(F) && EndBy(F, x) && x < nb.start
    requires Aligned(nb.start) && Aligned(nb.end) && nb.start < nb.end
    ensures Ordered(F + [nb]) && OnGrid(F + [nb]) && EndBy(F + [nb], nb.end)
  {
    OrderedAppend(F, nb);
  }

  /** Stretching the last block to a later slot boundary keeps the list ordered and on the grid. */
  lemma StretchKeepsOrder(F: seq<StatsInterval>, nb: StatsInterval)
    requires Ordered(F) && OnGrid(F) && F != [] && EndBy(F, nb.end)
    requires nb.start == F[|F| - 1].start && Aligned(nb.end) && nb.start < nb.end
    ensures Ordered(F[..|F| - 1] + [nb]) && OnGrid(F[..|F| - 1] + [nb]) && EndBy(F[..|F| - 1] + [nb], nb.end)
  {
    OrderedStretchLast(F, nb);
    StretchMembers(F, nb);
  }

  /** Every slot boundary inside a block is a scanned slot of the tier. */
  ghost predicate ContigInv(lad: Ladder, P: seq<Timestamp>, st: ScanState) {
    forall b, t :: b in Finish(st, lad.range) && Aligned(t) && Within(b, t) ==> t in P && InTier(lad, t)
  }

  /** Every scanned slot of the tier is inside a block. */
  ghost predicate CoverInv(lad: Ladder, P: seq<Timestamp>, st: ScanState) {
    forall t :: t in P && InTier(lad, t) ==> exists b :: b in Finish(st, lad.range) && Within(b, t)
  }

  /** Every slot of the tier has a positive count, as it does once labelled by a range starting at 1 or more. */
  ghost predicate Positive(lad: Ladder) {
    forall t :: t in lad.counts && InTier(lad, t) ==> lad.counts[t] >= 1
  }

  /** Each block's people counts are the least and the greatest count of the slots of `P` inside it. */
  ghost predicate BlockCounts(lad: Ladder, P: seq<Timestamp>, F: seq<StatsInterval>)
    requires forall t :: t in P ==> t in lad.counts
  {
    && (forall b, t :: b in F && t in P && Within(b, t) ==> b.peopleMin <= lad.counts[t] <= b.peopleMax)
    && (forall b :: b in F ==> exists t :: t in P && Within(b, t) && lad.counts[t] == b.peopleMin)
    && (forall b :: b in F ==> exists t :: t in P && Within(b, t) && lad.counts[t] == b.peopleMax)
  }

  /** The finished blocks' people counts come from their scanned slots, and the open block's counts are positive. */
  ghost predicate CountInv(lad: Ladder, P: seq<Timestamp>, st: ScanState)
    requires forall t :: t in P ==> t in lad.counts
  {
    && BlockCounts(lad, P, Finish(st, lad.range))
    && (st.current.Some? ==> st.current.value.minCount >= 1 && st.current.value.maxCount >= 1)
  }

  /** The last slot of a good prefix extended by `s` lies a whole slot or more before `s`. */
  lemma LastBefore(lad: Ladder, P: seq<Timestamp>, s: Timestamp)
    requires GoodSlots(lad, P + [s]) && P != []
    ensures GoodSlots(lad, P)
    ensures P[|P| - 1] + Slot <= s
    ensures forall t :: t in P + [s] <==> t in P || t == s
  {
    var Q := P + [s];
    assert Q[|P| - 1] == P[|P| - 1] && Q[|P|] == s;
    AlignedGap(P[|P| - 1], s);
    forall i, j | 0 <= i < j < |P| ensures P[i] < P[j] {
      assert Q[i] == P[i] && Q[j] == P[j];
    }
  }

  /** Appending a block that starts after every block ends keeps the list ordered. */
  lemma OrderedAppend(F: seq<StatsInterval>, nb: StatsInterval)
    requires Ordered(F)
    requires forall b :: b in F ==> b.end < nb.start
    ensures Ordered(F + [nb])
  {
    var F' := F + [nb];
    forall i, j | 0 <= i < j < |F'| ensures F'[i].end < F'[j].start {
      if j == |F| {
        assert F'[i] in F;
      } else {
        assert F'[i] == F[i] && F'[j] == F[j];
      }
    }
  }

  /** Stretching the last block to the right keeps the list ordered. */
  lemma OrderedStretchLast(F: seq<StatsInterval>, nb: StatsInterval)
    requires Ordered(F) && F != []
    requires nb.start == F[|F| - 1].start
    ensures Ordered(F[..|F| - 1] + [nb])
  {
    var F' := F[..|F| - 1] + [nb];
    forall i, j | 0 <= i < j < |F'| ensures F'[i].end < F'[j].start {
      assert F'[i] == F[i];
      if j < |F| - 1 {
        assert F'[j] == F[j];
      }
    }
  }

  /** The blocks of a list whose last block is replaced are its other blocks and the new one. */
  lemma StretchMembers(F: seq<StatsInterval>, nb: StatsInterval)
    requires F != []
    ensures forall b :: b in F[..|F| - 1] + [nb] ==> b in F || b == nb
  {
    forall b | b in F[..|F| - 1] ensures b in F {
      var i :| 0 <= i < |F| - 1 && F[..|F| - 1][i] == b;
      assert F[i] == b;
    }
  }

  lemma StepOrder(lad: Ladder, P: seq<Timestamp>, st: ScanState, s: Timestamp)
    requires GoodSlots(lad, P + [s])
    requires OrderInv(lad, P, st)
    ensures OrderInv(lad, P + [s], Step(lad, st, s))
  {
    assert s in P + [s];
    if P != [] {
      LastBefore(lad, P, s);
    }
    if !InTier(lad, s) {
      StepOrderOff(lad, P, st, s);
    } else if st.current.None? || s != st.current.value.end + Slot {
      StepOrderOpen(lad, P, st, s);
    } else {
      StepOrderStretch(lad, P, st, s);
    }
  }

  lemma StepOrderOff(lad: Ladder, P: seq<Timestamp>, st: ScanState, s: Timestamp)
    requires GoodSlots(lad, P + [s]) && s in lad.counts
    requires P != [] ==> P[|P| - 1] + Slot <= s
    requires OrderInv(lad, P, st)
    requires !InTier(lad, s)
    ensures OrderInv(lad, P + [s], Step(lad, st, s))
  {
    StepShape(lad, st, s);
    var P' := P + [s];
    assert P'[|P'| - 1] == s;
  }

  lemma StepOrderOpen(lad: Ladder, P: seq<Timestamp>, st: ScanState, s: Timestamp)
    requires s in lad.counts && Aligned(s)
    requires P != [] ==> P[|P| - 1] + Slot <= s
    requires OrderInv(lad, P, st)
    requires InTier(lad, s) && (st.current.None? || s != st.current.value.end + Slot)
    ensures OrderInv(lad, P + [s], Step(lad, st, s))
  {
    StepShape(lad, st, s);
    var P' := P + [s];
    assert P'[|P'| - 1] == s;
    var F := Finish(st, lad.range);
    var nb := Close(Run(s, lad.counts[s], lad.counts[s], s), lad.range);
    if st.current.Some? {
      AlignedGap(st.current.value.end, s);
      AppendKeepsOrder(F, nb, s - 1);
    } else {
      AppendKeepsOrder(F, nb, if P == [] then s - 1 else P[|P| - 1]);
    }
  }

  lemma StepOrderStretch(lad: Ladder, P: seq<Timestamp>, st: ScanState, s: Timestamp)
    requires s in lad.counts && Aligned(s)
    requires OrderInv(lad, P, st)
    requires InTier(lad, s) && st.current.Some? && s == st.current.value.end + Slot
    ensures OrderInv(lad, P + [s], Step(lad, st, s))
  {
    StretchShape(lad, st, s);
    var P' := P + [s];
    assert P'[|P'| - 1] == s;
    var F := Finish(st, lad.range);
    var F' := Finish(Step(lad, st, s), lad.range);
    StretchKeepsOrder(F, F'[|F'| - 1]);
  }

  lemma StepContig(lad: Ladder, P: seq<Timestamp>, st: ScanState, s: Timestamp)
    requires GoodSlots(lad, P + [s])
    requires OrderInv(lad, P, st) && ContigInv(lad, P, st)
    ensures ContigInv(lad, P + [s], Step(lad, st, s))
  {
    assert s in P + [s];
    StepShape(lad, st, s);
    var F := Finish(st, lad.range);
    var F' := Finish(Step(lad, st, s), lad.range);
    if P != [] {
      LastBefore(lad, P, s);
    }
    assert forall t :: t in P ==> t in P + [s];
    if InTier(lad, s) && (st.current.None? || s != st.current.value.end + Slot) {
      var nb := Close(Run(s, lad.counts[s], lad.counts[s], s), lad.range);
      forall t | Aligned(t) && Within(nb, t) ensures t == s {
        if t > s {
          AlignedGap(s, t);
        }
      }
    } else if InTier(lad, s) {
      var r := st.current.value;
      var nb := F'[|F'| - 1];
      assert F' == F[..|F| - 1] + [nb];
      StretchMembers(F, nb);
      forall t | Aligned(t) && Within(nb, t) ensures (t in P && InTier(lad, t)) || t == s {
        if t < s {
          assert Within(F[|F| - 1], t);
        } else if t > s {
          AlignedGap(s, t);
        }
      }
    }
  }

  lemma StepCover(lad: Ladder, P: seq<Timestamp>, st: ScanState, s: Timestamp)
    requires GoodSlots(lad, P + [s])
    requires OrderInv(lad, P, st) && CoverInv(lad, P, st)
    ensures CoverInv(lad, P + [s], Step(lad, st, s))
  {
    assert s in P + [s];
    StepShape(lad, st, s);
    var F := Finish(st, lad.range);
    var F' := Finish(Step(lad, st, s), lad.range);
    if P != [] {
      LastBefore(lad, P, s);
    }
    forall t | t in P + [s] && InTier(lad, t) ensures exists b :: b in F' && Within(b, t) {
      if t == s {
        assert Within(F'[|F'| - 1], s);
      } else {
        var b :| b in F && Within(b, t);
        if InTier(lad, s) && st.current.Some? && s == st.current.value.end + Slot && b == F[|F| - 1] {
          assert Within(F'[|F'| - 1], t);
        } else if InTier(lad, s) && st.current.Some? && s == st.current.value.end + Slot {
          var i :| 0 <= i < |F| && F[i] == b;
          assert F'[i] == b;
        } else {
          assert b in F';
        }
      }
    }
  }

  lemma StepCount(lad: Ladder, P: seq<Timestamp>, st: ScanState, s: Timestamp)
    requires GoodSlots(lad, P + [s]) && Positive(lad)
    requires OrderInv(lad, P, st) && CountInv(lad, P, st)
    ensures CountInv(lad, P + [s], Step(lad, st, s))
  {
    assert s in P + [s];
    if P != [] {
      LastBefore(lad, P, s);
    }
    assert forall t :: t in P ==> t in P + [s];
    if !InTier(lad, s) {
      StepShape(lad, st, s);
    } else if st.current.None? || s != st.current.value.end + Slot {
      StepCountOpen(lad, P, st, s);
    } else {
      StepCountStretch(lad, P, st, s);
    }
  }

  lemma StepCountOpen(lad: Ladder, P: seq<Timestamp>, st: ScanState, s: Timestamp)
    requires GoodSlots(lad, P + [s]) && Positive(lad) && s in lad.counts
    requires GoodSlots(lad, P) && forall t :: t in P ==> t in P + [s]
    requires P != [] ==> P[|P| - 1] + Slot <= s
    requires OrderInv(lad, P, st) && CountInv(lad, P, st)
    requires InTier(lad, s) && (st.current.None? || s != st.current.value.end + Slot)
    ensures CountInv(lad, P + [s], Step(lad, st, s))
  {
    StepShape(lad, st, s);
    var F := Finish(st, lad.range);
    var P' := P + [s];
    var c := lad.counts[s];
    var nb := Close(Run(s, c, c, s), lad.range);
    assert nb.peopleMin == c && nb.peopleMax == c;
    assert forall b :: b in F ==> !Within(b, s);
    forall t | t in P' && Within(nb, t) ensures t == s {
    }
    assert Within(nb, s);
  }

  lemma StepCountStretch(lad: Ladder, P: seq<Timestamp>, st: ScanState, s: Timestamp)
    requires GoodSlots(lad, P + [s]) && Positive(lad) && s in lad.counts
    requires GoodSlots(lad, P) && forall t :: t in P ==> t in P + [s]
    requires P != [] ==> P[|P| - 1] + Slot <= s
    requires OrderInv(lad, P, st) && CountInv(lad, P, st)
    requires InTier(lad, s) && st.current.Some? && s == st.current.value.end + Slot
    ensures CountInv(lad, P + [s], Step(lad, st, s))
  {
    StretchShape(lad, st, s);
    var F := Finish(st, lad.range);
    var F' := Finish(Step(lad, st, s), lad.range);
    var c := lad.counts[s];
    var oldBlock := F[|F| - 1];
    var nb := F'[|F'| - 1];
    assert forall b :: b in F ==> !Within(b, s);
    assert forall t :: t in P ==> t < s by {
      forall t | t in P ensures t < s {
        var k :| 0 <= k < |P| && P[k] == t;
        assert (P + [s])[k] == t && (P + [s])[|P|] == s;
      }
    }
    StretchBlockCounts(lad, P, s, F, nb);
  }

  /** Stretching the last block over `s` keeps every block's counts those of its slots. */
  lemma StretchBlockCounts(lad: Ladder, P: seq<Timestamp>, s: Timestamp, F: seq<StatsInterval>, nb: StatsInterval)
    requires forall t :: t in P + [s] ==> t in lad.counts
    requires forall t :: t in P ==> t in P + [s]
    requires F != [] && forall b :: b in F ==> !Within(b, s)
    requires forall t :: t in P ==> t < s
    requires BlockCounts(lad, P, F)
    requires nb.start == F[|F| - 1].start && nb.end == s + Slot && F[|F| - 1].start <= s && F[|F| - 1].end == s
    requires nb.peopleMin == Min(F[|F| - 1].peopleMin, lad.counts[s])
    requires nb.peopleMax == Max(F[|F| - 1].peopleMax, lad.counts[s])
    ensures BlockCounts(lad, P + [s], F[..|F| - 1] + [nb])
  {
    var oldBlock := F[|F| - 1];
    var F' := F[..|F| - 1] + [nb];
    StretchMembers(F, nb);
    assert oldBlock in F;
    StretchCounts(lad, P, s, oldBlock, nb);
    forall b, t | b in F' && t in P + [s] && Within(b, t)
      ensures b.peopleMin <= lad.counts[t] <= b.peopleMax
    {
      if b != nb {
        assert b in F && !Within(b, s);
      }
    }
    forall b | b in F' ensures exists t :: t in P + [s] && Within(b, t) && lad.counts[t] == b.peopleMin {
      if b != nb {
        var t :| t in P && Within(b, t) && lad.counts[t] == b.peopleMin;
        assert t in P + [s];
      }
    }
    forall b | b in F' ensures exists t :: t in P + [s] && Within(b, t) && lad.counts[t] == b.peopleMax {
      if b != nb {
        var t :| t in P && Within(b, t) && lad.counts[t] == b.peopleMax;
        assert t in P + [s];
      }
    }
  }

  /** The stretched block's counts are the least and greatest over its old slots and the new one. */
  lemma StretchCounts(lad: Ladder, P: seq<Timestamp>, s: Timestamp, oldBlock: StatsInterval, nb: StatsInterval)
    requires forall t :: t in P + [s] ==> t in lad.counts
    requires !Within(oldBlock, s)
    requires nb.start == oldBlock.start && nb.end == s + Slot && oldBlock.start <= s
    requires oldBlock.end == s
    requires nb.peopleMin == Min(oldBlock.peopleMin, lad.counts[s]) && nb.peopleMax == Max(oldBlock.peopleMax, lad.counts[s])
    requires forall t :: t in P && Within(oldBlock, t) ==> oldBlock.peopleMin <= lad.counts[t] <= oldBlock.peopleMax
    requires exists t :: t in P && Within(oldBlock, t) && lad.counts[t] == oldBlock.peopleMin
    requires exists t :: t in P && Within(oldBlock, t) && lad.counts[t] == oldBlock.peopleMax
    requires forall t :: t in P ==> t < s
    ensures forall t :: t in P + [s] && Within(nb, t) ==> nb.peopleMin <= lad.counts[t] <= nb.peopleMax
    ensures exists t :: t in P + [s] && Within(nb, t) && lad.counts[t] == nb.peopleMin
    ensures exists t :: t in P + [s] && Within(nb, t) && lad.counts[t] == nb.peopleMax
  {
    assert s in P + [s];
    forall t | t in P + [s] && Within(nb, t) ensures nb.peopleMin <= lad.counts[t] <= nb.peopleMax {
      if t != s {
        assert t in P && Within(oldBlock, t);
      }
    }
    var tmin :| tmin in P && Within(oldBlock, tmin) && lad.counts[tmin] == oldBlock.peopleMin;
    var tmax :| tmax in P && Within(oldBlock, tmax) && lad.counts[tmax] == oldBlock.peopleMax;
    assert tmin in P + [s] && tmax in P + [s];
    assert Within(nb, tmin) && Within(nb, tmax) && Within(nb, s);
  }

  /** The invariants hold after every prefix of the slots. */
  lemma {:induction false} ScanInvariants(lad: Ladder, P: seq<Timestamp>)
    requires GoodSlots(lad, P)
    ensures OrderInv(lad, P, Scan(lad, P))
    ensures ContigInv(lad, P, Scan(lad, P))
    ensures CoverInv(lad, P, Scan(lad, P))
    ensures Positive(lad) ==> CountInv(lad, P, Scan(lad, P))
    decreases |P|
  {
    if P != [] {
      var n := |P| - 1;
      var init, s := P[..n], P[n];
      assert P == init + [s];
      LastBeforeInit(lad, init, s);
      ScanInvariants(lad, init);
      var st := Scan(lad, init);
      StepOrder(lad, init, st, s);
      StepContig(lad, init, st, s);
      StepCover(lad, init, st, s);
      if Positive(lad) {
        StepCount(lad, init, st, s);
      }
    }
  }

  /** Dropping the last slot of a good sequence leaves a good sequence. */
  lemma LastBeforeInit(lad: Ladder, P: seq<Timestamp>, s: Timestamp)
    requires GoodSlots(lad, P + [s])
    ensures GoodSlots(lad, P)
  {
    if P != [] {
      LastBefore(lad, P, s);
    }
  }

  // ---------------------------------------------------------------------------
  // What `_build_blocks` guarantees

  /** Every counted slot start is a slot boundary, as `_to_slots` makes them. */
  ghost predicate AlignedKeys(lad: Ladder) {
    forall t :: t in lad.counts ==> Aligned(t)
  }

  /** The scan over all the slots meets its invariants. */
  lemma FullScan(lad: Ladder)
    requires AlignedKeys(lad) && lad.range != Empty
    ensures forall t :: t in SortedSeq(lad.counts.Keys) <==> t in lad.counts
    ensures BlocksOf(lad) == Finish(Scan(lad, SortedSeq(lad.counts.Keys)), lad.range)
    ensures OrderInv(lad, SortedSeq(lad.counts.Keys), Scan(lad, SortedSeq(lad.counts.Keys)))
    ensures ContigInv(lad, SortedSeq(lad.counts.Keys), Scan(lad, SortedSeq(lad.counts.Keys)))
    ensures CoverInv(lad, SortedSeq(lad.counts.Keys), Scan(lad, SortedSeq(lad.counts.Keys)))
    ensures Positive(lad) ==> CountInv(lad, SortedSeq(lad.counts.Keys), Scan(lad, SortedSeq(lad.counts.Keys)))
  {
    var P := SortedSeq(lad.counts.Keys);
    SortedSeqIsSortedSet(lad.counts.Keys);
    assert GoodSlots(lad, P);
    ScanInvariants(lad, P);
  }

  lemma BlocksOfOrder(lad: Ladder)
    requires AlignedKeys(lad)
    ensures Ordered(BlocksOf(lad))
    ensures forall b :: b in BlocksOf(lad) ==> Aligned(b.start) && Aligned(b.end) && b.start < b.end
  {
    if lad.range != Empty {
      FullScan(lad);
    }
  }

  lemma BlocksOfContig(lad: Ladder)
    requires AlignedKeys(lad)
    ensures forall b, t :: b in BlocksOf(lad) && Aligned(t) && Within(b, t) ==> t in lad.counts && InTier(lad, t)
  {
    if lad.range != Empty {
      FullScan(lad);
    }
  }

  lemma BlocksOfCover(lad: Ladder)
    requires AlignedKeys(lad) && lad.range != Empty
    ensures forall t :: t in lad.counts && InTier(lad, t) ==> exists b :: b in BlocksOf(lad) && Within(b, t)
  {
    FullScan(lad);
  }

  lemma BlocksOfCounts(lad: Ladder)
    requires AlignedKeys(lad) && Positive(lad)
    ensures forall b, t :: b in BlocksOf(lad) && t in lad.counts && Within(b, t) ==> b.peopleMin <= lad.counts[t] <= b.peopleMax
    ensures forall b :: b in BlocksOf(lad) ==> exists t :: t in lad.counts && Within(b, t) && lad.counts[t] == b.peopleMin
    ensures forall b :: b in BlocksOf(lad) ==> exists t :: t in lad.counts && Within(b, t) && lad.counts[t] == b.peopleMax
  {
    if lad.range != Empty {
      FullScan(lad);
    }
  }

  /**
   * Blocks come in time order, each non-empty and on the slot grid, and with
   * a gap of at least one slot between consecutive blocks: sorted, disjoint
   * and never adjacent.
   */
  lemma BlocksOrdered(lad: Ladder, i: int, j: int)
    requires AlignedKeys(lad)
    requires 0 <= i < j < |BlocksOf(lad)|
    ensures var B := BlocksOf(lad);
      && Aligned(B[i].start) && Aligned(B[i].end) && B[i].start < B[i].end
      && B[i].end < B[j].start
  {
    BlocksOfOrder(lad);
    assert BlocksOf(lad)[i] in BlocksOf(lad);
  }

  /**
   * Every slot boundary inside a block is a counted slot labelled with the
   * tier; in particular a block starts at its first slot and ends one slot
   * after its last.
   */
  lemma BlockHoldsOnlyTierSlots(lad: Ladder, i: int, t: Timestamp)
    requires AlignedKeys(lad)
    requires 0 <= i < |BlocksOf(lad)|
    ensures var b := BlocksOf(lad)[i];
      && (Aligned(t) && Within(b, t) ==> t in lad.counts && InTier(lad, t))
      && b.start in lad.counts && InTier(lad, b.start)
      && b.end - Slot in lad.counts && InTier(lad, b.end - Slot)
  {
    BlocksOfOrder(lad);
    BlocksOfContig(lad);
    var b := BlocksOf(lad)[i];
    assert b in BlocksOf(lad);
    AlignedGap(b.start, b.end);
    assert Within(b, b.start) && Within(b, b.end - Slot);
  }

  /**
   * For a tier with a range, every counted slot labelled with the tier lies
   * in exactly one block; for a tier with none there are no blocks.
   */
  lemma TierSlotInOneBlock(lad: Ladder, t: Timestamp)
    requires AlignedKeys(lad)
    ensures lad.range == Empty ==> BlocksOf(lad) == []
    ensures lad.range != Empty && t in lad.counts && InTier(lad, t) ==>
      exists i :: 0 <= i < |BlocksOf(lad)| && Within(BlocksOf(lad)[i], t)
    ensures forall i, j ::
      (0 <= i < |BlocksOf(lad)| && 0 <= j < |BlocksOf(lad)| && Within(BlocksOf(lad)[i], t) && Within(BlocksOf(lad)[j], t))
      ==> i == j
  {
    if lad.range != Empty {
      BlocksOfCover(lad);
      var B := BlocksOf(lad);
      if t in lad.counts && InTier(lad, t) {
        var b :| b in B && Within(b, t);
        var i :| 0 <= i < |B| && B[i] == b;
      }
      forall i, j | 0 <= i < |B| && 0 <= j < |B| && Within(B[i], t) && Within(B[j], t) ensures i == j {
        if i < j {
          BlocksOrdered(lad, i, j);
        } else if j < i {
          BlocksOrdered(lad, j, i);
        }
      }
    }
  }

  /**
   * When the tier's slots have positive counts, a block's `people_min` and
   * `people_max` are the least and the greatest count of the slots inside it.
   */
  lemma BlockPeopleCounts(lad: Ladder, i: int)
    requires AlignedKeys(lad) && Positive(lad)
    requires 0 <= i < |BlocksOf(lad)|
    ensures var b := BlocksOf(lad)[i];
      && (forall t :: t in lad.counts && Within(b, t) ==> b.peopleMin <= lad.counts[t] <= b.peopleMax)
      && (exists t :: t in lad.counts && Within(b, t) && lad.counts[t] == b.peopleMin)
      && (exists t :: t in lad.counts && Within(b, t) && lad.counts[t] == b.peopleMax)
  {
    BlocksOfCounts(lad);
    assert BlocksOf(lad)[i] in BlocksOf(lad);
  }

  /**
   * When the tier's slots are exactly the ones whose counts lie in a range
   * starting at 1 or more, every block's `people_min <= people_max` lie in
   * that range.
   */
  lemma BlockPeopleInRange(lad: Ladder, i: int)
    requires AlignedKeys(lad) && lad.range.lower >= 1
    requires forall t :: t in lad.counts && InTier(lad, t) ==> lad.range.lower <= lad.counts[t] <= lad.range.upper
    requires 0 <= i < |BlocksOf(lad)|
    ensures var b := BlocksOf(lad)[i];
      lad.range.lower <= b.peopleMin <= b.peopleMax <= lad.range.upper
  {
    assert Positive(lad);
    BlockPeopleCounts(lad, i);
    var b := BlocksOf(lad)[i];
    var tmin :| tmin in lad.counts && Within(b, tmin) && lad.counts[tmin] == b.peopleMin;
    var tmax :| tmax in lad.counts && Within(b, tmax) && lad.counts[tmax] == b.peopleMax;
    BlockHoldsOnlyTierSlots(lad, i, tmin);
    BlockHoldsOnlyTierSlots(lad, i, tmax);
  }

  /**
   * Blocks made for two different tiers from the same counts and labels never
   * overlap: a slot has one label, and a block holds only slots of its tier.
   */
  lemma DifferentTiersDisjoint(lad1: Ladder, lad2: Ladder, i: int, j: int)
    requires lad1.counts == lad2.counts && lad1.labels == lad2.labels && lad1.tier != lad2.tier
    requires AlignedKeys(lad1)
    requires 0 <= i < |BlocksOf(lad1)| && 0 <= j < |BlocksOf(lad2)|
    ensures BlocksOf(lad1)[i].end <= BlocksOf(lad2)[j].start || BlocksOf(lad2)[j].end <= BlocksOf(lad1)[i].start
  {
    var b1, b2 := BlocksOf(lad1)[i], BlocksOf(lad2)[j];
    BlockHoldsOnlyTierSlots(lad1, i, b1.start);
    BlockHoldsOnlyTierSlots(lad2, j, b2.start);
    BlocksOfOrder(lad1);
    BlocksOfOrder(lad2);
    assert b1 in BlocksOf(lad1) && b2 in BlocksOf(lad2);
    var t := if b1.start >= b2.start then b1.start else b2.start;
    BlockHoldsOnlyTierSlots(lad1, i, t);
    BlockHoldsOnlyTierSlots(lad2, j, t);
  }
}
