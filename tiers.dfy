/**
 * Percentile tiers (`_compute_people_ranges` and `_classify_slots_by_ratio` in
 * app/service/topic_stats.py): three disjoint count bands derived top-down
 * from the largest count, and the band each slot falls into.
 */
module Tiers {
  import opened Models
  import opened SortedSets

  /** The ratios of `RATIO_CONFIG`: 0.9, 0.7 and 0.5. */
  datatype Tier = T90 | T70 | T50

  /** `sorted(ratios, reverse=True)`: highest ratio first. */
  const TierOrder: seq<Tier> := [T90, T70, T50]

  function Percent(t: Tier): nat {
    match t
    case T90 => 90
    case T70 => 70
    case T50 => 50
  }

  /** An inclusive count range; `(0, 0)` marks a tier with no range. */
  datatype Range = Range(lower: int, upper: int)

  const Empty: Range := Range(0, 0)

  type Ranges = map<Tier, Range>

  /** `people_ranges.get(ratio, (0, 0))`. */
  function RangeOf(ranges: Ranges, t: Tier): Range {
    if t in ranges then ranges[t] else Empty
  }

  /** A tier's range is in use and holds `count`. */
  predicate Holds(r: Range, count: int) {
    r != Empty && r.lower <= count <= r.upper
  }

  /** Some tier's range is in use and holds `count`. */
  predicate InSomeRange(ranges: Ranges, count: int) {
    exists t :: Holds(RangeOf(ranges, t), count)
  }

  /**
   * `max(1, ceil(max_people * ratio))`, with the ratio as the exact fraction
   * `Percent(t) / 100`: the least positive count that is at least that share of
   * `maxPeople`.
   */
  function LowerBound(maxPeople: nat, t: Tier): (lower: nat)
    ensures lower >= 1 && lower * 100 >= maxPeople * Percent(t)
    ensures lower == 1 || (lower - 1) * 100 < maxPeople * Percent(t)
  {
    var share := (maxPeople * Percent(t) + 99) / 100;
    if share < 1 then 1 else share
  }

  /** The loop of `_compute_people_ranges` over the remaining tiers, with the running upper bound. */
  function RangesFrom(maxPeople: nat, tiers: seq<Tier>, upper: int): Ranges
    decreases |tiers|
  {
    if tiers == [] then map[]
    else
      var t := tiers[0];
      var lower := LowerBound(maxPeople, t);
      if upper < lower then RangesFrom(maxPeople, tiers[1..], upper)[t := Empty]
      else RangesFrom(maxPeople, tiers[1..], lower - 1)[t := Range(lower, upper)]
  }

  /** What `_compute_people_ranges(max_people, ratios)` returns. */
  function PeopleRanges(maxPeople: nat): Ranges {
    RangesFrom(maxPeople, TierOrder, maxPeople)
  }

  lemma {:induction false} RangesFromKeys(maxPeople: nat, tiers: seq<Tier>, upper: int)
    ensures forall t :: t in RangesFrom(maxPeople, tiers, upper) <==> t in tiers
    decreases |tiers|
  {
    if tiers != [] {
      RangesFromKeys(maxPeople, tiers[1..], upper);
      RangesFromKeys(maxPeople, tiers[1..], LowerBound(maxPeople, tiers[0]) - 1);
      assert forall t :: t in tiers <==> t == tiers[0] || t in tiers[1..];
    }
  }

  /** Setting a key on the left of a union is setting it on the right, when the right lacks it. */
  lemma UpdateUnion(a: Ranges, b: Ranges, t: Tier, r: Range)
    requires t !in b
    ensures a[t := r] + b == a + b[t := r]
  {
  }

  /**
   * Handling the first remaining tier moves its range from the part still to
   * compute to the part already computed.
   */
  lemma RangesFromStep(maxPeople: nat, ranges: Ranges, tiers: seq<Tier>, upper: int)
    requires tiers != [] && tiers[0] !in tiers[1..]
    ensures var t, lower := tiers[0], LowerBound(maxPeople, tiers[0]);
      && (upper < lower ==>
            ranges + RangesFrom(maxPeople, tiers, upper) == ranges[t := Empty] + RangesFrom(maxPeople, tiers[1..], upper))
      && (upper >= lower ==>
            ranges + RangesFrom(maxPeople, tiers, upper)
            == ranges[t := Range(lower, upper)] + RangesFrom(maxPeople, tiers[1..], lower - 1))
  {
    var t, lower := tiers[0], LowerBound(maxPeople, tiers[0]);
    if upper < lower {
      RangesFromKeys(maxPeople, tiers[1..], upper);
      UpdateUnion(ranges, RangesFrom(maxPeople, tiers[1..], upper), t, Empty);
    } else {
      RangesFromKeys(maxPeople, tiers[1..], lower - 1);
      UpdateUnion(ranges, RangesFrom(maxPeople, tiers[1..], lower - 1), t, Range(lower, upper));
    }
  }

  /** `_compute_people_ranges`: fills the ranges highest ratio first while lowering the running upper bound. */
  method ComputePeopleRanges(maxPeople: nat) returns (ranges: Ranges)
    ensures ranges == PeopleRanges(maxPeople)
  {
    ranges := map[];
    var upperBound: int := maxPeople;
    for i := 0 to |TierOrder|
      invariant ranges + RangesFrom(maxPeople, TierOrder[i..], upperBound) == PeopleRanges(maxPeople)
    {
      var t := TierOrder[i];
      var lowerBound := LowerBound(maxPeople, t);
      assert TierOrder[i..][1..] == TierOrder[i + 1..];
      assert t !in TierOrder[i + 1..];
      RangesFromStep(maxPeople, ranges, TierOrder[i..], upperBound);
      if upperBound < lowerBound {
        ranges := ranges[t := Empty];
        continue;
      }
      ranges := ranges[t := Range(lowerBound, upperBound)];
      upperBound := lowerBound - 1;
    }
    assert ranges + RangesFrom(maxPeople, [], upperBound) == ranges;
  }

  /** Higher ratios never have lower bounds below those of lower ratios. */
  lemma LowerBoundsDescend(maxPeople: nat)
    ensures LowerBound(maxPeople, T50) <= LowerBound(maxPeople, T70) <= LowerBound(maxPeople, T90) <= maxPeople + 1
    ensures maxPeople >= 1 ==> LowerBound(maxPeople, T90) <= maxPeople
  {
  }

  /** The three ranges of `_compute_people_ranges`, case by case on which tiers are left without one. */
  lemma PeopleRangesTable(maxPeople: nat)
    requires maxPeople >= 1
    ensures var l9, l7, l5 := LowerBound(maxPeople, T90), LowerBound(maxPeople, T70), LowerBound(maxPeople, T50);
      var upper50 := if l7 <= l9 - 1 then l7 - 1 else l9 - 1;
      PeopleRanges(maxPeople) == map[
        T90 := Range(l9, maxPeople),
        T70 := if l7 <= l9 - 1 then Range(l7, l9 - 1) else Empty,
        T50 := if l5 <= upper50 then Range(l5, upper50) else Empty]
  {
    var m := maxPeople;
    LowerBoundsDescend(m);
    var l9, l7, l5 := LowerBound(m, T90), LowerBound(m, T70), LowerBound(m, T50);
    assert [T90, T70, T50][1..] == [T70, T50];
    assert [T70, T50][1..] == [T50];
    assert [T50][1..] == [];
    var upper50 := if l7 <= l9 - 1 then l7 - 1 else l9 - 1;
    var r50 := RangesFrom(m, [T50], upper50);
    assert r50 == map[T50 := if l5 <= upper50 then Range(l5, upper50) else Empty];
    var r70 := RangesFrom(m, [T70, T50], l9 - 1);
    assert r70 == r50[T70 := if l7 <= l9 - 1 then Range(l7, l9 - 1) else Empty];
  }

  /**
   * For `max_people >= 1`: every tier gets a range, and the 90 tier's range is
   * in use and ends at `max_people`.
   */
  lemma PeopleRangesTop(maxPeople: nat)
    requires maxPeople >= 1
    ensures T90 in PeopleRanges(maxPeople) && T70 in PeopleRanges(maxPeople) && T50 in PeopleRanges(maxPeople)
    ensures PeopleRanges(maxPeople)[T90] == Range(LowerBound(maxPeople, T90), maxPeople)
    ensures 1 <= LowerBound(maxPeople, T90) <= maxPeople
  {
    PeopleRangesTable(maxPeople);
    LowerBoundsDescend(maxPeople);
  }

  /**
   * For `max_people >= 1`: a range in use starts at its tier's lower bound
   * and has `1 <= lower <= upper <= max_people`; an unused one is `(0, 0)`.
   */
  lemma PeopleRangesBounds(maxPeople: nat, t: Tier)
    requires maxPeople >= 1
    ensures t in PeopleRanges(maxPeople)
    ensures var r := PeopleRanges(maxPeople)[t];
      r == Empty || (r.lower == LowerBound(maxPeople, t) && 1 <= r.lower <= r.upper <= maxPeople)
  {
    PeopleRangesTable(maxPeople);
    LowerBoundsDescend(maxPeople);
  }

  /**
   * For `max_people >= 1`: ranges in use are disjoint and strictly descend in
   * tier order, so no count is held by two tiers.
   */
  lemma PeopleRangesDisjoint(maxPeople: nat, a: Tier, b: Tier)
    requires maxPeople >= 1
    requires Percent(a) > Percent(b)
    requires PeopleRanges(maxPeople)[a] != Empty && PeopleRanges(maxPeople)[b] != Empty
    ensures PeopleRanges(maxPeople)[b].upper < PeopleRanges(maxPeople)[a].lower
  {
    PeopleRangesTable(maxPeople);
    LowerBoundsDescend(maxPeople);
  }

  /**
   * For `max_people >= 1`: the ranges in use together hold exactly the counts
   * from the 50 tier's lower bound up to `max_people`; a tier left without a
   * range leaves no gap, because the running upper bound is kept.
   */
  lemma PeopleRangesCover(maxPeople: nat, count: int)
    requires maxPeople >= 1
    ensures InSomeRange(PeopleRanges(maxPeople), count) <==> LowerBound(maxPeople, T50) <= count <= maxPeople
  {
    PeopleRangesTable(maxPeople);
    LowerBoundsDescend(maxPeople);
    var ranges := PeopleRanges(maxPeople);
    if InSomeRange(ranges, count) {
      var t :| Holds(RangeOf(ranges, t), count);
      match t
      case T90 =>
      case T70 =>
      case T50 =>
    }
    if LowerBound(maxPeople, T50) <= count <= maxPeople {
      if count >= LowerBound(maxPeople, T90) {
        assert Holds(RangeOf(ranges, T90), count);
      } else if Holds(RangeOf(ranges, T70), count) {
      } else {
        assert Holds(RangeOf(ranges, T50), count);
      }
    }
  }

  /** The label of a count: the first tier, highest first, whose range is in use and holds it. */
  function LabelFrom(tiers: seq<Tier>, ranges: Ranges, count: int): Option<Tier>
    decreases |tiers|
  {
    if tiers == [] then None
    else
      var r := RangeOf(ranges, tiers[0]);
      if r == Empty then LabelFrom(tiers[1..], ranges, count)
      else if r.lower <= count <= r.upper then Some(tiers[0])
      else LabelFrom(tiers[1..], ranges, count)
  }

  function LabelOf(ranges: Ranges, count: int): Option<Tier> {
    LabelFrom(TierOrder, ranges, count)
  }

  /**
   * A count is labelled with tier `t` exactly when `t`'s range is in use and
   * holds it and no higher tier's range in use does; it is unlabelled exactly
   * when no range in use holds it.
   */
  lemma LabelOfIsFirstHolder(ranges: Ranges, count: int, t: Tier)
    ensures LabelOf(ranges, count) == Some(t) <==>
      Holds(RangeOf(ranges, t), count) &&
      forall t' :: Percent(t') > Percent(t) ==> !Holds(RangeOf(ranges, t'), count)
    ensures LabelOf(ranges, count) == None <==> !InSomeRange(ranges, count)
  {
    assert [T90, T70, T50][1..] == [T70, T50];
    assert [T70, T50][1..] == [T50];
    assert [T50][1..] == [];
    if InSomeRange(ranges, count) {
      var t' :| Holds(RangeOf(ranges, t'), count);
      match t'
      case T90 =>
      case T70 =>
      case T50 =>
    }
  }

  /**
   * With the ranges of `_compute_people_ranges`, a count gets the one tier
   * whose range holds it, a count gets some tier exactly when it lies between
   * the 50 tier's lower bound and the maximum, and a count of 0 stays unlabelled.
   */
  lemma LabelOfPeopleRanges(maxPeople: nat, count: int, t: Tier)
    requires maxPeople >= 1
    ensures LabelOf(PeopleRanges(maxPeople), count) == Some(t) <==> Holds(PeopleRanges(maxPeople)[t], count)
    ensures LabelOf(PeopleRanges(maxPeople), count).Some? <==> LowerBound(maxPeople, T50) <= count <= maxPeople
    ensures LabelOf(PeopleRanges(maxPeople), 0) == None
  {
    var ranges := PeopleRanges(maxPeople);
    PeopleRangesTop(maxPeople);
    PeopleRangesCover(maxPeople, count);
    PeopleRangesCover(maxPeople, 0);
    LabelOfIsFirstHolder(ranges, count, t);
    LabelOfIsFirstHolder(ranges, 0, t);
    if Holds(ranges[t], count) {
      forall t' | Percent(t') > Percent(t) ensures !Holds(RangeOf(ranges, t'), count) {
        if Holds(RangeOf(ranges, t'), count) {
          PeopleRangesDisjoint(maxPeople, t', t);
        }
      }
    }
  }

  /** The inner loop of `_classify_slots_by_ratio` for one slot: tiers highest first, skipping `(0, 0)`, stopping at the first match. */
  method LabelSlot(count: nat, ranges: Ranges) returns (slotLabel: Option<Tier>)
    ensures slotLabel == LabelOf(ranges, count)
  {
    slotLabel := None;
    var j := 0;
    while j < |TierOrder|
      invariant 0 <= j <= |TierOrder|
      invariant LabelFrom(TierOrder[j..], ranges, count) == LabelOf(ranges, count)
    {
      var r := RangeOf(ranges, TierOrder[j]);
      assert TierOrder[j..][1..] == TierOrder[j + 1..];
      if r.lower == 0 && r.upper == 0 {
        j := j + 1;
        continue;
      }
      if r.lower <= count <= r.upper {
        slotLabel := Some(TierOrder[j]);
        return;
      }
      j := j + 1;
    }
  }

  /** What `_classify_slots_by_ratio` returns: each counted slot with its count's label. */
  ghost function Labels(counts: map<Timestamp, nat>, ranges: Ranges): map<Timestamp, Option<Tier>> {
    map s | s in counts :: LabelOf(ranges, counts[s])
  }

  /** A map over the counted slots that holds every slot's label is `Labels`. */
  lemma LabelsFromParts(counts: map<Timestamp, nat>, ranges: Ranges, labels: map<Timestamp, Option<Tier>>)
    requires forall s :: s in labels <==> s in counts
    requires forall s :: s in labels ==> labels[s] == LabelOf(ranges, counts[s])
    ensures labels == Labels(counts, ranges)
  {
    var spec := Labels(counts, ranges);
    forall s ensures s in labels <==> s in spec {
    }
    assert labels.Keys == spec.Keys;
    forall s | s in labels ensures labels[s] == spec[s] {
    }
  }

  /** `_classify_slots_by_ratio`: labels every counted slot with its tier, or with none. */
  method ClassifySlots(counts: map<Timestamp, nat>, ranges: Ranges) returns (labels: map<Timestamp, Option<Tier>>)
    ensures labels == Labels(counts, ranges)
  {
    labels := map[];
    var pending := counts.Keys;
    while pending != {}
      invariant pending <= counts.Keys
      invariant forall s :: s in labels <==> s in counts && s !in pending
      invariant forall s :: s in labels ==> labels[s] == LabelOf(ranges, counts[s])
      decreases |pending|
    {
      HasElement(pending);
      var slot :| slot in pending;
      var slotLabel := LabelSlot(counts[slot], ranges);
      labels := labels[slot := slotLabel];
      pending := pending - {slot};
    }
    LabelsFromParts(counts, ranges, labels);
  }
}
