/**
 * The whole statistics pipeline (`build_topic_stats` in
 * app/service/topic_stats.py): count, find the maximum, derive the tier
 * ranges, label the slots and merge one ladder per tier.
 */
module TopicStatistics {
  import opened Models
  import opened SortedSets
  import opened Slots
  import opened Coverage
  import opened Tiers
  import opened Blocks

  /** `max(bucket_counts.values(), default=0)`. */
  ghost function MaxValue(counts: Counts): (m: nat)
    ensures counts == map[] ==> m == 0
    ensures forall s :: s in counts ==> counts[s] <= m
    ensures counts != map[] ==> exists s :: s in counts && counts[s] == m
    decreases |counts.Keys|
  {
    if counts == map[] then 0
    else
      HasElement(counts.Keys);
      var s :| s in counts;
      var rest := MaxValue(counts - {s});
      assert forall t :: t in counts ==> t == s || t in counts - {s};
      if counts[s] >= rest then counts[s] else rest
  }

  /** The maximum is the one value that bounds every count and is one of them. */
  lemma MaxValueUnique(counts: Counts, m: nat)
    requires counts == map[] ==> m == 0
    requires forall s :: s in counts ==> counts[s] <= m
    requires counts != map[] ==> exists s :: s in counts && counts[s] == m
    ensures m == MaxValue(counts)
  {
    if counts != map[] {
      var s :| s in counts && counts[s] == m;
      var s' :| s' in counts && counts[s'] == MaxValue(counts);
    }
  }

  /** Python's `max` over the values: the running maximum of a walk over the slots. */
  method MaxCount(counts: Counts) returns (m: nat)
    ensures m == MaxValue(counts)
  {
    m := 0;
    var pending := counts.Keys;
    while pending != {}
      invariant pending <= counts.Keys
      invariant forall s :: s in counts && s !in pending ==> counts[s] <= m
      invariant m == 0 || exists s :: s in counts && counts[s] == m
      decreases |pending|
    {
      HasElement(pending);
      var slot :| slot in pending;
      if counts[slot] > m {
        m := counts[slot];
      }
      pending := pending - {slot};
    }
    if m == 0 && counts != map[] {
      HasElement(counts.Keys);
      var s :| s in counts;
      assert counts[s] == 0;
    }
    MaxValueUnique(counts, m);
  }

  /** The arguments `_build_blocks` gets for tier `t`. */
  function LadderFor(counts: Counts, ranges: Ranges, labels: map<Timestamp, Option<Tier>>, t: Tier): Ladder {
    Ladder(counts, labels, t, RangeOf(ranges, t))
  }

  /** The ladder of tier `t` in a `TopicStats`. */
  function LadderOf(stats: TopicStats, t: Tier): seq<StatsInterval> {
    match t
    case T90 => stats.blocks90
    case T70 => stats.blocks70
    case T50 => stats.blocks50
  }

  const NoStats: TopicStats := TopicStats([], [], [])

  /** What `build_topic_stats(topic)` returns. */
  ghost function StatsOf(topic: Topic): TopicStats {
    var counts := CountsOf(topic.constraints, topic.votes);
    var maxPeople := MaxValue(counts);
    if maxPeople == 0 then NoStats
    else
      var ranges := PeopleRanges(maxPeople);
      var labels := Labels(counts, ranges);
      TopicStats(
        BlocksOf(LadderFor(counts, ranges, labels, T90)),
        BlocksOf(LadderFor(counts, ranges, labels, T70)),
        BlocksOf(LadderFor(counts, ranges, labels, T50)))
  }

  /** `build_topic_stats`: the pipeline, filling the ladders tier by tier. */
  method BuildTopicStats(topic: Topic) returns (stats: TopicStats)
    ensures stats == StatsOf(topic)
  {
    var counts := CountBuckets(topic.constraints, topic.votes);
    var maxPeople := MaxCount(counts);
    if maxPeople == 0 {
      return NoStats;
    }
    var ranges := ComputePeopleRanges(maxPeople);
    var labels := ClassifySlots(counts, ranges);
    stats := BuildLadders(counts, ranges, labels);
  }

  /** The loop of `build_topic_stats` over the ratios, building one ladder per tier. */
  method BuildLadders(counts: Counts, ranges: Ranges, labels: map<Timestamp, Option<Tier>>) returns (stats: TopicStats)
    ensures stats == TopicStats(
      BlocksOf(LadderFor(counts, ranges, labels, T90)),
      BlocksOf(LadderFor(counts, ranges, labels, T70)),
      BlocksOf(LadderFor(counts, ranges, labels, T50)))
  {
    var blocks: map<Tier, seq<StatsInterval>> := map[];
    for i := 0 to |TierOrder|
      invariant forall j :: 0 <= j < i ==>
        TierOrder[j] in blocks && blocks[TierOrder[j]] == BlocksOf(LadderFor(counts, ranges, labels, TierOrder[j]))
    {
      var t := TierOrder[i];
      var ladder := BuildBlocks(LadderFor(counts, ranges, labels, t));
      blocks := blocks[t := ladder];
    }
    assert TierOrder[0] == T90 && TierOrder[1] == T70 && TierOrder[2] == T50;
    stats := TopicStats(blocks[T90], blocks[T70], blocks[T50]);
  }

  // ---------------------------------------------------------------------------
  // Properties of the pipeline

  /** The counted slots of a topic are slot boundaries. */
  lemma CountsAligned(topic: Topic)
    ensures forall s :: s in CountsOf(topic.constraints, topic.votes) ==> Aligned(s)
  {
    forall s | s in CountsOf(topic.constraints, topic.votes) ensures Aligned(s) {
      CountsDomain(topic.constraints, topic.votes, s);
    }
  }

  /**
   * A slot labelled with tier `t` has a count inside `t`'s range, which is in
   * use and starts at 1 or more.
   */
  lemma LabelledInRange(counts: Counts, maxPeople: nat, s: Timestamp, t: Tier)
    requires maxPeople >= 1 && s in counts
    ensures var ranges := PeopleRanges(maxPeople);
      InTier(LadderFor(counts, ranges, Labels(counts, ranges), t), s) ==>
        ranges[t] != Empty && ranges[t].lower >= 1 && ranges[t].lower <= counts[s] <= ranges[t].upper
  {
    var ranges := PeopleRanges(maxPeople);
    LabelOfPeopleRanges(maxPeople, counts[s], t);
    PeopleRangesBounds(maxPeople, t);
  }

  /**
   * All three ladders are empty exactly when no slot has a positive count:
   * no votes, or no voter covering any counted slot.
   */
  lemma NoCoverageNoStats(topic: Topic)
    ensures var counts := CountsOf(topic.constraints, topic.votes);
      StatsOf(topic) == NoStats <==> forall s :: s in counts ==> counts[s] == 0
    ensures var counts := CountsOf(topic.constraints, topic.votes);
      StatsOf(topic).blocks90 == [] <==> forall s :: s in counts ==> counts[s] == 0
  {
    var counts := CountsOf(topic.constraints, topic.votes);
    var m := MaxValue(counts);
    if m != 0 {
      var s :| s in counts && counts[s] == m;
      var ranges := PeopleRanges(m);
      var labels := Labels(counts, ranges);
      var lad := LadderFor(counts, ranges, labels, T90);
      PeopleRangesTop(m);
      LabelOfPeopleRanges(m, m, T90);
      assert InTier(lad, s);
      CountsAligned(topic);
      TierSlotInOneBlock(lad, s);
      assert StatsOf(topic).blocks90 == BlocksOf(lad);
    }
  }

  /** A topic nobody has voted on has empty ladders. */
  lemma NoVotesNoStats(topic: Topic)
    requires topic.votes == map[]
    ensures StatsOf(topic) == NoStats
  {
    var counts := CountsOf(topic.constraints, topic.votes);
    forall s | s in counts ensures counts[s] == 0 {
      CountsAtMostVoters(topic.constraints, topic.votes, s);
    }
    NoCoverageNoStats(topic);
  }

  /** The ladder of tier `t` is what `_build_blocks` makes for `t`, and there are none without a positive count. */
  lemma LadderOfStats(topic: Topic, t: Tier)
    ensures var counts := CountsOf(topic.constraints, topic.votes);
      var m := MaxValue(counts);
      && (m == 0 ==> LadderOf(StatsOf(topic), t) == [])
      && (m != 0 ==> LadderOf(StatsOf(topic), t) == BlocksOf(LadderFor(counts, PeopleRanges(m), Labels(counts, PeopleRanges(m)), t)))
  {
  }

  /**
   * Blocks of two different ladders never overlap: a slot is labelled with at
   * most one tier, and a block holds only slots of its own tier.
   */
  lemma LaddersDisjoint(topic: Topic, t1: Tier, t2: Tier, i: int, j: int)
    requires t1 != t2
    requires 0 <= i < |LadderOf(StatsOf(topic), t1)| && 0 <= j < |LadderOf(StatsOf(topic), t2)|
    ensures var b1, b2 := LadderOf(StatsOf(topic), t1)[i], LadderOf(StatsOf(topic), t2)[j];
      b1.end <= b2.start || b2.end <= b1.start
  {
    var counts := CountsOf(topic.constraints, topic.votes);
    var m := MaxValue(counts);
    var ranges := PeopleRanges(m);
    var labels := Labels(counts, ranges);
    LadderOfStats(topic, t1);
    LadderOfStats(topic, t2);
    CountsAligned(topic);
    DifferentTiersDisjoint(LadderFor(counts, ranges, labels, t1), LadderFor(counts, ranges, labels, t2), i, j);
  }

  /** With no counts above 0, no range is in use and nothing is labelled. */
  lemma LabelNeedsPositiveMax(maxPeople: nat, count: int)
    ensures LabelOf(PeopleRanges(maxPeople), count).Some? ==> maxPeople >= 1
  {
    var ranges := PeopleRanges(maxPeople);
    assert TierOrder[1..] == [T70, T50];
    assert [T70, T50][1..] == [T50];
    assert [T50][1..] == [];
    LabelOfIsFirstHolder(ranges, count, T90);
    assert maxPeople == 0 ==> ranges == map[T50 := Empty][T70 := Empty][T90 := Empty];
  }

  /** Ladder-level form of `LabelledSlotInOneBlock`. */
  lemma LabelledSlotInOneLadderBlock(counts: Counts, m: nat, t: Tier, s: Timestamp)
    requires forall x :: x in counts ==> Aligned(x)
    requires m >= 1 && s in counts && LabelOf(PeopleRanges(m), counts[s]) == Some(t)
    ensures var B := BlocksOf(LadderFor(counts, PeopleRanges(m), Labels(counts, PeopleRanges(m)), t));
      && (exists i :: 0 <= i < |B| && Within(B[i], s))
      && (forall i, j :: (0 <= i < |B| && 0 <= j < |B| && Within(B[i], s) && Within(B[j], s)) ==> i == j)
  {
    var ranges := PeopleRanges(m);
    var labels := Labels(counts, ranges);
    var lad := LadderFor(counts, ranges, labels, t);
    assert s in labels && labels[s] == Some(t);
    assert InTier(lad, s);
    LabelledInRange(counts, m, s, t);
    TierSlotInOneBlock(lad, s);
  }

  /**
   * Every counted slot whose count gives it tier `t` lies in exactly one block
   * of ladder `t`.
   */
  lemma LabelledSlotInOneBlock(topic: Topic, t: Tier, s: Timestamp)
    requires var counts := CountsOf(topic.constraints, topic.votes);
      s in counts && LabelOf(PeopleRanges(MaxValue(counts)), counts[s]) == Some(t)
    ensures var B := LadderOf(StatsOf(topic), t);
      && (exists i :: 0 <= i < |B| && Within(B[i], s))
      && (forall i, j :: (0 <= i < |B| && 0 <= j < |B| && Within(B[i], s) && Within(B[j], s)) ==> i == j)
  {
    var counts := CountsOf(topic.constraints, topic.votes);
    var m := MaxValue(counts);
    LabelNeedsPositiveMax(m, counts[s]);
    LadderOfStats(topic, t);
    CountsAligned(topic);
    LabelledSlotInOneLadderBlock(counts, m, t, s);
  }

  /**
   * Every block of ladder `t` has `people_min <= people_max` inside `t`'s
   * range, and they are the least and greatest count of the block's slots.
   */
  lemma BlockPeople(topic: Topic, t: Tier, i: int)
    requires 0 <= i < |LadderOf(StatsOf(topic), t)|
    ensures var counts := CountsOf(topic.constraints, topic.votes);
      var range := RangeOf(PeopleRanges(MaxValue(counts)), t);
      var b := LadderOf(StatsOf(topic), t)[i];
      && range.lower <= b.peopleMin <= b.peopleMax <= range.upper
      && (forall s :: s in counts && Within(b, s) ==> b.peopleMin <= counts[s] <= b.peopleMax)
      && (exists s :: s in counts && Within(b, s) && counts[s] == b.peopleMin)
      && (exists s :: s in counts && Within(b, s) && counts[s] == b.peopleMax)
  {
    var counts := CountsOf(topic.constraints, topic.votes);
    var m := MaxValue(counts);
    LadderOfStats(topic, t);
    var ranges := PeopleRanges(m);
    var lad := LadderFor(counts, ranges, Labels(counts, ranges), t);
    CountsAligned(topic);
    PeopleRangesBounds(m, t);
    assert lad.range == Empty ==> BlocksOf(lad) == [];
    forall s | s in counts && InTier(lad, s) ensures ranges[t].lower <= counts[s] <= ranges[t].upper {
      LabelledInRange(counts, m, s, t);
    }
    BlockPeopleInRange(lad, i);
    BlockPeopleCounts(lad, i);
  }
}
