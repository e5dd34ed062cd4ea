/**
 * Coverage counting (`_count_buckets` in app/service/topic_stats.py): for each
 * slot, how many voters have an interval holding the whole slot.
 */
module Coverage {
  import opened Models
  import opened SortedSets
  import opened Slots

  /** `topic.votes`: each user's full list of intervals. */
  type Votes = map<string, seq<Interval>>

  /** Slot start to number of covering voters. */
  type Counts = map<Timestamp, nat>

  /** `counts.get(slot, 0)`. */
  function Get(counts: Counts, s: Timestamp): nat {
    if s in counts then counts[s] else 0
  }

  /** The users among `users` with an interval that holds the whole slot at `s`. */
  ghost function VotersAmong(votes: Votes, users: set<string>, s: Timestamp): set<string> {
    set u | u in users && u in votes && Covers(votes[u], s)
  }

  /** All users whose intervals hold the whole slot at `s`. */
  ghost function Voters(votes: Votes, s: Timestamp): set<string> {
    VotersAmong(votes, votes.Keys, s)
  }

  /** Every slot start some voter's own intervals yield. */
  ghost function VotedSlots(votes: Votes): set<Timestamp> {
    set u, s | u in votes && s in SlotSet(votes[u]) :: s
  }

  /**
   * What `_count_buckets` returns. Without constraints, the slots some voter
   * covers; with constraints, every constraint slot, covered or not. Either way
   * a slot's count is its number of covering voters.
   */
  ghost function CountsOf(constraints: seq<Interval>, votes: Votes): Counts {
    var domain := if constraints == [] then VotedSlots(votes) else SlotSet(constraints);
    map s | s in domain :: |Voters(votes, s)|
  }

  /** A slot start is voted for exactly when it is aligned and some voter covers it. */
  lemma VotedSlotsMembers(votes: Votes, s: Timestamp)
    ensures s in VotedSlots(votes) <==> Aligned(s) && Voters(votes, s) != {}
  {
    if s in VotedSlots(votes) {
      var u :| u in votes && s in SlotSet(votes[u]);
      SlotSetMembers(votes[u], s);
      assert u in Voters(votes, s);
    }
    if Aligned(s) && Voters(votes, s) != {} {
      var u :| u in Voters(votes, s);
      SlotSetMembers(votes[u], s);
    }
  }

  /** Adding one user to the counted ones adds that user's vote for `s` and nothing else. */
  lemma VotersAmongAddOne(votes: Votes, done: set<string>, u: string, s: Timestamp)
    requires u in votes && u !in done
    ensures |VotersAmong(votes, done + {u}, s)|
         == |VotersAmong(votes, done, s)| + (if Covers(votes[u], s) then 1 else 0)
  {
    if Covers(votes[u], s) {
      assert VotersAmong(votes, done + {u}, s) == VotersAmong(votes, done, s) + {u};
    } else {
      assert VotersAmong(votes, done + {u}, s) == VotersAmong(votes, done, s);
    }
  }

  /** The unconstrained inner loop: one increment per slot of one user's slot list. */
  method AddVoterSlots(counts: Counts, slots: seq<Timestamp>) returns (updated: Counts)
    requires StrictlyIncreasing(slots)
    ensures forall s :: s in updated <==> s in counts || s in slots
    ensures forall s :: Get(updated, s) == Get(counts, s) + (if s in slots then 1 else 0)
  {
    updated := counts;
    for i := 0 to |slots|
      invariant forall s :: s in updated <==> s in counts || s in slots[..i]
      invariant forall s :: Get(updated, s) == Get(counts, s) + (if s in slots[..i] then 1 else 0)
    {
      var slot := slots[i];
      assert slot !in slots[..i];
      updated := updated[slot := Get(updated, slot) + 1];
      assert slots[..i + 1] == slots[..i] + [slot];
    }
    assert slots[..|slots|] == slots;
  }

  /** The constrained inner loop: one user's any-interval test over every allowed slot. */
  method AddVoterCoverage(counts: Counts, allowed: seq<Timestamp>, intervals: seq<Interval>)
    returns (updated: Counts)
    requires StrictlyIncreasing(allowed)
    requires forall s :: s in allowed ==> s in counts
    ensures updated.Keys == counts.Keys
    ensures forall s :: s in updated ==>
      updated[s] == counts[s] + (if s in allowed && Covers(intervals, s) then 1 else 0)
  {
    updated := counts;
    for i := 0 to |allowed|
      invariant updated.Keys == counts.Keys
      invariant forall s :: s in updated ==>
        updated[s] == counts[s] + (if s in allowed[..i] && Covers(intervals, s) then 1 else 0)
    {
      var slot := allowed[i];
      assert slot !in allowed[..i];
      var slotEnd := slot + Slot;
      if exists k :: 0 <= k < |intervals| && intervals[k].start <= slot && intervals[k].end >= slotEnd {
        updated := updated[slot := updated[slot] + 1];
      }
      assert allowed[..i + 1] == allowed[..i] + [slot];
    }
    assert allowed[..|allowed|] == allowed;
  }

  /**
   * `_count_buckets`. Without constraints each user's intervals are first
   * expanded into a duplicate-free slot list; with constraints each allowed
   * slot is tested against each user's intervals. Both give every counted
   * slot its number of covering voters.
   */
  method CountBuckets(constraints: seq<Interval>, votes: Votes) returns (counts: Counts)
    ensures counts == CountsOf(constraints, votes)
  {
    if constraints == [] {
      counts := CountVotedSlots(votes);
    } else {
      counts := CountAllowedSlots(constraints, votes);
    }
  }

  /** The branch of `_count_buckets` without constraints. */
  method CountVotedSlots(votes: Votes) returns (counts: Counts)
    ensures counts == CountsOf([], votes)
  {
    var pending := votes.Keys;
    counts := map[];
    NoneVoted(votes);
    assert votes.Keys - pending == {};
    while pending != {}
      invariant pending <= votes.Keys
      invariant VotedAmong(votes, votes.Keys - pending, counts)
      decreases |pending|
    {
      var user :| user in pending;
      ghost var done := votes.Keys - pending;
      assert votes.Keys - (pending - {user}) == done + {user};
      counts := CountVoter(votes, done, user, counts);
      pending := pending - {user};
    }
    assert votes.Keys - pending == votes.Keys;
    VotedAmongAll(votes, counts);
  }

  /** One pass of the loop without constraints: the user's slot list, then one increment per slot. */
  method CountVoter(votes: Votes, ghost done: set<string>, user: string, counts: Counts) returns (updated: Counts)
    requires user in votes && user !in done
    requires VotedAmong(votes, done, counts)
    ensures VotedAmong(votes, done + {user}, updated)
  {
    var slots := ToSlots(votes[user]);
    updated := AddVoterSlots(counts, slots);
    AddVoterVoted(votes, done, user, slots, counts, updated);
  }

  /**
   * `counts` holds exactly the slot boundaries some user of `done` covers,
   * each with its number of covering users among `done`.
   */
  ghost predicate VotedAmong(votes: Votes, done: set<string>, counts: Counts) {
    && (forall s :: s in counts <==> Aligned(s) && VotersAmong(votes, done, s) != {})
    && (forall s :: Aligned(s) ==> Get(counts, s) == |VotersAmong(votes, done, s)|)
  }

  /** Before any user is counted, no slot is. */
  lemma NoneVoted(votes: Votes)
    ensures VotedAmong(votes, {}, map[])
  {
    forall s ensures VotersAmong(votes, {}, s) == {} {
    }
  }

  /** After one more user's slots are counted, the counts include that user. */
  lemma AddVoterVoted(votes: Votes, done: set<string>, user: string, slots: seq<Timestamp>, before: Counts, after: Counts)
    requires user in votes && user !in done
    requires forall s :: s in slots <==> Aligned(s) && Covers(votes[user], s)
    requires VotedAmong(votes, done, before)
    requires forall s :: s in after <==> s in before || s in slots
    requires forall s :: Get(after, s) == Get(before, s) + (if s in slots then 1 else 0)
    ensures VotedAmong(votes, done + {user}, after)
  {
    forall s | Aligned(s) ensures Get(after, s) == |VotersAmong(votes, done + {user}, s)| {
      VotersAmongAddOne(votes, done, user, s);
    }
    forall s ensures s in after <==> Aligned(s) && VotersAmong(votes, done + {user}, s) != {} {
      VotersAmongAddOne(votes, done, user, s);
    }
  }

  /** Once every user is counted, the counts are those `_count_buckets` returns without constraints. */
  lemma VotedAmongAll(votes: Votes, counts: Counts)
    requires VotedAmong(votes, votes.Keys, counts)
    ensures counts == CountsOf([], votes)
  {
    forall s ensures s in counts <==> s in VotedSlots(votes) {
      VotedSlotsMembers(votes, s);
    }
    forall s | s in counts ensures counts[s] == |VotersAmong(votes, votes.Keys, s)| {
      assert Aligned(s) && Get(counts, s) == counts[s];
    }
    CountsOfFromParts([], votes, counts, VotedSlots(votes));
  }

  /** A map over the right domain that holds every slot's voter count is `CountsOf`. */
  lemma CountsOfFromParts(constraints: seq<Interval>, votes: Votes, counts: Counts, domain: set<Timestamp>)
    requires domain == if constraints == [] then VotedSlots(votes) else SlotSet(constraints)
    requires forall s :: s in counts <==> s in domain
    requires forall s :: s in counts ==> counts[s] == |VotersAmong(votes, votes.Keys, s)|
    ensures counts == CountsOf(constraints, votes)
  {
    var spec := CountsOf(constraints, votes);
    assert spec == map s | s in domain :: |Voters(votes, s)|;
    assert counts.Keys == spec.Keys;
  }

  /** The branch of `_count_buckets` with constraints. */
  method CountAllowedSlots(constraints: seq<Interval>, votes: Votes) returns (counts: Counts)
    requires constraints != []
    ensures counts == CountsOf(constraints, votes)
  {
    var allowed := ToSlots(constraints);
    counts := CountVotersOver(allowed, votes);
    AllowedSlotsDomain(constraints, allowed, counts);
    CountsOfFromParts(constraints, votes, counts, SlotSet(constraints));
  }

  /** Each allowed slot's number of covering voters, one user at a time. */
  method CountVotersOver(allowed: seq<Timestamp>, votes: Votes) returns (counts: Counts)
    requires StrictlyIncreasing(allowed)
    ensures CountedAmong(votes, votes.Keys, allowed, counts)
  {
    var pending := votes.Keys;
    counts := map s | s in allowed :: 0;
    NoneCounted(votes, allowed, counts);
    assert votes.Keys - pending == {};
    while pending != {}
      invariant pending <= votes.Keys
      invariant CountedAmong(votes, votes.Keys - pending, allowed, counts)
      decreases |pending|
    {
      var user :| user in pending;
      ghost var done := votes.Keys - pending;
      assert votes.Keys - (pending - {user}) == done + {user};
      var before := counts;
      counts := AddVoterCoverage(counts, allowed, votes[user]);
      AddVoterCounts(votes, done, user, allowed, before, counts);
      pending := pending - {user};
    }
    assert votes.Keys - pending == votes.Keys;
  }

  /** `counts` holds exactly the allowed slots, each with its number of covering voters among `done`. */
  ghost predicate CountedAmong(votes: Votes, done: set<string>, allowed: seq<Timestamp>, counts: Counts) {
    && (forall s :: s in counts <==> s in allowed)
    && (forall s :: s in counts ==> counts[s] == |VotersAmong(votes, done, s)|)
  }

  /** Before any user is counted, every allowed slot holds zero. */
  lemma NoneCounted(votes: Votes, allowed: seq<Timestamp>, counts: Counts)
    requires counts == map s | s in allowed :: 0
    ensures CountedAmong(votes, {}, allowed, counts)
  {
    forall s | s in counts ensures counts[s] == |VotersAmong(votes, {}, s)| {
      assert VotersAmong(votes, {}, s) == {};
    }
  }

  /** The slot list of the constraints holds exactly the constraint slots. */
  lemma AllowedSlotsDomain(constraints: seq<Interval>, allowed: seq<Timestamp>, counts: Counts)
    requires allowed == SlotList(constraints)
    requires forall s :: s in counts <==> s in allowed
    ensures forall s :: s in counts <==> s in SlotSet(constraints)
  {
    SortedSeqIsSortedSet(SlotSet(constraints));
  }

  /** After one more user's pass over the allowed slots, each count includes that user. */
  lemma AddVoterCounts(votes: Votes, done: set<string>, user: string, allowed: seq<Timestamp>, before: Counts, after: Counts)
    requires user in votes && user !in done
    requires after.Keys == before.Keys
    requires CountedAmong(votes, done, allowed, before)
    requires forall s :: s in after ==>
      after[s] == before[s] + (if s in allowed && Covers(votes[user], s) then 1 else 0)
    ensures CountedAmong(votes, done + {user}, allowed, after)
  {
    forall s | s in after ensures after[s] == |VotersAmong(votes, done + {user}, s)| {
      VotersAmongAddOne(votes, done, user, s);
    }
  }

  /** Every count lies between 0 and the number of voters: a voter is counted at most once per slot. */
  lemma CountsAtMostVoters(constraints: seq<Interval>, votes: Votes, s: Timestamp)
    requires s in CountsOf(constraints, votes)
    ensures CountsOf(constraints, votes)[s] <= |votes|
  {
    assert Voters(votes, s) <= votes.Keys;
    SubsetCard(Voters(votes, s), votes.Keys);
  }

  lemma SubsetCard(a: set<string>, b: set<string>)
    requires a <= b
    ensures |a| <= |b|
  {
    assert b == a + (b - a);
  }

  /**
   * The counted domain: without constraints, exactly the aligned slots that
   * some voter covers (so every count is positive); with constraints, exactly
   * the aligned slots inside some constraint window, zero counts included.
   */
  lemma CountsDomain(constraints: seq<Interval>, votes: Votes, s: Timestamp)
    ensures s in CountsOf(constraints, votes) <==>
      Aligned(s) && (if constraints == [] then Voters(votes, s) != {} else Covers(constraints, s))
    ensures constraints == [] && s in CountsOf(constraints, votes) ==> CountsOf(constraints, votes)[s] >= 1
  {
    VotedSlotsMembers(votes, s);
    SlotSetMembers(constraints, s);
  }
}
