# Availability ladders, verified

A Dafny model of the scheduling service's core. A topic has constraint
windows, set by its admin, and per-user vote intervals. From these the
service computes three mutually exclusive "best time" ladders: the slots
where at least about 90 %, 70 % or 50 % of the best turnout is available,
merged into blocks. Also modelled are the topic operations that store
votes and constraints and return fresh statistics, and the invite-link
builder.

The pipeline of `build_topic_stats` is modelled stage by stage. Each
imperative stage is a Dafny method whose loop invariants prove it equal to
a specification function. The properties are lemmas about those functions.

- **Slots** (`slots.dfy`). Timestamps are integer microseconds since an
  hour-aligned origin, so a moment's minute, second and microsecond are
  fields of that number.
  - `CeilToSlot` follows `_ceil_to_slot` field by field. It is proved to
    return the least 15-minute boundary at or after the moment.
  - `ToSlots` (`_to_slots`) walks each window and returns the sorted slot
    starts. It is proved to return exactly the aligned slots whose whole
    15 minutes fit inside some window.
- **Coverage** (`coverage.dfy`). `CountBuckets` (`_count_buckets`) has both
  branches: the quantise-per-user branch without constraints and the
  containment-test branch with constraints. Both are proved equal to
  `CountsOf`, which counts the voters covering each slot.
- **Tiers** (`tiers.dfy`). Tiers are the enum `T90 | T70 | T50`.
  - `ComputePeopleRanges` (`_compute_people_ranges`) is proved to give
    disjoint, top-down count bands.
  - `ClassifySlots` (`_classify_slots_by_ratio`) is proved to give each slot
    the highest tier whose band holds its count.
- **Blocks** (`blocks.dfy`). `BuildBlocks` (`_build_blocks`) is the
  single-pass merge, including Python's `x or default` fallbacks. Its
  output is proved to be:
  - sorted, with a gap between consecutive blocks;
  - made only of slots of its tier, and to hold every such slot exactly once;
  - labelled with `people_min`/`people_max` equal to the block's least and
    greatest count, inside the tier's band.
- **Statistics** (`stats.dfy`). `BuildTopicStats` composes the stages.
  - With no positive count, all ladders are empty.
  - Ladders of different tiers never overlap.
- **Topics** (`topics.dfy`). The store is a class over a map from topic id
  to record. It has `create_topic`, `get_topic_with_stats`, `replace_vote`
  and `overwrite_constraints`, with `NotFound` and `Forbidden` as results.
- **Links** (`links.dfy`). `build_invite_link` with the site base URL as a
  parameter.

## Model

| member | source | states |
|---|---|---|
| SortedSets.MinOf | app/service/topic_stats.py:73 | the chosen element belongs to the set and is no larger than any other element |
| SortedSets.SortedSeqIsSortedSet | app/service/topic_stats.py:73 | `sorted(set)` lists every element of the set exactly once, in strictly increasing order |
| SortedSets.SortedElements | app/service/topic_stats.py:73 | the sorting step returns the strictly increasing list of exactly the set's elements |
| SortedSets.StrictlyIncreasingUnique | app/service/topic_stats.py:73 | two strictly increasing lists with the same elements are equal, so the sorted slot list is unique |
| Slots.CeilToSlot | app/service/topic_stats.py:76-85 | the rounded moment is a 15-minute boundary, no earlier than the moment and less than 15 minutes after it |
| Slots.CeilToSlotIsLeast | app/service/topic_stats.py:76-85 | no boundary at or after the moment comes before the rounded one: it is the smallest |
| Slots.CeilToSlotFixesExactlyAligned | app/service/topic_stats.py:78-80 | the moment is returned unchanged if and only if it already is a boundary |
| Slots.SlotSetMembers | app/service/topic_stats.py:65-73 | a slot start is collected if and only if it is aligned and its whole slot fits inside one of the windows |
| Slots.SpanStep | app/service/topic_stats.py:70-72 | one pass of the inner loop adds exactly the current slot start to those already visited |
| Slots.SpanAtExit | app/service/topic_stats.py:69-72 | when the walk over a window stops, it has visited exactly that window's slots |
| Slots.AddWindowSlots | app/service/topic_stats.py:69-72 | walking one window from its rounded-up start adds exactly that window's slot starts to those already collected |
| Slots.ToSlots | app/service/topic_stats.py:65-73 | returns the sorted, duplicate-free slot starts: strictly increasing, and exactly the aligned starts whose slot fits inside some window |
| Coverage.VotedSlotsMembers | app/service/topic_stats.py:45-48 | without constraints, a slot is counted if and only if it is aligned and covered by at least one voter |
| Coverage.VotersAmongAddOne | app/service/topic_stats.py:47-61 | adding one user adds 1 to a slot's count if that user covers the slot, else nothing |
| Coverage.AddVoterSlots | app/service/topic_stats.py:47-48 | adds exactly 1 to each slot of one user's deduplicated slot list and leaves all other slots alone, so overlapping intervals count once |
| Coverage.AddVoterCoverage | app/service/topic_stats.py:54-61 | adds exactly 1 to each allowed slot that one of the user's intervals contains; the domain is unchanged |
| Coverage.CountVotedSlots | app/service/topic_stats.py:44-49 | the branch without constraints yields, for each covered slot, its number of covering voters |
| Coverage.CountVoter | app/service/topic_stats.py:47-49 | one user's pass without constraints: afterwards the counts are the covering-voter counts over the users seen so far, that user included |
| Coverage.CountAllowedSlots | app/service/topic_stats.py:51-62 | the branch with constraints yields, for each constraint slot, its number of covering voters, zero counts included |
| Coverage.CountVotersOver | app/service/topic_stats.py:53-61 | starting from all-zero counts over the allowed slots, the loop over users leaves each allowed slot, and no other, with its number of covering voters |
| Coverage.CountBuckets | app/service/topic_stats.py:41-62 | both branches equal `CountsOf`: each counted slot maps to the number of voters whose intervals hold it |
| Coverage.CountsOfFromParts | app/service/topic_stats.py:41-62 | a count map over the right domain that holds each slot's voter count is the count map |
| Coverage.CountsAtMostVoters | app/service/topic_stats.py:41-62 | every count lies between 0 and the number of voters |
| Coverage.CountsDomain | app/service/topic_stats.py:43-53 | the counted slots are, without constraints, exactly the covered aligned slots (all counts at least 1); with constraints, exactly the aligned slots inside a constraint window |
| Tiers.LowerBound | app/service/topic_stats.py:95 | `max(1, ceil(max_people * ratio))`: the least positive count at or above the ratio's share of the maximum |
| Tiers.RangesFromKeys | app/service/topic_stats.py:91-100 | the loop gives every ratio, and only those, an entry |
| Tiers.ComputePeopleRanges | app/service/topic_stats.py:88-101 | the loop's ranges are `PeopleRanges(max_people)`, the top-down bands with a running upper bound |
| Tiers.LowerBoundsDescend | app/service/topic_stats.py:93-95 | a higher ratio never has a lower bound below a lower ratio's, and the 90 % bound is at most the maximum |
| Tiers.PeopleRangesTable | app/service/topic_stats.py:92-100 | the three ranges as closed forms: an empty tier is `(0, 0)` and leaves the running upper bound to the next tier |
| Tiers.PeopleRangesTop | app/service/topic_stats.py:92-99 | for a maximum of at least 1, every tier has an entry and the 90 % range is in use and ends at the maximum |
| Tiers.PeopleRangesBounds | app/service/topic_stats.py:95-99 | a range is either `(0, 0)` or starts at its tier's lower bound with `1 <= lower <= upper <= max_people` |
| Tiers.PeopleRangesDisjoint | app/service/topic_stats.py:99-100 | ranges in use are disjoint and strictly descend from the higher ratio to the lower |
| Tiers.PeopleRangesCover | app/service/topic_stats.py:92-100 | together the ranges in use hold exactly the counts from the 50 % lower bound up to the maximum, with no gap |
| Tiers.LabelOfIsFirstHolder | app/service/topic_stats.py:110-119 | a count gets tier `t` if and only if `t`'s range is in use and holds it and no higher range does; it gets none if and only if no range holds it |
| Tiers.LabelOfPeopleRanges | app/service/topic_stats.py:104-120 | with the computed ranges, a count gets `t` if and only if `t`'s range holds it; it is labelled if and only if it is between the 50 % bound and the maximum; a count of 0 is never labelled |
| Tiers.LabelSlot | app/service/topic_stats.py:112-119 | the inner loop (skip `(0, 0)`, stop at the first match) returns the count's label |
| Tiers.ClassifySlots | app/service/topic_stats.py:104-120 | every counted slot, and no other, gets its count's label |
| Tiers.LabelsFromParts | app/service/topic_stats.py:104-120 | a label map over the counted slots that holds each slot's label is the label map |
| Blocks.ScanAppend | app/service/topic_stats.py:139 | scanning one more slot is one more loop iteration |
| Blocks.BuildBlocks | app/service/topic_stats.py:123-193 | the loop's result is `BlocksOf`, the scan of the sorted slots with the open block closed at the end; empty when the range is `(0, 0)` |
| Blocks.ScanSlots | app/service/topic_stats.py:139-182 | the loop over the sorted slots ends in the state `Scan` gives for that slot list |
| Blocks.VisitSlot | app/service/topic_stats.py:140-182 | one iteration (close on a gap, close on an off-tier slot, open or extend a block) is exactly `Step` |
| Blocks.StepShape | app/service/topic_stats.py:139-182 | one iteration leaves the blocks as they are for an off-tier slot, adds a one-slot block after a gap, or stretches the last block over an adjacent tier slot |
| Blocks.StretchShape | app/service/topic_stats.py:180-182 | an adjacent tier slot moves the open block's end and folds its count into the running minimum and maximum |
| Blocks.ScanInvariants | app/service/topic_stats.py:139-192 | after any prefix of sorted aligned slots: blocks are ordered with gaps, hold only tier slots, cover every tier slot seen, and carry the least and greatest count |
| Blocks.BlocksOrdered | app/service/topic_stats.py:139-192 | blocks are aligned, non-empty and in time order, with a gap between consecutive blocks: sorted, disjoint, never adjacent |
| Blocks.BlockHoldsOnlyTierSlots | app/service/topic_stats.py:141-182 | every boundary inside a block is a counted slot of the tier; a block starts at its first slot and ends one slot after its last |
| Blocks.TierSlotInOneBlock | app/service/topic_stats.py:130-182 | for a tier with a range, every slot labelled with it lies in exactly one block; for `(0, 0)` there are none |
| Blocks.BlockPeopleCounts | app/service/topic_stats.py:174-182 | with positive counts, `people_min` and `people_max` are the least and greatest count of the block's slots |
| Blocks.BlockPeopleInRange | app/service/topic_stats.py:150-182 | when the tier's slots have counts in its range, each block has `lower <= people_min <= people_max <= upper` |
| Blocks.DifferentTiersDisjoint | app/service/topic_stats.py:30-37 | blocks built for two tiers from the same counts and labels never overlap |
| TopicStatistics.MaxValue | app/service/topic_stats.py:22 | the maximum bounds every count and is one of them, and is 0 when there is none |
| TopicStatistics.MaxValueUnique | app/service/topic_stats.py:22 | any value that bounds every count and is one of them is the maximum |
| TopicStatistics.MaxCount | app/service/topic_stats.py:22 | the running maximum over the counts is `max(values, default=0)` |
| TopicStatistics.BuildTopicStats | app/service/topic_stats.py:19-38 | the pipeline's result is `StatsOf(topic)`: empty ladders for a zero maximum, else one `_build_blocks` ladder per tier |
| TopicStatistics.BuildLadders | app/service/topic_stats.py:30-37 | the loop over the ratios gives each ladder field the `_build_blocks` result for its own tier and range |
| TopicStatistics.CountsAligned | app/service/topic_stats.py:21 | every counted slot start is a 15-minute boundary |
| TopicStatistics.LabelledInRange | app/service/topic_stats.py:27-28 | a slot labelled `t` has its count in `t`'s range, which is in use and starts at 1 or more |
| TopicStatistics.NoCoverageNoStats | app/service/topic_stats.py:21-24 | all three ladders are empty if and only if no slot has a positive count, and so is the 90 % ladder alone |
| TopicStatistics.NoVotesNoStats | app/service/topic_stats.py:21-24 | a topic without votes has three empty ladders |
| TopicStatistics.LadderOfStats | app/service/topic_stats.py:30-38 | each ladder is `_build_blocks` for its tier, or empty when the maximum is 0 |
| TopicStatistics.LaddersDisjoint | app/service/topic_stats.py:19-38 | the ladders are mutually exclusive: blocks of two different tiers never overlap |
| TopicStatistics.LabelNeedsPositiveMax | app/service/topic_stats.py:23-28 | a count can only be labelled when the maximum is at least 1 |
| TopicStatistics.LabelledSlotInOneLadderBlock | app/service/topic_stats.py:27-37 | a slot labelled `t` lies in exactly one block that `_build_blocks` makes for `t` |
| TopicStatistics.LabelledSlotInOneBlock | app/service/topic_stats.py:19-38 | every slot whose count gives it tier `t` lies in exactly one block of ladder `t` |
| TopicStatistics.BlockPeople | app/service/topic_stats.py:19-38 | every block of ladder `t` has `people_min <= people_max` inside `t`'s range, and they are the least and greatest count of its slots |
| Topics.NewTopic | app/service/topics.py:25-33 | the new topic has no votes, the caller as admin, and the payload's name, description and constraints |
| Topics.WithVote | app/service/topics.py:49 | the user's list becomes exactly the submitted one; every other user's vote and every other field are unchanged |
| Topics.WithConstraints | app/service/topics.py:61 | the constraints become exactly the submitted list; votes and every other field are unchanged |
| Topics.WithVoteLastWins | app/service/topics.py:49 | a later vote by the same user fully replaces the earlier one |
| Topics.WithVoteCommutes | app/service/topics.py:49 | votes of different users do not interfere, in either order |
| Topics.WithVoteSameIntervals | app/service/topics.py:49 | re-submitting the stored list changes nothing |
| Topics.WithConstraintsLastWins | app/service/topics.py:61 | a later constraint overwrite fully replaces the earlier one, with no merging |
| Topics.TopicStore.constructor | app/db/redis.py:7-17 | an empty store, in which every record sits under its own id |
| Topics.TopicStore.SaveTopic | app/db/redis.py:7-9 | stores the record under its `topic_id`, replacing any earlier one and keeping the store consistent |
| Topics.TopicStore.GetTopic | app/db/redis.py:12-17 | returns the stored record, or `NotFound` for an unknown id |
| Topics.TopicStore.CreateTopic | app/service/topics.py:23-35 | stores the new topic under its id and returns it, so a later get returns it unchanged |
| Topics.TopicStore.GetTopicWithStats | app/service/topics.py:38-41 | returns the stored topic with `StatsOf` of it and writes nothing, or `NotFound` |
| Topics.TopicStore.ReplaceVote | app/service/topics.py:44-51 | saves the topic with the user's vote fully replaced and nothing else changed, and returns it with its stats; `NotFound` writes nothing |
| Topics.TopicStore.OverwriteConstraints | app/service/topics.py:54-63 | for the admin, saves the topic with exactly the new constraints and returns it with its stats; anyone else gets `Forbidden` and nothing is written; `NotFound` writes nothing |
| Links.RStrip | app/service/links.py:8 | the result is the input up to its trailing run of the character, which it removes completely |
| Links.BuildInviteLink | app/service/links.py:7-9 | the link always ends with `/topic/` followed by the topic id |
| Links.RStripSlashes | app/service/links.py:8 | appending slashes before stripping them changes nothing |
| Links.TrailingSlashesIgnored | app/service/links.py:8 | appending any number of `/` to the base URL leaves the link unchanged |
| Links.InviteLinkShape | app/service/links.py:8-9 | the link is the base URL without all its trailing slashes, then `/topic/`, then the id |
| Links.CleanBaseUnchanged | app/service/links.py:8-9 | a base URL without a trailing slash gives exactly base + `/topic/` + id |

## Left out

- I/O and the store: the Redis client and JSON (de)serialisation are out of scope. The store is a map from topic id to record. A record that fails to deserialise is not modelled.
- `delete_topic` in app/db/redis.py is not part of the service operations modelled here.
- Concurrency: the read-modify-write in `replace_vote` and `overwrite_constraints` is unsynchronised in the code. The model makes no claim about concurrent calls. No optimistic "patch" protocol with watch and retry exists in the code, so none is modelled.
- TTL handling: app/service/topics.py:34 passes `refresh_ttl=True`, which `save_topic` (app/db/redis.py:8) does not accept. `SaveTopic` models the plain upsert the store performs.
- Topics.NewTopic: `Topic(...)` at app/service/topics.py:25-33 omits the required `ttl_days` (app/models/topic.py:21). The model takes `ttlDays` as a parameter, as the record evidently intends.
- Nondeterminism: the generated id (`generate(...)`, app/service/topics.py:26) and the clock (`_now_moscow`, app/service/topics.py:66-67) are parameters of `CreateTopic`. Id collisions are not excluded; a taken id is overwritten.
- Tiers.LowerBound: the ratio is the exact fraction 9/10, 7/10 or 5/10, not the float product `max_people * ratio` (app/service/topic_stats.py:95). For very large counts, rounding in the float product could move a bound by one.
- The slot width is fixed at 15 minutes in both `Slot` and `CeilToSlot`. The program reads `SLOT` from configuration (app/service/topic_stats.py:11) but hard-codes 15 in `_ceil_to_slot` (app/service/topic_stats.py:79,82). A configured width other than 15 is not modelled.
- Time zones and calendars: timestamps are naive wall-clock microseconds from an hour-aligned origin. Offsets, daylight saving and leap seconds are not modelled. Python `datetime` bounds are not modelled.
- Dictionary iteration order: `_count_buckets`, `_classify_slots_by_ratio` and `build_topic_stats` fill dicts whose result does not depend on the order of iteration. The model walks keys in an unspecified order and states the resulting maps.
- Blocks.BuildBlocks: the four `current_*` variables are kept as one optional record, because the code sets and clears them together. `(current_end or current_start)` is always `current_end`, because a `datetime` is always true.
- Blocks.BlockPeopleCounts: the exact minimum and maximum hold when every tier slot has a positive count, as every labelled slot has (tier ranges start at 1 or more). For a hand-built zero count, the `or` fallback to the range bound is modelled in `BuildBlocks` but not characterised by a lemma.
- Constrained and unconstrained counting are deliberately different: a containment test versus quantise-then-count. On slot starts, which are always aligned, both reduce to "some interval contains the whole slot". `CountBuckets` proves both branches equal to the same per-slot voter count; only the counted domain differs (`CountsDomain`).
- Interval validity: `end > start` is never checked in the code, and the model does not require it.
- The HTTP layer, dependency injection, configuration loading and the CLI are not part of this model.
