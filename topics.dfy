/**
 * The topic service (app/service/topics.py) over the topic store
 * (`save_topic` and `get_topic` in app/db/redis.py), which is a map from
 * topic id to the stored record. Every operation that reads a topic fails
 * with `NotFound` for an unknown id; only the admin may overwrite
 * constraints. The generated id, the clock and the topic lifetime are
 * parameters.
 */
module Topics {
  import opened Models
  import opened TopicStatistics

  datatype ServiceError = NotFound | Forbidden

  datatype Result<T> = Ok(value: T) | Err(error: ServiceError)

  /** The record `create_topic` builds: no votes yet, the caller as admin. */
  function NewTopic(adminName: string, payload: TopicCreate, topicId: string, now: Timestamp, ttlDays: int): (t: Topic)
    ensures t.topicId == topicId && t.adminName == adminName && t.createdAt == now && t.ttlDays == ttlDays
    ensures t.topicName == payload.topicName && t.description == payload.description
    ensures t.constraints == payload.constraints && t.votes == map[]
  {
    Topic(topicId, payload.topicName, adminName, payload.description, payload.constraints, map[], now, ttlDays)
  }

  /** `topic.votes[username] = list(intervals)`. */
  function WithVote(topic: Topic, username: string, intervals: seq<Interval>): (t: Topic)
    ensures username in t.votes && t.votes[username] == intervals
    ensures forall u :: u != username ==> (u in t.votes <==> u in topic.votes)
    ensures forall u :: u != username && u in topic.votes ==> t.votes[u] == topic.votes[u]
    ensures t.topicId == topic.topicId && t.topicName == topic.topicName && t.adminName == topic.adminName
    ensures t.description == topic.description && t.constraints == topic.constraints
    ensures t.createdAt == topic.createdAt && t.ttlDays == topic.ttlDays
  {
    topic.(votes := topic.votes[username := intervals])
  }

  /** `topic.constraints = list(constraints)`. */
  function WithConstraints(topic: Topic, constraints: seq<Interval>): (t: Topic)
    ensures t.constraints == constraints && t.votes == topic.votes
    ensures t.topicId == topic.topicId && t.topicName == topic.topicName && t.adminName == topic.adminName
    ensures t.description == topic.description && t.createdAt == topic.createdAt && t.ttlDays == topic.ttlDays
  {
    topic.(constraints := constraints)
  }

  /** A second vote by the same user fully replaces the first. */
  lemma WithVoteLastWins(topic: Topic, username: string, first: seq<Interval>, second: seq<Interval>)
    ensures WithVote(WithVote(topic, username, first), username, second) == WithVote(topic, username, second)
  {
    var a := WithVote(WithVote(topic, username, first), username, second);
    var b := WithVote(topic, username, second);
    assert a.votes == b.votes;
  }

  /** Votes by different users do not interfere: their order does not matter. */
  lemma WithVoteCommutes(topic: Topic, u1: string, v1: seq<Interval>, u2: string, v2: seq<Interval>)
    requires u1 != u2
    ensures WithVote(WithVote(topic, u1, v1), u2, v2) == WithVote(WithVote(topic, u2, v2), u1, v1)
  {
    var a := WithVote(WithVote(topic, u1, v1), u2, v2);
    var b := WithVote(WithVote(topic, u2, v2), u1, v1);
    assert a.votes == b.votes;
  }

  /** Voting again with the intervals already stored changes nothing. */
  lemma WithVoteSameIntervals(topic: Topic, username: string)
    requires username in topic.votes
    ensures WithVote(topic, username, topic.votes[username]) == topic
  {
    assert WithVote(topic, username, topic.votes[username]).votes == topic.votes;
  }

  /** A second constraint overwrite fully replaces the first; nothing is merged. */
  lemma WithConstraintsLastWins(topic: Topic, first: seq<Interval>, second: seq<Interval>)
    ensures WithConstraints(WithConstraints(topic, first), second) == WithConstraints(topic, second)
  {
  }

  /** The topic store: `topic:<id>` keys and their records. */
  class TopicStore {
    var topics: map<string, Topic>

    /** Every record is stored under its own id, as `save_topic` keys it. */
    ghost predicate Valid()
      reads this
    {
      forall id :: id in topics ==> topics[id].topicId == id
    }

    constructor()
      ensures topics == map[] && Valid()
    {
      topics := map[];
    }

    /** `save_topic`: stores the record under its id, replacing any earlier one. */
    method SaveTopic(topic: Topic)
      requires Valid()
      modifies this
      ensures Valid()
      ensures topics == old(topics)[topic.topicId := topic]
    {
      topics := topics[topic.topicId := topic];
    }

    /** `get_topic`: the stored record, or `NotFound`. */
    method GetTopic(topicId: string) returns (r: Result<Topic>)
      ensures topicId in topics ==> r == Ok(topics[topicId])
      ensures topicId !in topics ==> r == Err(NotFound)
      ensures Valid() && r.Ok? ==> r.value.topicId == topicId
    {
      if topicId in topics {
        return Ok(topics[topicId]);
      }
      return Err(NotFound);
    }

    /**
     * `create_topic`: stores a fresh topic with no votes and the caller as
     * admin, and returns it. An id that is already taken is overwritten.
     */
    method CreateTopic(adminName: string, payload: TopicCreate, topicId: string, now: Timestamp, ttlDays: int)
      returns (topic: Topic)
      requires Valid()
      modifies this
      ensures Valid()
      ensures topic == NewTopic(adminName, payload, topicId, now, ttlDays)
      ensures topics == old(topics)[topicId := topic]
    {
      topic := NewTopic(adminName, payload, topicId, now, ttlDays);
      SaveTopic(topic);
    }

    /** `get_topic_with_stats`: the stored record and its statistics; nothing is written. */
    method GetTopicWithStats(topicId: string) returns (r: Result<(Topic, TopicStats)>)
      ensures topicId in topics ==> r == Ok((topics[topicId], StatsOf(topics[topicId])))
      ensures topicId !in topics ==> r == Err(NotFound)
    {
      var loaded := GetTopic(topicId);
      if loaded.Err? {
        return Err(loaded.error);
      }
      var stats := BuildTopicStats(loaded.value);
      return Ok((loaded.value, stats));
    }

    /**
     * `replace_vote`: the user's interval list becomes exactly the submitted
     * one and the topic is saved back; returns the saved topic and its
     * statistics. An unknown topic writes nothing.
     */
    method ReplaceVote(topicId: string, username: string, intervals: seq<Interval>)
      returns (r: Result<(Topic, TopicStats)>)
      requires Valid()
      modifies this
      ensures Valid()
      ensures topicId !in old(topics) ==> r == Err(NotFound) && topics == old(topics)
      ensures topicId in old(topics) ==>
        var saved := WithVote(old(topics)[topicId], username, intervals);
        && r == Ok((saved, StatsOf(saved)))
        && topics == old(topics)[topicId := saved]
    {
      var loaded := GetTopic(topicId);
      if loaded.Err? {
        return Err(loaded.error);
      }
      var topic := WithVote(loaded.value, username, intervals);
      SaveTopic(topic);
      var stats := BuildTopicStats(topic);
      return Ok((topic, stats));
    }

    /**
     * `overwrite_constraints`: only the admin may replace the constraint list,
     * which then is exactly the submitted one; anyone else gets `Forbidden`
     * and nothing is written.
     */
    method OverwriteConstraints(topicId: string, username: string, constraints: seq<Interval>)
      returns (r: Result<(Topic, TopicStats)>)
      requires Valid()
      modifies this
      ensures Valid()
      ensures topicId !in old(topics) ==> r == Err(NotFound) && topics == old(topics)
      ensures topicId in old(topics) && old(topics)[topicId].adminName != username ==>
        r == Err(Forbidden) && topics == old(topics)
      ensures topicId in old(topics) && old(topics)[topicId].adminName == username ==>
        var saved := WithConstraints(old(topics)[topicId], constraints);
        && r == Ok((saved, StatsOf(saved)))
        && topics == old(topics)[topicId := saved]
    {
      var loaded := GetTopic(topicId);
      if loaded.Err? {
        return Err(loaded.error);
      }
      if loaded.value.adminName != username {
        return Err(Forbidden);
      }
      var topic := WithConstraints(loaded.value, constraints);
      SaveTopic(topic);
      var stats := BuildTopicStats(topic);
      return Ok((topic, stats));
    }
  }
}
