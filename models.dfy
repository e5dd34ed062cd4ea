/**
 * The records that a topic is made of, as they are stored and returned
 * (app/models/interval.py, app/models/stats.py, app/models/topic.py).
 *
 * A timestamp is a naive UTC+3 wall-clock moment, written as the number of
 * microseconds since an origin that falls on a whole hour. Minute, second and
 * microsecond of a moment are then fields of that number (see module Slots).
 */
module Models {

  /** Python's `X | None`. */
  datatype Option<+T> = None | Some(value: T)

  /** Microseconds since an hour-aligned origin. */
  type Timestamp = int

  /** One availability window (app/models/interval.py). No `start < end` is enforced. */
  datatype Interval = Interval(start: Timestamp, end: Timestamp)

  /** A merged block of a ladder (app/models/stats.py). */
  datatype StatsInterval = StatsInterval(start: Timestamp, end: Timestamp, peopleMin: int, peopleMax: int)

  /** The three mutually exclusive ladders. */
  datatype TopicStats = TopicStats(
    blocks90: seq<StatsInterval>,
    blocks70: seq<StatsInterval>,
    blocks50: seq<StatsInterval>)

  /** The stored topic record (app/models/topic.py). */
  datatype Topic = Topic(
    topicId: string,
    topicName: string,
    adminName: string,
    description: Option<string>,
    constraints: seq<Interval>,
    votes: map<string, seq<Interval>>,
    createdAt: Timestamp,
    ttlDays: int)

  /** The admin's creation payload (`TopicCreate`). */
  datatype TopicCreate = TopicCreate(topicName: string, description: Option<string>, constraints: seq<Interval>)
}
