/** The messages table (server/message_cache.go): rows by auto-increment id, and what each statement
    selects or changes. */
module MessageTable {

  /** event messages other than these four are refused by addMessages. */
  datatype Event = MessageEvent | DeleteEvent | ClearEvent | NudgeEvent | OtherEvent

  datatype Message = Message(mid: string, sequenceId: string, topic: string, time: int, expires: int, user: string,
    event: Event)

  datatype Row = Row(msg: Message, expires: int, published: bool)

  type Rows = map<nat, Row>

  function RowOf(m: Message, now: int): Row { Row(m, m.expires, m.time <= now) }

  predicate IsScheduled(rows: Rows, i: nat, topic: string, sequenceId: string)
    requires i in rows
  {
    rows[i].msg.topic == topic && rows[i].msg.sequenceId == sequenceId && !rows[i].published
  }

  /** deleteScheduledBySequenceIDQuery. */
  function WithoutScheduled(rows: Rows, topic: string, sequenceId: string): Rows {
    map i | i in rows && !IsScheduled(rows, i, topic, sequenceId) :: rows[i]
  }

  /** updateMessagePublishedQuery. */
  function MarkedPublished(rows: Rows, mid: string): Rows {
    map i | i in rows :: if rows[i].msg.mid == mid then rows[i].(published := true) else rows[i]
  }

  /** deleteMessageQuery for each of the ids. */
  function WithoutMessages(rows: Rows, mids: set<string>): Rows {
    map i | i in rows && rows[i].msg.mid !in mids :: rows[i]
  }

  /** updateMessagesForTopicExpiryQuery. */
  function Expired(rows: Rows, topic: string, expires: int): Rows {
    map i | i in rows :: if rows[i].msg.topic == topic then rows[i].(expires := expires) else rows[i]
  }

  /** deleteMessagesByTopicQuery. */
  function WithoutTopic(rows: Rows, topic: string): Rows {
    map i | i in rows && rows[i].msg.topic != topic :: rows[i]
  }

  /** selectMessagesDueQuery. */
  function DueIds(rows: Rows, now: int): set<nat> {
    set i | i in rows && rows[i].msg.time <= now && !rows[i].published
  }

  /** selectMessagesExpiredQuery. */
  function ExpiredMids(rows: Rows, now: int): set<string> {
    set i | i in rows && rows[i].expires <= now && rows[i].published :: rows[i].msg.mid
  }

  function ScheduledMids(rows: Rows, topic: string, sequenceId: string): set<string> {
    set i | i in rows && IsScheduled(rows, i, topic, sequenceId) :: rows[i].msg.mid
  }

  /* ---- ORDER BY time, id ---- */

  predicate Before(rows: Rows, i: nat, j: nat)
    requires i in rows && j in rows
  {
    rows[i].msg.time < rows[j].msg.time || (rows[i].msg.time == rows[j].msg.time && i < j)
  }

  predicate IsFirst(rows: Rows, ids: set<nat>, i: nat)
    requires ids <= rows.Keys
  {
    i in ids && forall j :: j in ids ==> j == i || Before(rows, i, j)
  }

  lemma {:induction false} FirstExists(rows: Rows, ids: set<nat>)
    requires ids <= rows.Keys && ids != {}
    ensures exists i :: IsFirst(rows, ids, i)
  {
    var z :| z in ids;
    if ids == {z} {
      assert IsFirst(rows, ids, z);
    } else {
      FirstExists(rows, ids - {z});
      var m :| IsFirst(rows, ids - {z}, m);
      var first := if Before(rows, z, m) then z else m;
      forall j | j in ids ensures j == first || Before(rows, first, j) {
        if j != z { assert j in ids - {z}; }
      }
      assert IsFirst(rows, ids, first);
    }
  }

  function First(rows: Rows, ids: set<nat>): (i: nat)
    requires ids <= rows.Keys && ids != {}
    ensures IsFirst(rows, ids, i)
  {
    FirstExists(rows, ids);
    var i :| IsFirst(rows, ids, i);
    i
  }

  ghost predicate InOrder(rows: Rows, xs: seq<nat>) {
    (forall i :: 0 <= i < |xs| ==> xs[i] in rows) && forall i, j :: 0 <= i < j < |xs| ==> Before(rows, xs[i], xs[j])
  }

  /** The selected rows, by time and then by id. */
  function Ordered(rows: Rows, ids: set<nat>): (xs: seq<nat>)
    requires ids <= rows.Keys
    ensures InOrder(rows, xs) && forall i :: i in xs <==> i in ids
    decreases |ids|
  {
    if ids == {} then [] else
      var first := First(rows, ids);
      var rest := Ordered(rows, ids - {first});
      assert forall k :: 0 <= k < |rest| ==> rest[k] in rest;
      [first] + rest
  }

  function MessagesOf(rows: Rows, xs: seq<nat>): (ms: seq<Message>)
    requires forall i :: i in xs ==> i in rows
    ensures |ms| == |xs| && forall k :: 0 <= k < |xs| ==> ms[k] == rows[xs[k]].msg
  {
    if xs == [] then [] else [rows[xs[0]].msg] + MessagesOf(rows, xs[1..])
  }

  /* ---- reading ---- */

  /** What a poll asks for: a time or a message id to start behind; three values have a meaning of their
      own, so that time 1 asks for nothing. */
  datatype SinceMarker = SinceMarker(time: int, id: string)

  const SINCE_ALL := SinceMarker(0, "")
  const SINCE_NONE := SinceMarker(1, "")
  const SINCE_LATEST := SinceMarker(0, "latest")

  predicate IsId(since: SinceMarker) { since.id != "" && since.id != "latest" }

  /** selectRowIDFromMessageID: any row with that message id. */
  predicate RowId(rows: Rows, mid: string, id: nat) { id in rows && rows[id].msg.mid == mid }

  predicate HasMid(rows: Rows, mid: string) { exists i :: i in rows && RowId(rows, mid, i) }

  /** The published rows of a topic behind a row id; with the scheduled ones, wherever they are, if asked
      for. */
  function BehindId(rows: Rows, topic: string, id: nat, scheduled: bool): set<nat> {
    set i | i in rows && rows[i].msg.topic == topic
      && (if scheduled then i > id || !rows[i].published else i > id && rows[i].published)
  }

  /** The published rows of a topic from a time on, or all of them from that time on. */
  function SinceTime(rows: Rows, topic: string, time: int, scheduled: bool): set<nat> {
    set i | i in rows && rows[i].msg.topic == topic && rows[i].msg.time >= time && (scheduled || rows[i].published)
  }

  /** The published rows of a topic. */
  function Published(rows: Rows, topic: string): set<nat> {
    set i | i in rows && rows[i].msg.topic == topic && rows[i].published
  }

  /** xs is the newest of the rows, if there are any. */
  ghost predicate IsNewest(rows: Rows, ids: set<nat>, xs: seq<nat>)
    requires ids <= rows.Keys
  {
    if ids == {} then xs == []
    else |xs| == 1 && xs[0] in ids && forall j :: j in ids ==> j == xs[0] || Before(rows, j, xs[0])
  }
}
