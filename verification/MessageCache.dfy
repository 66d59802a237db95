/** The message cache and the parts of the server that store, replace, send and prune messages
    (server/message_cache.go, server/server.go, server/server_manager.go). The clock is a
    parameter of every call that reads it. */
module MessageCache {
  import opened MessageTable

  class MessageCache {
    var rows: Rows
    var nextId: nat

    ghost predicate Valid()
      reads this
    {
      forall i :: i in rows ==> i < nextId
    }

    constructor ()
      ensures Valid() && rows == map[] && nextId == 1
    {
      rows := map[];
      nextId := 1;
    }

    /** Stores a batch in one transaction; nows[k] is the time when message k is inserted. */
    method AddMessages(ms: seq<Message>, nows: seq<int>) returns (ok: bool)
      requires Valid() && |nows| == |ms|
      modifies this
      ensures Valid()
      ensures ok <==> forall k :: 0 <= k < |ms| ==> ms[k].event != OtherEvent
      ensures ok ==> nextId == old(nextId) + |ms| && rows == Inserted(old(rows), old(nextId), ms, nows)
      ensures ok ==> forall k :: 0 <= k < |ms| ==> StoredAt(rows, old(nextId) + k, ms[k], nows[k])
      ensures ok ==> forall i :: i in old(rows) ==> i in rows && rows[i] == old(rows)[i]
      ensures ok ==> forall i :: i in rows ==> i in old(rows) || old(nextId) <= i < nextId
      ensures !ok ==> rows == old(rows)
    {
      var before := rows;
      assert ms[..0] == [] && nows[..0] == [];
      for k := 0 to |ms|
        invariant Valid() && nextId == old(nextId) + k
        invariant forall j :: 0 <= j < k ==> ms[j].event != OtherEvent
        invariant rows == Inserted(old(rows), old(nextId), ms[..k], nows[..k])
      {
        if ms[k].event == OtherEvent {
          rows := before;
          return false;
        }
        assert ms[..k + 1][..k] == ms[..k] && nows[..k + 1][..k] == nows[..k];
        rows := rows[nextId := RowOf(ms[k], nows[k])];
        nextId := nextId + 1;
      }
      assert ms[..|ms|] == ms && nows[..|ms|] == nows;
      InsertedRows(old(rows), old(nextId), ms, nows);
      assert forall k :: 0 <= k < |ms| ==> HoldsAt(rows, old(nextId) + k, RowOf(ms[k], nows[k]));
      ok := true;
    }

    /** Deletes the unpublished rows of a topic and sequence id, and returns their message ids. Nothing is left
        scheduled there, no published row and no row of another place is touched, and the ids returned are
        those of the rows that are gone. */
    method DeleteScheduledBySequenceID(topic: string, sequenceId: string) returns (mids: set<string>)
      requires Valid()
      modifies this`rows
      ensures Valid() && mids == ScheduledMids(old(rows), topic, sequenceId)
      ensures rows == WithoutScheduled(old(rows), topic, sequenceId)
      ensures OnlyWithout(old(rows), rows, i => i in old(rows)
        && !old(rows)[i].published && old(rows)[i].msg.topic == topic && old(rows)[i].msg.sequenceId == sequenceId)
      ensures forall mid :: mid in mids ==> exists i :: i in old(rows) && i !in rows && old(rows)[i].msg.mid == mid
      ensures forall i :: i in old(rows) && i !in rows ==> old(rows)[i].msg.mid in mids
    {
      mids := set i | i in rows && IsScheduled(rows, i, topic, sequenceId) :: rows[i].msg.mid;
      rows := map i | i in rows && !IsScheduled(rows, i, topic, sequenceId) :: rows[i];
    }

    method MarkPublished(mid: string)
      requires Valid()
      modifies this`rows
      ensures Valid() && rows == MarkedPublished(old(rows), mid)
      ensures rows.Keys == old(rows).Keys
      ensures forall i :: i in rows ==>
        rows[i] == if old(rows)[i].msg.mid == mid then old(rows)[i].(published := true) else old(rows)[i]
    {
      rows := map i | i in rows :: if rows[i].msg.mid == mid then rows[i].(published := true) else rows[i];
    }

    method MessagesDue(now: int) returns (ms: seq<Message>)
      ensures ms == MessagesOf(rows, Ordered(rows, DueIds(rows, now)))
      ensures forall m :: m in ms <==>
        exists i :: i in rows && !rows[i].published && rows[i].msg.time <= now && rows[i].msg == m
      ensures forall j, k :: 0 <= j < k < |ms| ==> ms[j].time <= ms[k].time
    {
      DueMessages(rows, now);
      ms := MessagesOf(rows, Ordered(rows, DueIds(rows, now)));
    }

    method MessagesExpired(now: int) returns (mids: set<string>)
      ensures mids == ExpiredMids(rows, now)
      ensures forall mid :: mid in mids <==>
        exists i :: i in rows && rows[i].published && rows[i].expires <= now && rows[i].msg.mid == mid
    {
      mids := set i | i in rows && rows[i].expires <= now && rows[i].published :: rows[i].msg.mid;
    }

    method DeleteMessages(mids: set<string>)
      requires Valid()
      modifies this`rows
      ensures Valid() && rows == WithoutMessages(old(rows), mids)
      ensures OnlyWithout(old(rows), rows, i => i in old(rows) && old(rows)[i].msg.mid in mids)
    {
      var todo := mids;
      assert WithoutMessages(rows, {}) == rows && mids - todo == {};
      while todo != {}
        invariant todo <= mids && Valid() && rows == WithoutMessages(old(rows), mids - todo)
        decreases todo
      {
        var mid :| mid in todo;
        rows := map i | i in rows && rows[i].msg.mid != mid :: rows[i];
        todo := todo - {mid};
      }
      assert mids - todo == mids;
    }

    /** Deletes all rows of a topic, scheduled ones included, and returns their message ids. */
    method DeleteMessagesByTopic(topic: string) returns (mids: set<string>)
      requires Valid()
      modifies this`rows
      ensures Valid() && rows == WithoutTopic(old(rows), topic)
      ensures OnlyWithout(old(rows), rows, i => i in old(rows) && old(rows)[i].msg.topic == topic)
      ensures forall i :: i in old(rows) && i !in rows ==> old(rows)[i].msg.mid in mids
    {
      mids := set i | i in rows && rows[i].msg.topic == topic :: rows[i].msg.mid;
      rows := map i | i in rows && rows[i].msg.topic != topic :: rows[i];
    }

    method ExpireMessages(topic: string, now: int)
      requires Valid()
      modifies this`rows
      ensures Valid() && rows == Expired(old(rows), topic, now - 1)
      ensures rows.Keys == old(rows).Keys
      ensures forall i :: i in rows ==>
        rows[i] == if old(rows)[i].msg.topic == topic then old(rows)[i].(expires := now - 1) else old(rows)[i]
    {
      rows := map i | i in rows :: if rows[i].msg.topic == topic then rows[i].(expires := now - 1) else rows[i];
    }

    /** Messages of a topic: none, the newest, those behind a message id, or those from a time on; all of
        them if the message id is gone. */
    method Messages(topic: string, since: SinceMarker, scheduled: bool) returns (xs: seq<nat>)
      ensures since == SINCE_NONE ==> xs == []
      ensures since == SINCE_LATEST ==> IsNewest(rows, Published(rows, topic), xs)
      ensures IsId(since) && HasMid(rows, since.id) ==>
        exists id :: RowId(rows, since.id, id) && xs == Ordered(rows, BehindId(rows, topic, id, scheduled))
      ensures IsId(since) && !HasMid(rows, since.id) ==> xs == Ordered(rows, SinceTime(rows, topic, 0, scheduled))
      ensures !IsId(since) && since != SINCE_NONE && since != SINCE_LATEST ==>
        xs == Ordered(rows, SinceTime(rows, topic, since.time, scheduled))
      ensures forall i :: i in xs ==> i in rows && rows[i].msg.topic == topic && (rows[i].published || scheduled)
      ensures !IsId(since) && since != SINCE_NONE && since != SINCE_LATEST ==> forall i ::
        i in xs <==>
          i in rows && rows[i].msg.topic == topic && (rows[i].published || scheduled) && rows[i].msg.time >= since.time
      ensures IsId(since) && (forall i :: i in rows ==> rows[i].msg.mid != since.id) ==> forall i ::
        i in xs <==>
          i in rows && rows[i].msg.topic == topic && (rows[i].published || scheduled) && rows[i].msg.time >= 0
      ensures IsId(since) && (exists i :: i in rows && rows[i].msg.mid == since.id) ==>
        exists id :: id in rows && rows[id].msg.mid == since.id && forall i :: i in xs <==>
          i in rows && rows[i].msg.topic == topic
            && if scheduled then i > id || !rows[i].published else i > id && rows[i].published
      ensures since == SINCE_LATEST ==> |xs| <= 1
      ensures since == SINCE_LATEST ==> forall i :: i in rows && rows[i].msg.topic == topic && rows[i].published ==>
        |xs| == 1 && Newer(rows, xs[0], i)
      ensures forall j, k :: 0 <= j < k < |xs| ==> xs[j] != xs[k] && Newer(rows, xs[k], xs[j])
    {
      if since == SINCE_NONE {
        xs := [];
      } else if since == SINCE_LATEST {
        xs := MessagesLatest(topic);
      } else if IsId(since) {
        xs := MessagesSinceId(topic, since.id, scheduled);
      } else {
        xs := Ordered(rows, SinceTime(rows, topic, since.time, scheduled));
      }
      InOrderIsNewer(rows, xs);
    }

    method MessagesSinceId(topic: string, mid: string, scheduled: bool) returns (xs: seq<nat>)
      ensures HasMid(rows, mid) ==>
        exists id :: RowId(rows, mid, id) && xs == Ordered(rows, BehindId(rows, topic, id, scheduled))
      ensures !HasMid(rows, mid) ==> xs == Ordered(rows, SinceTime(rows, topic, 0, scheduled))
      ensures forall i :: i in xs ==> i in rows && rows[i].msg.topic == topic && (rows[i].published || scheduled)
      ensures (forall i :: i in rows ==> rows[i].msg.mid != mid) ==> forall i ::
        i in xs <==>
          i in rows && rows[i].msg.topic == topic && (rows[i].published || scheduled) && rows[i].msg.time >= 0
      ensures (exists i :: i in rows && rows[i].msg.mid == mid) ==>
        exists id :: id in rows && rows[id].msg.mid == mid && forall i :: i in xs <==>
          i in rows && rows[i].msg.topic == topic
            && if scheduled then i > id || !rows[i].published else i > id && rows[i].published
    {
      if !HasMid(rows, mid) {
        return Ordered(rows, SinceTime(rows, topic, SINCE_ALL.time, scheduled));
      }
      var id :| id in rows && RowId(rows, mid, id);
      xs := Ordered(rows, BehindId(rows, topic, id, scheduled));
    }

    /** The last row in ascending order is the first in descending order. */
    method MessagesLatest(topic: string) returns (xs: seq<nat>)
      ensures IsNewest(rows, Published(rows, topic), xs)
      ensures |xs| <= 1 && forall i :: i in xs ==> i in rows && rows[i].msg.topic == topic && rows[i].published
      ensures forall i :: i in rows && rows[i].msg.topic == topic && rows[i].published ==>
        |xs| == 1 && Newer(rows, xs[0], i)
    {
      var all := Ordered(rows, Published(rows, topic));
      if |all| == 0 {
        forall i ensures i !in Published(rows, topic) { assert i in all <==> i in Published(rows, topic); }
        assert forall i :: i in rows && rows[i].msg.topic == topic ==>
          !rows[i].published || i in Published(rows, topic);
        return [];
      }
      xs := [all[|all| - 1]];
      assert all[|all| - 1] in all;
      forall j | j in Published(rows, topic) ensures j == xs[0] || Before(rows, j, xs[0]) {
        assert j in all;
        var k :| 0 <= k < |all| && all[k] == j;
      }
      assert forall i :: i in rows && rows[i].msg.topic == topic && rows[i].published ==> i in Published(rows, topic);
    }
  }

  /** Row i is j, or comes behind it by time and then by id. */
  predicate Newer(rows: Rows, i: nat, j: nat) {
    i in rows && j in rows &&
    (rows[i].msg.time > rows[j].msg.time || (rows[i].msg.time == rows[j].msg.time && i >= j))
  }

  lemma InOrderIsNewer(rows: Rows, xs: seq<nat>)
    requires InOrder(rows, xs)
    ensures forall j, k :: 0 <= j < k < |xs| ==> xs[j] != xs[k] && Newer(rows, xs[k], xs[j])
  {
    forall j, k | 0 <= j < k < |xs| ensures xs[j] != xs[k] && Newer(rows, xs[k], xs[j]) {
      assert Before(rows, xs[j], xs[k]);
    }
  }

  function Inserted(rows: Rows, id: nat, ms: seq<Message>, nows: seq<int>): Rows
    requires |nows| == |ms|
  {
    if ms == [] then rows
    else
      var k := |ms| - 1;
      Inserted(rows, id, ms[..k], nows[..k])[id + k := RowOf(ms[k], nows[k])]
  }

  /** Row id holds the message as it was when it was stored. */
  predicate HoldsAt(rows: Rows, id: nat, row: Row) { id in rows && rows[id] == row }

  predicate StoredAt(rows: Rows, id: nat, m: Message, now: int) {
    id in rows && rows[id].msg == m && rows[id].expires == m.expires && (rows[id].published <==> m.time <= now)
  }

  /** r is t without the rows that go, the others unchanged. */
  ghost predicate OnlyWithout(t: Rows, r: Rows, goes: nat -> bool) {
    (forall i :: i in r <==> i in t && !goes(i)) && (forall i :: i in r && i in t ==> r[i] == t[i])
  }

  /** A batch is stored row by row under the ids that follow, and nothing else changes. */
  lemma {:induction false} InsertedRows(rows: Rows, id: nat, ms: seq<Message>, nows: seq<int>)
    requires |nows| == |ms|
    ensures var r := Inserted(rows, id, ms, nows);
      && (forall k :: 0 <= k < |ms| ==> HoldsAt(r, id + k, RowOf(ms[k], nows[k])))
      && (forall i :: i < id || i >= id + |ms| ==> (i in r <==> i in rows) && (i in r ==> r[i] == rows[i]))
  {
    if ms != [] {
      var last := |ms| - 1;
      InsertedRows(rows, id, ms[..last], nows[..last]);
      forall k | 0 <= k < |ms| ensures HoldsAt(Inserted(rows, id, ms, nows), id + k, RowOf(ms[k], nows[k])) {
        if k < last {
          assert HoldsAt(Inserted(rows, id, ms[..last], nows[..last]), id + k, RowOf(ms[..last][k], nows[..last][k]));
        }
      }
    }
  }

  class Server {
    const cache: MessageCache
    /** The message ids handed to subscribers so far. */
    var handed: seq<string>

    constructor (cache: MessageCache)
      ensures this.cache == cache && handed == []
    {
      this.cache := cache;
      handed := [];
    }

    /** The part of handlePublishInternal that hands out or defers a message, and stores it in place of
        a scheduled one; checked is the time of the delay check, stored that of the insertion. */
    method HandlePublish(m: Message, caching: bool, checked: int, stored: int) returns (ok: bool)
      requires cache.Valid()
      modifies this`handed, cache
      ensures cache.Valid()
      ensures handed == if m.time > checked then old(handed) else old(handed) + [m.mid]
      ensures ok <==> !caching || m.event != OtherEvent
      ensures !caching ==> cache.rows == old(cache.rows)
      ensures caching && ok ==>
        cache.rows == WithoutScheduled(old(cache.rows), m.topic, m.sequenceId)[old(cache.nextId) := RowOf(m, stored)]
      ensures caching && !ok ==> cache.rows == WithoutScheduled(old(cache.rows), m.topic, m.sequenceId)
      ensures caching ==> OnlyWithout(old(cache.rows), cache.rows - {old(cache.nextId)}, i => i in old(cache.rows) &&
        !old(cache.rows)[i].published && old(cache.rows)[i].msg.topic == m.topic
        && old(cache.rows)[i].msg.sequenceId == m.sequenceId)
      ensures caching && ok ==> StoredAt(cache.rows, old(cache.nextId), m, stored)
    {
      var delayed := m.time > checked;
      if !delayed {
        handed := handed + [m.mid];
      }
      ok := true;
      if caching {
        var deleted := cache.DeleteScheduledBySequenceID(m.topic, m.sequenceId);
        ok := cache.AddMessages([m], [stored]);
        assert [m][..0] == [] && [stored][..0] == [];
      }
    }

    /** A delete or clear request: handed out, stored, and a delete drops what is scheduled. */
    method HandleActionMessage(m: Message, stored: int) returns (ok: bool)
      requires cache.Valid() && (m.event == DeleteEvent || m.event == ClearEvent)
      modifies this`handed, cache
      ensures cache.Valid() && ok && handed == old(handed) + [m.mid]
      ensures cache.rows == (if m.event == DeleteEvent then WithoutScheduled(old(cache.rows), m.topic, m.sequenceId)
        else old(cache.rows))
                              [old(cache.nextId) := RowOf(m, stored)]
      ensures StoredAt(cache.rows, old(cache.nextId), m, stored)
      ensures OnlyWithout(old(cache.rows), cache.rows - {old(cache.nextId)}, i => m.event == DeleteEvent
        && i in old(cache.rows) && !old(cache.rows)[i].published && old(cache.rows)[i].msg.topic == m.topic
        && old(cache.rows)[i].msg.sequenceId == m.sequenceId)
    {
      handed := handed + [m.mid];
      if m.event == DeleteEvent {
        var deleted := cache.DeleteScheduledBySequenceID(m.topic, m.sequenceId);
      }
      ok := cache.AddMessages([m], [stored]);
      assert [m][..0] == [] && [stored][..0] == [];
    }

    /** One pass of the delayed sender: every due message whose user still exists is handed out once,
        in time order, and marked. */
    method SendDelayedMessages(now: int, users: set<string>)
      requires cache.Valid()
      modifies this`handed, cache
      ensures cache.Valid()
      ensures var ms := MessagesOf(old(cache.rows), Ordered(old(cache.rows), DueIds(old(cache.rows), now)));
        handed == old(handed) + SentMids(ms, users) && cache.rows == MarkedAll(old(cache.rows), ms, users)
      ensures |handed| >= |old(handed)| && handed[..|old(handed)|] == old(handed)
      ensures forall mid :: mid in handed[|old(handed)|..] <==> exists i :: IsDue(old(cache.rows), i, now, users, mid)
      ensures cache.rows.Keys == old(cache.rows).Keys
      ensures forall i :: i in cache.rows ==> cache.rows[i] == old(cache.rows)[i].(published :=
        old(cache.rows)[i].published || exists j :: IsDue(old(cache.rows), j, now, users, old(cache.rows)[i].msg.mid))
    {
      ghost var before := cache.rows;
      var ms := cache.MessagesDue(now);
      SendAll(ms, users);
      SentAreDue(before, ms, now, users);
      MarkedAllGives(before, ms, users);
      assert forall mid :: IsSent(ms, users, mid) <==> exists i :: IsDue(before, i, now, users, mid);
      assert handed == old(handed) + SentMids(ms, users);
    }

    method SendAll(ms: seq<Message>, users: set<string>)
      requires cache.Valid()
      modifies this`handed, cache
      ensures cache.Valid()
      ensures handed == old(handed) + SentMids(ms, users) && cache.rows == MarkedAll(old(cache.rows), ms, users)
    {
      assert ms[..0] == [];
      for k := 0 to |ms|
        invariant cache.Valid()
        invariant handed == old(handed) + SentMids(ms[..k], users)
        invariant cache.rows == MarkedAll(old(cache.rows), ms[..k], users)
      {
        assert ms[..k + 1][..k] == ms[..k];
        var m := ms[k];
        if m.user != "" && m.user !in users {
          continue;
        }
        handed := handed + [m.mid];
        cache.MarkPublished(m.mid);
      }
      assert ms[..|ms|] == ms;
    }

    /** Admin: deletes the messages of a topic, of no other one, if the name can be one. */
    method HandleTopicDelete(topic: string) returns (found: bool)
      requires cache.Valid()
      modifies cache`rows
      ensures cache.Valid() && (found <==> topic != "" && '/' !in topic)
      ensures found ==> forall i :: i in cache.rows ==> cache.rows[i].msg.topic != topic
      ensures forall i :: i in old(cache.rows) && (old(cache.rows)[i].msg.topic != topic || !found) ==>
                i in cache.rows && cache.rows[i] == old(cache.rows)[i]
      ensures cache.rows.Keys <= old(cache.rows).Keys
    {
      if topic == "" || '/' in topic {
        return false;
      }
      var mids := cache.DeleteMessagesByTopic(topic);
      found := true;
    }

    /** What is done about the messages of a released topic on request: all that are published go at once;
        those still scheduled stay, to be sent when they are due. */
    method ExpireTopic(topic: string, now: int, later: int)
      requires cache.Valid() && now <= later && UniqueMids(cache.rows)
      modifies cache`rows
      ensures cache.Valid()
      ensures forall i :: i in cache.rows ==> cache.rows[i].msg.topic != topic || !cache.rows[i].published
      ensures forall i :: i in old(cache.rows) && !old(cache.rows)[i].published ==>
        i in cache.rows && !cache.rows[i].published
      ensures forall i :: i in old(cache.rows) && old(cache.rows)[i].msg.topic != topic ==>
        if old(cache.rows)[i].published && old(cache.rows)[i].expires <= later then i !in cache.rows
        else i in cache.rows && cache.rows[i] == old(cache.rows)[i]
    {
      TopicExpired(cache.rows, topic, now, later);
      cache.ExpireMessages(topic, now);
      PruneMessages(later);
    }

    /** Deletes the published messages that have expired. */
    method PruneMessages(now: int)
      requires cache.Valid()
      modifies cache`rows
      ensures cache.Valid() && cache.rows == WithoutMessages(old(cache.rows), ExpiredMids(old(cache.rows), now))
      ensures OnlyWithout(old(cache.rows), cache.rows, i => i in old(cache.rows) && exists j ::
        j in old(cache.rows) && old(cache.rows)[j].published && old(cache.rows)[j].expires <= now
        && old(cache.rows)[j].msg.mid == old(cache.rows)[i].msg.mid)
    {
      var mids := cache.MessagesExpired(now);
      assert WithoutMessages(cache.rows, {}) == cache.rows;
      if |mids| > 0 {
        cache.DeleteMessages(mids);
      }
    }
  }

  ghost predicate UniqueMids(rows: Rows) {
    forall i, j :: i in rows && j in rows && rows[i].msg.mid == rows[j].msg.mid ==> i == j
  }

  predicate CanSend(m: Message, users: set<string>) { m.user == "" || m.user in users }

  function SentMids(ms: seq<Message>, users: set<string>): seq<string> {
    if ms == [] then []
    else
      var m := ms[|ms| - 1];
      SentMids(ms[..|ms| - 1], users) + if CanSend(m, users) then [m.mid] else []
  }

  function MarkedAll(rows: Rows, ms: seq<Message>, users: set<string>): Rows {
    if ms == [] then rows
    else
      var m := ms[|ms| - 1];
      var marked := MarkedAll(rows, ms[..|ms| - 1], users);
      if CanSend(m, users) then MarkedPublished(marked, m.mid) else marked
  }

  /** Row i is unpublished and due, its message id is mid, and its user exists if it has one. */
  predicate IsDue(rows: Rows, i: nat, now: int, users: set<string>, mid: string) {
    && i in rows && !rows[i].published && rows[i].msg.time <= now && rows[i].msg.mid == mid
    && (rows[i].msg.user == "" || rows[i].msg.user in users)
  }

  /** After expiring a topic, what pruning leaves. */
  lemma TopicExpired(rows: Rows, topic: string, now: int, later: int)
    requires now <= later && UniqueMids(rows)
    ensures var marked := Expired(rows, topic, now - 1);
      var left := WithoutMessages(marked, ExpiredMids(marked, later));
      && (forall i :: i in left ==> left[i].msg.topic != topic || !left[i].published)
      && (forall i :: i in rows && !rows[i].published ==> i in left && !left[i].published)
      && (forall i :: i in rows && rows[i].msg.topic != topic ==>
            if rows[i].published && rows[i].expires <= later then i !in left else i in left && left[i] == rows[i])
  {}

  /** The due messages are those of the unpublished rows whose time has come, in time order. */
  lemma DueMessages(rows: Rows, now: int)
    ensures var ms := MessagesOf(rows, Ordered(rows, DueIds(rows, now)));
      && (forall m :: m in ms <==>
              exists i :: i in rows && !rows[i].published && rows[i].msg.time <= now && rows[i].msg == m)
      && (forall j, k :: 0 <= j < k < |ms| ==> ms[j].time <= ms[k].time)
  {
    var xs := Ordered(rows, DueIds(rows, now));
    var ms := MessagesOf(rows, xs);
    forall m | m in ms
      ensures exists i :: i in rows && !rows[i].published && rows[i].msg.time <= now && rows[i].msg == m
    {
      var k :| 0 <= k < |ms| && ms[k] == m;
      assert xs[k] in xs;
    }
    forall i | i in rows && !rows[i].published && rows[i].msg.time <= now ensures rows[i].msg in ms {
      assert i in xs;
      var k :| 0 <= k < |xs| && xs[k] == i;
      assert ms[k] == rows[i].msg;
    }
    forall j, k | 0 <= j < k < |ms| ensures ms[j].time <= ms[k].time { assert Before(rows, xs[j], xs[k]); }
  }

  ghost predicate IsSent(ms: seq<Message>, users: set<string>, mid: string) {
    exists k :: 0 <= k < |ms| && CanSend(ms[k], users) && ms[k].mid == mid
  }

  lemma {:induction false} SentMembers(ms: seq<Message>, users: set<string>)
    ensures forall mid :: mid in SentMids(ms, users) <==> IsSent(ms, users, mid)
  {
    if ms != [] {
      var front := ms[..|ms| - 1];
      SentMembers(front, users);
      forall mid ensures mid in SentMids(ms, users) <==> IsSent(ms, users, mid) {
        if k :| 0 <= k < |front| && CanSend(front[k], users) && front[k].mid == mid { assert ms[k] == front[k]; }
        if k :| 0 <= k < |front| && CanSend(ms[k], users) && ms[k].mid == mid { assert front[k] == ms[k]; }
        assert mid in SentMids(front, users) <==> IsSent(front, users, mid);
      }
    }
  }

  lemma SentAreDue(rows: Rows, ms: seq<Message>, now: int, users: set<string>)
    requires forall m :: m in ms <==>
      exists i :: i in rows && !rows[i].published && rows[i].msg.time <= now && rows[i].msg == m
    ensures forall mid :: IsSent(ms, users, mid) <==> exists i :: IsDue(rows, i, now, users, mid)
    ensures forall mid :: mid in SentMids(ms, users) <==> exists i :: IsDue(rows, i, now, users, mid)
  {
    SentMembers(ms, users);
    forall mid ensures IsSent(ms, users, mid) <==> exists i :: IsDue(rows, i, now, users, mid) {
      if k :| 0 <= k < |ms| && CanSend(ms[k], users) && ms[k].mid == mid {
        assert ms[k] in ms;
        var i :| i in rows && !rows[i].published && rows[i].msg.time <= now && rows[i].msg == ms[k];
        assert IsDue(rows, i, now, users, mid);
      }
      if i :| IsDue(rows, i, now, users, mid) {
        assert rows[i].msg in ms;
        var k :| 0 <= k < |ms| && ms[k] == rows[i].msg;
      }
    }
  }

  lemma {:induction false} MarkedAllGives(rows: Rows, ms: seq<Message>, users: set<string>)
    ensures MarkedAll(rows, ms, users).Keys == rows.Keys
    ensures forall i :: i in rows ==> MarkedAll(rows, ms, users)[i] == rows[i].(published :=
              rows[i].published || IsSent(ms, users, rows[i].msg.mid))
  {
    if ms != [] {
      MarkedAllGives(rows, ms[..|ms| - 1], users);
    }
  }

  /** After a pass, a due row is unpublished only if the users of all due messages with its message
      id are gone. */
  lemma PassPublishes(rows: Rows, now: int, users: set<string>, i: nat)
    requires i in DueIds(rows, now)
    ensures var next := MarkedAll(rows, MessagesOf(rows, Ordered(rows, DueIds(rows, now))), users);
      i in next && (next[i].published <==>
        exists j :: j in DueIds(rows, now) && rows[j].msg.mid == rows[i].msg.mid && CanSend(rows[j].msg, users))
  {
    var xs := Ordered(rows, DueIds(rows, now));
    var ms := MessagesOf(rows, xs);
    MarkedAllGives(rows, ms, users);
    if j :| j in DueIds(rows, now) && rows[j].msg.mid == rows[i].msg.mid && CanSend(rows[j].msg, users) {
      assert j in xs;
      var k :| 0 <= k < |xs| && xs[k] == j;
      assert ms[k] == rows[j].msg;
    }
    if k :| 0 <= k < |ms| && CanSend(ms[k], users) && ms[k].mid == rows[i].msg.mid {
      assert xs[k] in xs;
    }
  }
}
