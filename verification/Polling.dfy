/** A client that polls a topic and resumes behind a message it has seen (server/message_cache.go,
    web/src/app/Poller.js, web/src/app/SubscriptionManager.js). */
module Polling {
  import opened Text
  import opened MessageTable

  /* ---- the server's table while one client polls one topic ---- */

  /** offered holds the message ids of all answers so far; bound and unseen record where ids stood at the
      last poll and which rows of the topic have been inserted as published since. */
  datatype State = State(rows: Rows, nextId: nat, used: set<string>, offered: set<string>, bound: nat, unseen: set<nat>)

  const INIT := State(map[], 1, {}, {}, 1, {})

  datatype Step =
    | Insert(msg: Message, now: int)
    | Publish(mid: string)
    | Delete(ids: set<nat>)
    | Poll(since: Option<string>, answer: set<nat>)

  /** What the server may answer: published rows of the topic behind the resume row, all of them if
      there is none. */
  ghost predicate Answers(rows: Rows, topic: string, since: Option<string>, ids: set<nat>) {
    if since.Some? && HasMid(rows, since.value)
    then exists id :: RowId(rows, since.value, id) && ids == BehindId(rows, topic, id, false)
    else ids == SinceTime(rows, topic, 0, false)
  }

  function MidsOf(rows: Rows, ids: set<nat>): set<string> { set i | i in ids && i in rows :: rows[i].msg.mid }

  /** Message ids are fresh and times are not before the epoch; the client resumes behind any message of
      any earlier answer, or asks for everything. */
  ghost predicate Enabled(s: State, topic: string, e: Step) {
    match e
    case Insert(m, now) => m.mid !in s.used && m.time >= 0
    case Publish(_) => true
    case Delete(_) => true
    case Poll(since, answer) => (since.Some? ==> since.value in s.offered) && Answers(s.rows, topic, since, answer)
  }

  function Apply(s: State, topic: string, e: Step): State {
    match e
    case Insert(m, now) =>
      s.(rows := s.rows[s.nextId := RowOf(m, now)], nextId := s.nextId + 1, used := s.used + {m.mid},
         unseen := if m.topic == topic && m.time <= now then s.unseen + {s.nextId} else s.unseen)
    case Publish(mid) => s.(rows := MarkedPublished(s.rows, mid))
    case Delete(ids) => s.(rows := s.rows - ids)
    case Poll(since, answer) => s.(offered := s.offered + MidsOf(s.rows, answer), bound := s.nextId, unseen := {})
  }

  ghost predicate Runs(s: State, topic: string, es: seq<Step>)
    decreases |es|
  {
    es == [] || (Enabled(s, topic, es[0]) && Runs(Apply(s, topic, es[0]), topic, es[1..]))
  }

  ghost function After(s: State, topic: string, es: seq<Step>): State
    decreases |es|
  {
    if es == [] then s else After(Apply(s, topic, es[0]), topic, es[1..])
  }

  ghost predicate Inv(s: State, topic: string) {
    && (forall i :: i in s.rows ==> i < s.nextId && s.rows[i].msg.mid in s.used && s.rows[i].msg.time >= 0)
    && (forall i, j :: i in s.rows && j in s.rows && s.rows[i].msg.mid == s.rows[j].msg.mid ==> i == j)
    && s.bound <= s.nextId
    && (forall i :: i in s.unseen ==> s.bound <= i < s.nextId)
    && (forall i :: i in s.unseen && i in s.rows ==> s.rows[i].published && s.rows[i].msg.topic == topic)
    && s.offered <= s.used
    && (forall i :: i in s.rows && s.rows[i].msg.mid in s.offered ==> i < s.bound)
  }

  lemma InsertKeepsInv(s: State, topic: string, m: Message, now: int)
    requires Inv(s, topic) && m.mid !in s.used && m.time >= 0
    ensures Inv(Apply(s, topic, Insert(m, now)), topic)
  {}

  lemma StepKeepsInv(s: State, topic: string, e: Step)
    requires Inv(s, topic) && Enabled(s, topic, e)
    ensures Inv(Apply(s, topic, e), topic)
  {
    if e.Insert? { InsertKeepsInv(s, topic, e.msg, e.now); }
  }

  lemma {:induction false} RunKeepsInv(s: State, topic: string, es: seq<Step>)
    requires Inv(s, topic) && Runs(s, topic, es)
    ensures Inv(After(s, topic, es), topic)
    decreases |es|
  {
    if es != [] {
      StepKeepsInv(s, topic, es[0]);
      RunKeepsInv(Apply(s, topic, es[0]), topic, es[1..]);
    }
  }

  /** Resuming loses nothing: in every run, a poll returns every row of the topic that was inserted as
      published since the poll before and is still there, whichever message of whichever earlier answer
      the client resumes behind, and even when that message is gone. */
  lemma PollReturnsUnseen(topic: string, es: seq<Step>, since: Option<string>, ids: set<nat>)
    requires Runs(INIT, topic, es) && Enabled(After(INIT, topic, es), topic, Poll(since, ids))
    ensures var s := After(INIT, topic, es); forall i :: i in s.unseen && i in s.rows ==> i in ids
  {
    RunKeepsInv(INIT, topic, es);
  }

  /* ---- the first poll behind a message's publication ---- */

  /** No poll of the run finds row i published. */
  ghost predicate NotYetPolled(s: State, topic: string, es: seq<Step>, i: nat)
    decreases |es|
  {
    es == [] ||
    ((es[0].Poll? && i in s.rows ==> !s.rows[i].published) && NotYetPolled(Apply(s, topic, es[0]), topic, es[1..], i))
  }

  /** Message m is inserted in the course of a run, later found published by a poll for the first time,
      and the poll answers ids. */
  ghost predicate FirstFound(topic: string, m: Message, now: int, es: seq<Step>, more: seq<Step>,
      since: Option<string>, ids: set<nat>) {
    && Runs(INIT, topic, es) && Enabled(After(INIT, topic, es), topic, Insert(m, now))
    && var i := After(INIT, topic, es).nextId;
       var stored := Apply(After(INIT, topic, es), topic, Insert(m, now));
       var end := After(stored, topic, more);
       && Runs(stored, topic, more) && NotYetPolled(stored, topic, more, i)
       && Enabled(end, topic, Poll(since, ids)) && i in end.rows && end.rows[i].published
  }

  /** Rows do not come back: a row that is there and was published at first has been so all along. */
  lemma {:induction false} UnseenUntilPoll(s: State, topic: string, es: seq<Step>, i: nat)
    requires i in s.unseen && i < s.nextId && NotYetPolled(s, topic, es, i) && i in After(s, topic, es).rows
    requires i in s.rows ==> s.rows[i].published
    ensures i in After(s, topic, es).unseen
    decreases |es|
  {
    if es != [] {
      if i !in s.rows { GoneStaysGone(s, topic, es, i); }
      UnseenUntilPoll(Apply(s, topic, es[0]), topic, es[1..], i);
    }
  }

  lemma {:induction false} GoneStaysGone(s: State, topic: string, es: seq<Step>, i: nat)
    requires i !in s.rows && i < s.nextId
    ensures i !in After(s, topic, es).rows
    decreases |es|
  {
    if es != [] { GoneStaysGone(Apply(s, topic, es[0]), topic, es[1..], i); }
  }

  /** The first poll behind the insertion of a message that was due by then returns it. */
  lemma FirstPollReturns(topic: string, m: Message, now: int, es: seq<Step>, more: seq<Step>, since: Option<string>,
      ids: set<nat>)
    requires m.topic == topic && m.time <= now && FirstFound(topic, m, now, es, more, since, ids)
    ensures After(INIT, topic, es).nextId in ids
  {
    var start := After(INIT, topic, es);
    var stored := Apply(start, topic, Insert(m, now));
    RunKeepsInv(INIT, topic, es);
    StepKeepsInv(start, topic, Insert(m, now));
    RunKeepsInv(stored, topic, more);
    UnseenUntilPoll(stored, topic, more, start.nextId);
  }

  ghost predicate Returned(topic: string, m: Message, now: int, es: seq<Step>, more: seq<Step>,
      since: Option<string>, ids: set<nat>) {
    FirstFound(topic, m, now, es, more, since, ids) ==> After(INIT, topic, es).nextId in ids
  }

  /** The first poll that finds a message published returns it, in every run, if and only if the message
      was due when it was inserted: one that was scheduled may be passed over. */
  lemma FirstPollReturnsExactly(topic: string, m: Message, now: int)
    requires m.topic == topic && m.time >= 0 && now >= 0
    ensures (forall es, more, since, ids :: Returned(topic, m, now, es, more, since, ids)) <==> m.time <= now
  {
    if m.time <= now {
      forall es, more, since, ids ensures Returned(topic, m, now, es, more, since, ids) {
        if FirstFound(topic, m, now, es, more, since, ids) {
          FirstPollReturns(topic, m, now, es, more, since, ids);
        }
      }
    } else {
      var more, since, ids := ScheduledRowPassedOver(topic, m, now);
      assert After(INIT, topic, []) == INIT;
      assert !Returned(topic, m, now, [], more, since, ids);
    }
  }

  /** Any scheduled message may be: a client that has moved on behind a message of the meantime is not
      given it once it is published. */
  lemma ScheduledRowPassedOver(topic: string, m: Message, now: int)
      returns (more: seq<Step>, since: Option<string>, ids: set<nat>)
    requires m.topic == topic && m.time > now >= 0
    ensures FirstFound(topic, m, now, [], more, since, ids) && 1 !in ids
  {
    var y := Message(m.mid + "'", m.mid + "'", topic, now, now, "", MessageEvent);
    var s1 := Apply(INIT, topic, Insert(m, now));
    var s2 := Apply(s1, topic, Insert(y, now));
    assert s2.rows == map[1 := RowOf(m, now), 2 := RowOf(y, now)];
    var all := SinceTime(s2.rows, topic, 0, false);
    assert 2 in all && MidsOf(s2.rows, all) >= {y.mid};
    var s3 := Apply(s2, topic, Poll(None, all));
    var s := Apply(s3, topic, Publish(m.mid));
    since, ids := Some(y.mid), BehindId(s.rows, topic, 2, false);
    assert RowId(s.rows, y.mid, 2) && HasMid(s.rows, y.mid);
    more := RunOne(s3, topic, Publish(m.mid), [], 1);
    more := RunOne(s2, topic, Poll(None, all), more, 1);
    more := RunOne(s1, topic, Insert(y, now), more, 1);
    assert After(INIT, topic, []) == INIT;
  }

  lemma RunOne(s: State, topic: string, e: Step, rest: seq<Step>, i: nat) returns (es: seq<Step>)
    requires Enabled(s, topic, e) && Runs(Apply(s, topic, e), topic, rest)
    requires (e.Poll? && i in s.rows ==> !s.rows[i].published) && NotYetPolled(Apply(s, topic, e), topic, rest, i)
    ensures Runs(s, topic, es) && After(s, topic, es) == After(Apply(s, topic, e), topic, rest)
      && NotYetPolled(s, topic, es, i)
  {
    es := [e] + rest;
    assert es[1..] == rest;
  }

  /* ---- the client ---- */

  function SequenceOf(m: Message): string { if m.sequenceId != "" then m.sequenceId else m.mid }

  /** Entry i is the latest of its sequence among the first n: no other one is newer, and of those of
      the same time it comes last. */
  ghost predicate IsLatest(ms: seq<Message>, n: nat, i: int)
    requires n <= |ms|
  {
    0 <= i < n && forall j :: 0 <= j < n && SequenceOf(ms[j]) == SequenceOf(ms[i]) ==>
      ms[j].time < ms[i].time || (ms[j].time == ms[i].time && j <= i)
  }

  /** m is the latest of sequence q. */
  ghost predicate HasLatest(ms: seq<Message>, n: nat, q: string, m: Message)
    requires n <= |ms|
  {
    exists i :: IsLatest(ms, n, i) && SequenceOf(ms[i]) == q && m == ms[i]
  }

  ghost predicate LatestMap(ms: seq<Message>, n: nat, latest: map<string, Message>)
    requires n <= |ms|
  {
    && (forall i :: 0 <= i < n ==> SequenceOf(ms[i]) in latest)
    && (forall q :: q in latest ==> HasLatest(ms, n, q, latest[q]))
  }

  /** Groups messages by sequence and keeps the latest of each. */
  method LatestBySequenceId(ms: seq<Message>) returns (latest: map<string, Message>)
    ensures LatestMap(ms, |ms|, latest)
  {
    latest := map[];
    for n := 0 to |ms|
      invariant LatestMap(ms, n, latest)
    {
      ghost var before := latest;
      var q := SequenceOf(ms[n]);
      if q !in latest || ms[n].time >= latest[q].time {
        latest := latest[q := ms[n]];
      }
      LatestStep(ms, n, before, latest);
    }
  }

  lemma LatestStep(ms: seq<Message>, n: nat, before: map<string, Message>, latest: map<string, Message>)
    requires n < |ms| && LatestMap(ms, n, before)
    requires var q := SequenceOf(ms[n]);
      latest == if q !in before || ms[n].time >= before[q].time then before[q := ms[n]] else before
    ensures LatestMap(ms, n + 1, latest)
  {
    var q := SequenceOf(ms[n]);
    forall p | p in latest ensures HasLatest(ms, n + 1, p, latest[p]) {
      if p in before {
        var i :| IsLatest(ms, n, i) && SequenceOf(ms[i]) == p && before[p] == ms[i];
        if p == q && ms[n].time >= before[q].time {
          LatestReplaced(ms, n, i);
        } else {
          LatestKept(ms, n, i);
        }
      } else {
        FirstOfSequence(ms, n, before);
      }
    }
  }

  lemma LatestKept(ms: seq<Message>, n: nat, i: int)
    requires n < |ms| && IsLatest(ms, n, i)
    requires SequenceOf(ms[n]) == SequenceOf(ms[i]) ==> ms[n].time < ms[i].time
    ensures IsLatest(ms, n + 1, i)
  {}

  lemma LatestReplaced(ms: seq<Message>, n: nat, i: int)
    requires n < |ms| && IsLatest(ms, n, i) && SequenceOf(ms[n]) == SequenceOf(ms[i]) && ms[n].time >= ms[i].time
    ensures IsLatest(ms, n + 1, n)
  {}

  lemma FirstOfSequence(ms: seq<Message>, n: nat, before: map<string, Message>)
    requires n < |ms| && LatestMap(ms, n, before) && SequenceOf(ms[n]) !in before
    ensures IsLatest(ms, n + 1, n)
  {}

  ghost predicate TimeOrdered(ms: seq<Message>) {
    forall j, k :: 0 <= j < k < |ms| ==> ms[j].time <= ms[k].time
  }

  lemma AnswerIsTimeOrdered(rows: Rows, ids: set<nat>)
    requires ids <= rows.Keys
    ensures TimeOrdered(MessagesOf(rows, Ordered(rows, ids)))
  {
    var xs := Ordered(rows, ids);
    var ms := MessagesOf(rows, xs);
    forall j, k | 0 <= j < k < |ms| ensures ms[j].time <= ms[k].time {
      assert Before(rows, xs[j], xs[k]);
    }
  }

  /** An answer comes in time order, so the latest of a sequence is simply its last entry. */
  lemma LatestOfOrdered(ms: seq<Message>, i: nat)
    requires TimeOrdered(ms) && i < |ms|
    ensures IsLatest(ms, |ms|, i) <==> forall j :: i < j < |ms| ==> SequenceOf(ms[j]) != SequenceOf(ms[i])
  {
    if forall j :: i < j < |ms| ==> SequenceOf(ms[j]) != SequenceOf(ms[i]) {
      forall j | 0 <= j < |ms| && SequenceOf(ms[j]) == SequenceOf(ms[i])
        ensures ms[j].time < ms[i].time || (ms[j].time == ms[i].time && j <= i)
      {
        assert j <= i;
      }
    } else {
      var j :| i < j < |ms| && SequenceOf(ms[j]) == SequenceOf(ms[i]);
      assert ms[i].time <= ms[j].time;
    }
  }

  /** The messages that a poll drops: those of a sequence whose latest entry is a deletion. */
  predicate Dropped(latest: map<string, Message>, m: Message) {
    SequenceOf(m) in latest && latest[SequenceOf(m)].event == DeleteEvent
  }

  /** The database after putting the latest messages of the given sequences over what was kept. */
  ghost predicate Put(kept: map<string, Message>, latest: map<string, Message>, done: set<string>,
      db: map<string, Message>)
    requires done <= latest.Keys
  {
    && (forall q :: q in done ==> latest[q].mid in db && db[latest[q].mid] == latest[q])
    && (forall mid :: mid in db ==>
      (mid in kept && db[mid] == kept[mid])
        || exists q :: q in done && latest[q] == db[mid] && latest[q].mid == mid)
    && (forall mid :: mid in kept ==> mid in db)
  }

  /** One subscription in the browser's database: where to resume, and the messages by id. */
  class Subscription {
    var last: Option<string>
    var notifications: map<string, Message>

    constructor ()
      ensures last == None && notifications == map[]
    {
      last := None;
      notifications := map[];
    }

    /** poll, given the recent part of the answer, whose message ids are distinct: sequences that end in
        a deletion are dropped, the latest message of every other sequence is put, and the client
        resumes behind some message it was given. */
    method Poll(answer: seq<Message>)
      requires forall i, j :: 0 <= i < j < |answer| ==> answer[i].mid != answer[j].mid
      modifies this
      ensures forall k :: NewestMessage(answer, k) ==>
        answer[k].mid in notifications && notifications[answer[k].mid] == answer[k]
      ensures forall mid :: mid in notifications && !IsNew(answer, notifications[mid]) ==>
        mid in old(notifications) && notifications[mid] == old(notifications)[mid]
          && !EndsInDeletion(answer, notifications[mid])
      ensures forall mid :: mid in old(notifications) && !EndsInDeletion(answer, old(notifications)[mid]) ==>
        mid in notifications
      ensures last == old(last) || exists k :: NewestMessage(answer, k) && last == Some(answer[k].mid)
      ensures (exists k :: NewestMessage(answer, k)) ==>
        exists k :: NewestMessage(answer, k) && last == Some(answer[k].mid)
      ensures exists latest: map<string, Message> ::
        LatestMap(answer, |answer|, latest)
          && Put(Kept(old(notifications), latest), latest, ToAdd(latest), notifications)
    {
      var latest := LatestBySequenceId(answer);
      notifications := map mid | mid in notifications && !Dropped(latest, notifications[mid]) :: notifications[mid];
      var toAdd := ToAdd(latest);
      DistinctLatest(answer, latest);
      assert notifications == Kept(old(notifications), latest);
      AddNotifications(latest, toAdd);
      PutDirectly(answer, latest, old(notifications), notifications);
      AddedAreNewest(answer, latest);
      assert LatestMap(answer, |answer|, latest) && Put(Kept(old(notifications), latest), latest, toAdd, notifications);
    }

    /** Puts messages in any order; the last one put is the one to resume behind. */
    method AddNotifications(latest: map<string, Message>, toAdd: set<string>)
      requires toAdd <= latest.Keys
      requires forall p, q :: p in latest && q in latest && latest[p].mid == latest[q].mid ==> p == q
      modifies this
      ensures if toAdd == {} then last == old(last) else exists q :: q in toAdd && last == Some(latest[q].mid)
      ensures Put(old(notifications), latest, toAdd, notifications)
    {
      var todo := toAdd;
      ghost var done, put := {}, "";
      while todo != {}
        invariant todo <= toAdd && done == toAdd - todo
        invariant if done == {} then last == old(last) else put in done && last == Some(latest[put].mid)
        invariant Put(old(notifications), latest, done, notifications)
        decreases todo
      {
        var q :| q in todo;
        PutOneMore(old(notifications), latest, done, q, notifications);
        Moved(toAdd, todo, q);
        notifications := notifications[latest[q].mid := latest[q]];
        last := Some(latest[q].mid);
        todo := todo - {q};
        done, put := done + {q}, q;
      }
    }
  }

  lemma Moved(all: set<string>, todo: set<string>, q: string)
    requires q in todo && todo <= all
    ensures all - (todo - {q}) == (all - todo) + {q} <= all
  {}

  lemma PutOneMore(kept: map<string, Message>, latest: map<string, Message>, done: set<string>, q: string,
      db: map<string, Message>)
    requires done <= latest.Keys && q in latest && Put(kept, latest, done, db)
    requires forall p, r :: p in latest && r in latest && latest[p].mid == latest[r].mid ==> p == r
    ensures Put(kept, latest, done + {q}, db[latest[q].mid := latest[q]])
  {
    var next := db[latest[q].mid := latest[q]];
    forall mid | mid in next && mid != latest[q].mid
      ensures (mid in kept && next[mid] == kept[mid])
        || exists p :: p in done + {q} && latest[p] == next[mid] && latest[p].mid == mid
    {
      if p :| p in done && latest[p] == db[mid] && latest[p].mid == mid { assert p in done + {q}; }
    }
  }

  function ToAdd(latest: map<string, Message>): set<string> {
    set q | q in latest && latest[q].event == MessageEvent
  }

  function Kept(db: map<string, Message>, latest: map<string, Message>): map<string, Message> {
    map mid | mid in db && !Dropped(latest, db[mid]) :: db[mid]
  }

  /** Entry k of the answer is the latest of its sequence and an ordinary message. */
  ghost predicate NewestMessage(answer: seq<Message>, k: int) {
    IsLatest(answer, |answer|, k) && answer[k].event == MessageEvent
  }

  ghost predicate IsNew(answer: seq<Message>, m: Message) {
    exists k :: NewestMessage(answer, k) && answer[k] == m
  }

  /** The latest entry of the message's sequence is a deletion. */
  ghost predicate EndsInDeletion(answer: seq<Message>, m: Message) {
    exists k ::
      IsLatest(answer, |answer|, k) && SequenceOf(answer[k]) == SequenceOf(m) && answer[k].event == DeleteEvent
  }

  lemma LatestUnique(answer: seq<Message>, i: int, j: int)
    requires IsLatest(answer, |answer|, i) && IsLatest(answer, |answer|, j)
    requires SequenceOf(answer[i]) == SequenceOf(answer[j])
    ensures i == j
  {}

  /** The map of latest messages holds the latest entry of each sequence, and nothing else. */
  lemma LatestHolds(answer: seq<Message>, latest: map<string, Message>, k: int)
    requires LatestMap(answer, |answer|, latest) && IsLatest(answer, |answer|, k)
    ensures SequenceOf(answer[k]) in latest && latest[SequenceOf(answer[k])] == answer[k]
  {
    var q := SequenceOf(answer[k]);
    assert HasLatest(answer, |answer|, q, latest[q]);
    var i :| IsLatest(answer, |answer|, i) && SequenceOf(answer[i]) == q && latest[q] == answer[i];
    LatestUnique(answer, i, k);
  }

  lemma DroppedDirectly(answer: seq<Message>, latest: map<string, Message>, m: Message)
    requires LatestMap(answer, |answer|, latest)
    ensures Dropped(latest, m) <==> EndsInDeletion(answer, m)
  {
    var q := SequenceOf(m);
    if q in latest {
      assert HasLatest(answer, |answer|, q, latest[q]);
      var i :| IsLatest(answer, |answer|, i) && SequenceOf(answer[i]) == q && latest[q] == answer[i];
      forall k | IsLatest(answer, |answer|, k) && SequenceOf(answer[k]) == q ensures k == i {
        LatestUnique(answer, i, k);
      }
    } else {
      forall k | IsLatest(answer, |answer|, k) ensures SequenceOf(answer[k]) != q { LatestHolds(answer, latest, k); }
    }
  }

  lemma AddedAreNewest(answer: seq<Message>, latest: map<string, Message>)
    requires LatestMap(answer, |answer|, latest)
    ensures forall q :: q in ToAdd(latest) ==> exists k :: NewestMessage(answer, k) && answer[k] == latest[q]
    ensures forall k :: NewestMessage(answer, k) ==>
      SequenceOf(answer[k]) in ToAdd(latest) && latest[SequenceOf(answer[k])] == answer[k]
  {
    forall q | q in ToAdd(latest) ensures exists k :: NewestMessage(answer, k) && answer[k] == latest[q] {
      assert HasLatest(answer, |answer|, q, latest[q]);
      var i :| IsLatest(answer, |answer|, i) && SequenceOf(answer[i]) == q && latest[q] == answer[i];
      assert NewestMessage(answer, i);
    }
    forall k | NewestMessage(answer, k)
      ensures SequenceOf(answer[k]) in ToAdd(latest) && latest[SequenceOf(answer[k])] == answer[k]
    {
      LatestHolds(answer, latest, k);
    }
  }

  /** What a poll leaves in the database, by the answer alone. */
  lemma PutDirectly(answer: seq<Message>, latest: map<string, Message>, was: map<string, Message>,
      db: map<string, Message>)
    requires LatestMap(answer, |answer|, latest) && Put(Kept(was, latest), latest, ToAdd(latest), db)
    ensures forall k :: NewestMessage(answer, k) ==> answer[k].mid in db && db[answer[k].mid] == answer[k]
    ensures forall mid :: mid in db && !IsNew(answer, db[mid]) ==>
      mid in was && db[mid] == was[mid] && !EndsInDeletion(answer, db[mid])
    ensures forall mid :: mid in was && !EndsInDeletion(answer, was[mid]) ==> mid in db
  {
    AddedAreNewest(answer, latest);
    forall mid | mid in db && !IsNew(answer, db[mid])
      ensures mid in was && db[mid] == was[mid] && !EndsInDeletion(answer, db[mid])
    {
      assert mid in Kept(was, latest) && db[mid] == Kept(was, latest)[mid];
      DroppedDirectly(answer, latest, db[mid]);
    }
    forall mid | mid in was && !EndsInDeletion(answer, was[mid]) ensures mid in db {
      DroppedDirectly(answer, latest, was[mid]);
      assert mid in Kept(was, latest);
    }
  }

  lemma DistinctLatest(answer: seq<Message>, latest: map<string, Message>)
    requires LatestMap(answer, |answer|, latest)
    requires forall i, j :: 0 <= i < j < |answer| ==> answer[i].mid != answer[j].mid
    ensures forall p, q :: p in latest && q in latest && latest[p].mid == latest[q].mid ==> p == q
    ensures forall q :: q in latest ==> exists k :: 0 <= k < |answer| && latest[q] == answer[k]
  {
    forall p, q | p in latest && q in latest && latest[p].mid == latest[q].mid ensures p == q {
      assert HasLatest(answer, |answer|, p, latest[p]) && HasLatest(answer, |answer|, q, latest[q]);
      var i :| IsLatest(answer, |answer|, i) && SequenceOf(answer[i]) == p && latest[p] == answer[i];
      var j :| IsLatest(answer, |answer|, j) && SequenceOf(answer[j]) == q && latest[q] == answer[j];
      assert answer[i].mid == answer[j].mid;
    }
    forall q | q in latest ensures exists k :: 0 <= k < |answer| && latest[q] == answer[k] {
      assert HasLatest(answer, |answer|, q, latest[q]);
      var j :| IsLatest(answer, |answer|, j) && SequenceOf(answer[j]) == q && latest[q] == answer[j];
    }
  }
}
