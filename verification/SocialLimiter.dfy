/** The limiter for typing and nudge events (server/server_social.go), which forgets old entries from
    time to time. Times and intervals are whole seconds. */
module SocialLimiter {

  /** rl.items. */
  type Items = map<string, int>

  const KEEP_SECONDS := 300

  function Key(event: string, user: string, topic: string): string { event + ":" + (user + ":" + topic) }

  predicate Denied(items: Items, key: string, interval: int, now: int) {
    key in items && now - items[key] < interval
  }

  function Forget(items: Items, now: int): Items {
    map k | k in items && now - items[k] <= KEEP_SECONDS :: items[k]
  }

  class SocialRateLimiter {
    var items: Items

    constructor ()
      ensures items == map[]
    {
      items := map[];
    }

    /** A refused event changes nothing. After an accepted one, the same subject is refused for as long as
        the next call's interval has not passed since, and every other key is answered as before. */
    method Allow(event: string, user: string, topic: string, interval: int, now: int) returns (ok: bool)
      modifies this
      ensures ok == !Denied(old(items), Key(event, user, topic), interval, now)
      ensures items == if ok then old(items)[Key(event, user, topic) := now] else old(items)
      ensures ok ==> forall i, n :: Denied(items, Key(event, user, topic), i, n) <==> n - now < i
      ensures forall k, i, n :: k != Key(event, user, topic) ==>
        (Denied(items, k, i, n) <==> Denied(old(items), k, i, n))
    {
      var key := event + ":" + (user + ":" + topic);
      if key in items && now - items[key] < interval {
        return false;
      }
      items := items[key := now];
      ok := true;
    }

    /** One turn of the cleanup loop. */
    method Cleanup(now: int)
      modifies this
      ensures items == Forget(old(items), now)
    {
      var todo := items.Keys;
      while todo != {}
        invariant todo <= items.Keys <= old(items).Keys
        invariant forall k :: k in old(items) ==>
          (k in items <==> k in todo || now - old(items)[k] <= KEEP_SECONDS)
            && (k in items ==> items[k] == old(items)[k])
        decreases todo
      {
        var k :| k in todo;
        if now - items[k] > KEEP_SECONDS {
          items := items - {k};
        }
        todo := todo - {k};
      }
    }
  }

  /* ---- runs ---- */

  datatype Op = Allow(event: string, user: string, topic: string, interval: int, now: int) | Cleanup(now: int)

  /** What is limited: an event of a user in a topic. */
  type Subject = (string, string, string)

  function SubjectOf(op: Op): Subject
    requires op.Allow?
  {
    (op.event, op.user, op.topic)
  }

  function Next(items: Items, op: Op): Items {
    match op
    case Cleanup(now) => Forget(items, now)
    case Allow(e, u, t, interval, now) =>
      if Denied(items, Key(e, u, t), interval, now) then items else items[Key(e, u, t) := now]
  }

  /** The answers to the Allow calls of a run. */
  function Answers(items: Items, ops: seq<Op>): seq<bool>
    decreases |ops|
  {
    if ops == [] then []
    else
      var op := ops[0];
      (if op.Allow? then [!Denied(items, Key(op.event, op.user, op.topic), op.interval, op.now)] else [])
        + Answers(Next(items, op), ops[1..])
  }

  /** A limiter that never forgets, keyed by subject: when each was last let through. */
  type Memory = map<Subject, int>

  predicate Blocked(memory: Memory, op: Op)
    requires op.Allow?
  {
    SubjectOf(op) in memory && op.now - memory[SubjectOf(op)] < op.interval
  }

  function Remember(memory: Memory, op: Op): Memory {
    if op.Cleanup? || Blocked(memory, op) then memory else memory[SubjectOf(op) := op.now]
  }

  function IdealAnswers(memory: Memory, ops: seq<Op>): seq<bool>
    decreases |ops|
  {
    if ops == [] then []
    else (if ops[0].Allow? then [!Blocked(memory, ops[0])] else []) + IdealAnswers(Remember(memory, ops[0]), ops[1..])
  }

  predicate WellNamed(s: Subject) { ':' !in s.0 && ':' !in s.1 }

  /** The clock does not go back, and events and users are named without a colon. */
  ghost predicate Proper(clock: int, ops: seq<Op>)
    decreases |ops|
  {
    ops == [] ||
    (ops[0].now >= clock && (ops[0].Allow? ==> WellNamed(SubjectOf(ops[0]))) && Proper(ops[0].now, ops[1..]))
  }

  ghost predicate IntervalsUpTo(max: int, ops: seq<Op>) {
    forall k :: 0 <= k < |ops| && ops[k].Allow? ==> ops[k].interval <= max
  }

  lemma {:induction false} SplitAtColon(a: string, b: string, x: string, y: string)
    requires ':' !in a && ':' !in b && a + ":" + x == b + ":" + y
    ensures a == b && x == y
  {
    var s := a + ":" + x;
    assert s[|a|] == ':' && s == b + ":" + y;
    forall k | 0 <= k < |b| ensures s[k] != ':' { assert s[k] == b[k]; }
    assert s[|b|] == ':';
    forall k | 0 <= k < |a| ensures s[k] != ':' { assert s[k] == a[k]; }
    assert |a| == |b|;
    assert a == s[..|a|] && b == s[..|b|];
    assert x == s[|a| + 1..] && y == s[|b| + 1..];
  }

  /** Different subjects have different keys, even though topics may hold colons. */
  lemma KeyInjective(s: Subject, t: Subject)
    requires WellNamed(s) && WellNamed(t) && Key(s.0, s.1, s.2) == Key(t.0, t.1, t.2)
    ensures s == t
  {
    SplitAtColon(s.0, t.0, s.1 + ":" + s.2, t.1 + ":" + t.2);
    SplitAtColon(s.1, t.1, s.2, t.2);
  }

  /** The entries at hand are those of the memory, apart from ones that are too old to matter. */
  ghost predicate Agrees(items: Items, memory: Memory, clock: int) {
    && (forall s :: s in memory ==> WellNamed(s))
    && (forall s :: WellNamed(s) && Key(s.0, s.1, s.2) in items ==>
      s in memory && memory[s] == items[Key(s.0, s.1, s.2)])
    && (forall s :: s in memory && Key(s.0, s.1, s.2) !in items ==> clock - memory[s] > KEEP_SECONDS)
  }

  lemma AgreesAfter(items: Items, memory: Memory, clock: int, op: Op)
    requires Agrees(items, memory, clock) && op.now >= clock
      && (op.Allow? ==> WellNamed(SubjectOf(op)) && op.interval <= KEEP_SECONDS + 1)
    ensures Agrees(Next(items, op), Remember(memory, op), op.now)
    ensures op.Allow? ==>
      (Denied(items, Key(op.event, op.user, op.topic), op.interval, op.now) <==> Blocked(memory, op))
  {
    if op.Allow? && !Blocked(memory, op) {
      var n, m := Next(items, op), Remember(memory, op);
      forall s | WellNamed(s) && Key(s.0, s.1, s.2) in n ensures s in m && m[s] == n[Key(s.0, s.1, s.2)] {
        if Key(s.0, s.1, s.2) == Key(op.event, op.user, op.topic) { KeyInjective(s, SubjectOf(op)); }
      }
    }
  }

  /** With intervals of up to 301 seconds, forgetting never changes an answer. */
  lemma {:induction false} ForgettingIsHarmless(items: Items, memory: Memory, clock: int, ops: seq<Op>)
    requires Agrees(items, memory, clock) && Proper(clock, ops) && IntervalsUpTo(KEEP_SECONDS + 1, ops)
    ensures Answers(items, ops) == IdealAnswers(memory, ops)
    decreases |ops|
  {
    if ops != [] {
      AgreesAfter(items, memory, clock, ops[0]);
      assert forall k :: 0 <= k < |ops| - 1 ==> ops[1..][k] == ops[k + 1];
      ForgettingIsHarmless(Next(items, ops[0]), Remember(memory, ops[0]), ops[0].now, ops[1..]);
    }
  }

  ghost predicate Legal(clock: int, ops: seq<Op>, max: int) { Proper(clock, ops) && IntervalsUpTo(max, ops) }

  ghost predicate SameAnswers(ops: seq<Op>) { Answers(map[], ops) == IdealAnswers(map[], ops) }

  /** 301 seconds is exactly as long as intervals may be. */
  lemma ForgettingHarmlessExactly(max: int)
    ensures (forall clock, ops :: Legal(clock, ops, max) ==> SameAnswers(ops))
       <==> max <= KEEP_SECONDS + 1
  {
    if max <= KEEP_SECONDS + 1 {
      forall clock, ops | Legal(clock, ops, max) ensures SameAnswers(ops) {
        ForgettingIsHarmless(map[], map[], clock, ops);
      }
    } else {
      var a := Allow("typing", "u", "t", max, 0);
      var b := Allow("typing", "u", "t", max, 301);
      var c := Op.Cleanup(301);
      var key := Key("typing", "u", "t");
      var ops := [a, c, b];
      assert ops[1..] == [c, b] && [c, b][1..] == [b] && [b][1..] == [];
      var i1: Items := map[key := 0];
      assert Next(map[], a) == i1 && Next(i1, c) == map[];
      assert Answers(map[], [b]) == [true] + Answers(Next(map[], b), []);
      assert Answers(i1, [c, b]) == [] + Answers(map[], [b]);
      assert Answers(map[], ops) == [true] + Answers(i1, [c, b]);
      var m1: Memory := map[SubjectOf(a) := 0];
      assert Remember(map[], a) == m1 && Remember(m1, c) == m1 && Blocked(m1, b);
      assert IdealAnswers(m1, [b]) == [false] + IdealAnswers(Remember(m1, b), []);
      assert IdealAnswers(m1, [c, b]) == [] + IdealAnswers(m1, [b]);
      assert IdealAnswers(map[], ops) == [true] + IdealAnswers(m1, [c, b]);
      assert Answers(map[], ops)[1] != IdealAnswers(map[], ops)[1];
      assert !SameAnswers(ops);
      assert Proper(301, [b]) && Proper(301, []);
      assert Proper(0, [c, b]);
      assert Legal(0, ops, max);
    }
  }

  /* ---- accepted events are apart ---- */

  /** The entries after a run. */
  function ItemsAfter(items: Items, ops: seq<Op>): Items
    decreases |ops|
  {
    if ops == [] then items else ItemsAfter(Next(items, ops[0]), ops[1..])
  }

  /** The time of the last operation. */
  function ClockAfter(clock: int, ops: seq<Op>): int
    decreases |ops|
  {
    if ops == [] then clock else ClockAfter(ops[0].now, ops[1..])
  }

  /** An event that was let through at the given time is remembered as that or a later one, or was
      forgotten for its age. */
  predicate Remembered(items: Items, key: string, time: int, clock: int) {
    if key in items then items[key] >= time else clock - time > KEEP_SECONDS
  }

  lemma {:induction false} RememberedAfter(items: Items, key: string, time: int, clock: int, ops: seq<Op>)
    requires time <= clock && Proper(clock, ops) && Remembered(items, key, time, clock)
    ensures Remembered(ItemsAfter(items, ops), key, time, ClockAfter(clock, ops))
    decreases |ops|
  {
    if ops != [] {
      RememberedAfter(Next(items, ops[0]), key, time, ops[0].now, ops[1..]);
    }
  }

  predicate Accepted(items: Items, op: Op) {
    op.Allow? && !Denied(items, Key(op.event, op.user, op.topic), op.interval, op.now)
  }

  /** Two events of one subject are let through, with any run of events and cleanups between them. */
  ghost predicate BothAccepted(items: Items, first: Op, between: seq<Op>, second: Op) {
    && Accepted(items, first) && Proper(first.now, between)
    && second.now >= ClockAfter(first.now, between) && Accepted(ItemsAfter(Next(items, first), between), second)
    && SubjectOf(first) == SubjectOf(second)
  }

  /** They are at least the later one's interval apart, if that is no longer than 301 seconds. */
  lemma AcceptedApart(items: Items, first: Op, between: seq<Op>, second: Op)
    requires BothAccepted(items, first, between, second) && second.interval <= KEEP_SECONDS + 1
    ensures second.now - first.now >= second.interval
  {
    var key := Key(first.event, first.user, first.topic);
    RememberedAfter(Next(items, first), key, first.now, first.now, between);
  }

  ghost predicate ApartUpTo(max: int, items: Items, first: Op, between: seq<Op>, second: Op) {
    BothAccepted(items, first, between, second) && second.interval <= max ==> second.now - first.now >= second.interval
  }

  /** 301 seconds is exactly the longest interval that is kept. */
  lemma AcceptedApartExactly(max: int)
    ensures (forall items, first, between, second :: ApartUpTo(max, items, first, between, second))
      <==> max <= KEEP_SECONDS + 1
  {
    if max <= KEEP_SECONDS + 1 {
      forall items, first, between, second ensures ApartUpTo(max, items, first, between, second) {
        if BothAccepted(items, first, between, second) && second.interval <= max {
          AcceptedApart(items, first, between, second);
        }
      }
    } else {
      var first, second := Allow("typing", "u", "t", max, 0), Allow("typing", "u", "t", max, 301);
      var between := [Op.Cleanup(301)];
      var key := Key("typing", "u", "t");
      var i1: Items := map[key := 0];
      assert Next(map[], first) == i1 && between[1..] == [];
      assert Proper(301, []) && Proper(0, between);
      assert ClockAfter(301, []) == 301 && ClockAfter(0, between) == 301;
      assert ItemsAfter(i1, between) == ItemsAfter(map[], []) == map[];
      assert !ApartUpTo(max, map[], first, between, second);
    }
  }
}
