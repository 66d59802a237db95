/** Reservation handlers of many requests at once (server/server_account.go): each looks whether the topic is
    free, then counts the user's reservations, then writes, and anything else may happen in between. */
module Reserving {
  import opened Text
  import opened Wildcards
  import opened AccessTable
  import opened AccessSteps

  /** A request that has found its topic free. room is the limit of the user's tier as the request has read
      it, None for admins; counted tells whether the count has been checked as well. */
  datatype Pending = Pending(user: string, topic: string, everyone: Permission, room: Option<int>, counted: bool)

  datatype System = System(st: State, pending: map<nat, Pending>)

  datatype Event =
    | CheckFree(handler: nat, user: string, topic: string, everyone: Permission)
    | CheckCount(handler: nat)
    | Write(handler: nat)
    | Other(op: Op)

  predicate Enabled(s: System, e: Event) {
    match e
    case CheckFree(h, _, _, _) => h !in s.pending
    case CheckCount(h) => h in s.pending && !s.pending[h].counted
    case Write(h) => h in s.pending && s.pending[h].counted
    case Other(op) => !op.AddReservation?
  }

  /** What is checked before the count. */
  predicate FoundFree(st: State, u: string, topic: string) {
    && u in st.users && AllowedTopic(topic) && AllowedUsername(u) && u != EVERYONE
    && !(st.users[u].role == UserRole && st.users[u].tier.None?)
    && Free(st.access, u, EscapeUnderscore(topic))
  }

  function RoomOf(st: State, u: string): Option<int>
    requires u in st.users
  {
    if st.users[u].role == UserRole then Some(Limit(st, st.users[u].tier)) else None
  }

  predicate HasRoom(st: State, p: Pending) {
    var reserved := Reserved(st.access, p.user);
    p.room.None? || EscapeUnderscore(p.topic) in reserved || |reserved| < p.room.value
  }

  /** The new rows; an unknown user violates NOT NULL. */
  function Written(st: State, p: Pending): State {
    if p.user in st.users then st.(access := Reserve(st.access, p.user, EscapeUnderscore(p.topic), p.everyone)) else st
  }

  function Apply(s: System, e: Event): System
    requires Enabled(s, e)
  {
    match e
    case CheckFree(h, u, topic, everyone) =>
      if FoundFree(s.st, u, topic)
      then s.(pending := s.pending[h := Pending(u, topic, everyone, RoomOf(s.st, u), false)])
      else s
    case CheckCount(h) =>
      if HasRoom(s.st, s.pending[h])
      then s.(pending := s.pending[h := s.pending[h].(counted := true)])
      else s.(pending := s.pending - {h})
    case Write(h) => System(Written(s.st, s.pending[h]), s.pending - {h})
    case Other(op) => s.(st := Step(s.st, op).0)
  }

  ghost predicate Runs(s: System, es: seq<Event>)
    decreases |es|
  {
    es == [] || (Enabled(s, es[0]) && Runs(Apply(s, es[0]), es[1..]))
  }

  ghost function After(s: System, es: seq<Event>): System
    requires Runs(s, es)
    decreases |es|
  {
    if es == [] then s else After(Apply(s, es[0]), es[1..])
  }

  lemma RunOne(s: System, e: Event, rest: seq<Event>) returns (es: seq<Event>)
    requires Enabled(s, e) && Runs(Apply(s, e), rest)
    ensures es == [e] + rest && es[1..] == rest && Runs(s, es) && After(s, es) == After(Apply(s, e), rest)
  {
    es := [e] + rest;
    assert es[1..] == rest;
  }

  /** Without interruption the three steps do what the handler does as one step. */
  lemma SequentialHandler(st: State, u: string, topic: string, everyone: Permission) returns (es: seq<Event>)
    requires Valid(st) && u in st.users
    ensures Runs(System(st, map[]), es)
    ensures After(System(st, map[]), es) == System(Step(st, AddReservation(u, topic, everyone)).0, map[])
  {
    var s0 := System(st, map[]);
    var s1 := Apply(s0, CheckFree(0, u, topic, everyone));
    es := [];
    if FoundFree(st, u, topic) {
      var p := Pending(u, topic, everyone, RoomOf(st, u), false);
      assert s1 == System(st, map[0 := p]);
      var s2 := Apply(s1, CheckCount(0));
      if HasRoom(st, p) {
        assert s2 == System(st, map[0 := p.(counted := true)]);
        assert Apply(s2, Write(0)) == System(Written(st, p), map[]);
        es := RunOne(s2, Write(0), es);
      } else {
        assert s2 == System(st, map[]);
      }
      es := RunOne(s1, CheckCount(0), es);
    }
    es := RunOne(s0, CheckFree(0, u, topic, everyone), es);
  }

  /* ---- ownership ---- */

  function HandlersFor(s: System, topic: string): set<nat> { set h | h in s.pending && s.pending[h].topic == topic }

  ghost predicate TopicsUpTo(n: nat, s: System) { forall topic :: |HandlersFor(s, topic)| <= n }

  /** At most n handlers are under way for each topic, in every state of the run. */
  ghost predicate PerTopic(n: nat, s: System, es: seq<Event>)
    requires Runs(s, es)
    decreases |es|
  {
    TopicsUpTo(n, s) && (es == [] || PerTopic(n, Apply(s, es[0]), es[1..]))
  }

  /** Nobody else has reserved the topic of a request under way. */
  ghost predicate Unclaimed(t: Table, p: Pending) {
    && AllowedTopic(p.topic) && p.user != EVERYONE
    && forall v :: v != p.user ==> EscapeUnderscore(p.topic) !in Reserved(t, v)
  }

  ghost predicate OwnershipInv(s: System) {
    Owned(s.st.access) && forall h :: h in s.pending ==> Unclaimed(s.st.access, s.pending[h])
  }

  lemma OneForTopic(s: System, h: nat, k: nat)
    requires TopicsUpTo(1, s) && h in s.pending && k in s.pending && s.pending[h].topic == s.pending[k].topic
    ensures h == k
  {
    var both := HandlersFor(s, s.pending[h].topic);
    assert both == {h, k} + (both - {h, k});
    assert |both| == |{h, k}| + |both - {h, k}|;
  }

  lemma WriteKeepsUnclaimed(st: State, p: Pending, q: Pending)
    requires Unclaimed(st.access, q) && AllowedTopic(p.topic) && p.topic != q.topic
    ensures Unclaimed(Written(st, p).access, q)
  {
    StoredTopic(p.topic);
    StoredTopic(q.topic);
    var s := EscapeUnderscore(q.topic);
    assert s != EscapeUnderscore(p.topic);
    forall v | v != q.user ensures s !in Reserved(Written(st, p).access, v) {
      assert s !in Reserved(st.access, v);
      assert (v, s) in Written(st, p).access <==> (v, s) in st.access;
    }
  }

  lemma OtherKeepsUnclaimed(st: State, op: Op, p: Pending)
    requires Unclaimed(st.access, p) && !op.AddReservation?
    ensures Unclaimed(Step(st, op).0.access, p)
  {
    if Refusal(st, op).None? {
      AccessShape(st, op);
      var s := EscapeUnderscore(p.topic);
      forall v | v != p.user ensures s !in Reserved(AccessAfter(st, op), v) {
        assert s !in Reserved(st.access, v);
        assert (v, s) in st.access ==> st.access[(v, s)].owner != Some(v);
      }
    }
  }

  lemma StepKeepsOwnership(s: System, e: Event)
    requires OwnershipInv(s) && Enabled(s, e) && TopicsUpTo(1, s)
    ensures OwnershipInv(Apply(s, e))
  {
    match e
    case CheckFree(h, u, topic, everyone) =>
      if FoundFree(s.st, u, topic) { FreeIsUnreserved(s.st.access, u, EscapeUnderscore(topic)); }
    case CheckCount(h) => assert Unclaimed(s.st.access, s.pending[h]);
    case Write(h) => WriteKeepsOwnership(s, h);
    case Other(op) =>
      if Refusal(s.st, op).None? { StepKeepsOwned(s.st, op); }
      forall h | h in s.pending ensures Unclaimed(Step(s.st, op).0.access, s.pending[h]) {
        OtherKeepsUnclaimed(s.st, op, s.pending[h]);
      }
  }

  lemma WriteKeepsOwnership(s: System, h: nat)
    requires OwnershipInv(s) && Enabled(s, Write(h)) && TopicsUpTo(1, s)
    ensures OwnershipInv(Apply(s, Write(h)))
  {
    var p := s.pending[h];
    assert Unclaimed(s.st.access, p);
    StoredTopic(p.topic);
    ReserveKeepsOwnedExactly(s.st.access, p.user, EscapeUnderscore(p.topic), p.everyone);
    forall k | k in s.pending && k != h ensures Unclaimed(Written(s.st, p).access, s.pending[k]) {
      if s.pending[k].topic == p.topic { OneForTopic(s, h, k); }
      WriteKeepsUnclaimed(s.st, p, s.pending[k]);
    }
  }

  lemma {:induction false} RunKeepsOwnershipInv(s: System, es: seq<Event>)
    requires OwnershipInv(s) && Runs(s, es) && PerTopic(1, s, es)
    ensures OwnershipInv(After(s, es))
    decreases |es|
  {
    if es != [] {
      StepKeepsOwnership(s, es[0]);
      RunKeepsOwnershipInv(Apply(s, es[0]), es[1..]);
    }
  }

  ghost predicate OwnershipKept(n: nat, st: State, es: seq<Event>) {
    Valid(st) && Runs(System(st, map[]), es) && PerTopic(n, System(st, map[]), es) ==>
    Owned(After(System(st, map[]), es).st.access)
  }

  lemma {:induction false} FewerPerTopic(m: nat, n: nat, s: System, es: seq<Event>)
    requires m <= n && Runs(s, es) && PerTopic(m, s, es)
    ensures PerTopic(n, s, es)
    decreases |es|
  {
    if es != [] { FewerPerTopic(m, n, Apply(s, es[0]), es[1..]); }
  }

  /** Ownership is kept in all runs with at most n handlers at a time for each topic, whatever other
      operations come in between, if and only if n is at most one. */
  lemma OwnershipKeptExactly(n: nat)
    ensures (forall st, es :: OwnershipKept(n, st, es)) <==> n <= 1
  {
    if n <= 1 {
      forall st, es ensures OwnershipKept(n, st, es) {
        if Valid(st) && Runs(System(st, map[]), es) && PerTopic(n, System(st, map[]), es) {
          FewerPerTopic(n, 1, System(st, map[]), es);
          RunKeepsOwnershipInv(System(st, map[]), es);
        }
      }
    } else {
      var st, es := BothWrite("a", "b", "t", READ);
      FewerPerTopic(2, n, System(st, map[]), es);
      assert !OwnershipKept(n, st, es);
    }
  }

  /** A state with two admins and no rows. */
  function TwoAdmins(u: string, v: string): State {
    State(map[EVERYONE := User(AnonymousRole, false, None, ""), u := User(AdminRole, false, None, ""),
              v := User(AdminRole, false, None, "")], map[], map[])
  }

  lemma FewTopics(s: System)
    requires s.pending.Keys <= {0, 1}
    ensures TopicsUpTo(2, s)
  {
    forall topic ensures |HandlersFor(s, topic)| <= 2 {
      var some := HandlersFor(s, topic);
      assert {0, 1} == some + ({0, 1} - some);
    }
  }

  lemma RunPerTopic(s: System, e: Event, rest: seq<Event>) returns (es: seq<Event>)
    requires Enabled(s, e) && Runs(Apply(s, e), rest) && s.pending.Keys <= {0, 1} && PerTopic(2, Apply(s, e), rest)
    ensures Runs(s, es) && After(s, es) == After(Apply(s, e), rest) && PerTopic(2, s, es)
  {
    es := RunOne(s, e, rest);
    FewTopics(s);
  }

  lemma AdminsState(u: string, v: string)
    requires AllowedUsername(u) && AllowedUsername(v)
    ensures Valid(TwoAdmins(u, v))
  {
    EveryoneNotAllowed();
  }

  /** Any two users can both end up with a reservation of any topic. */
  lemma BothWrite(u: string, v: string, topic: string, everyone: Permission) returns (st: State, es: seq<Event>)
    requires AllowedUsername(u) && AllowedUsername(v) && u != v && AllowedTopic(topic)
    ensures Valid(st) && Runs(System(st, map[]), es) && PerTopic(2, System(st, map[]), es)
    ensures !Owned(After(System(st, map[]), es).st.access)
  {
    st := TwoAdmins(u, v);
    AdminsState(u, v);
    EveryoneNotAllowed();
    var p, q := Pending(u, topic, everyone, None, false), Pending(v, topic, everyone, None, false);
    var s0 := System(st, map[]);
    var s1 := Apply(s0, CheckFree(0, u, topic, everyone));
    assert s1 == System(st, map[0 := p]);
    var s2 := Apply(s1, CheckFree(1, v, topic, everyone));
    assert s2 == System(st, map[0 := p, 1 := q]);
    var s3 := Apply(s2, CheckCount(0));
    assert s3 == System(st, map[0 := p.(counted := true), 1 := q]);
    var s4 := Apply(s3, CheckCount(1));
    assert s4 == System(st, map[0 := p.(counted := true), 1 := q.(counted := true)]);
    es := WriteBoth(s4, p.(counted := true), q.(counted := true));
    es := RunPerTopic(s3, CheckCount(1), es);
    es := RunPerTopic(s2, CheckCount(0), es);
    es := RunPerTopic(s1, CheckFree(1, v, topic, everyone), es);
    es := RunPerTopic(s0, CheckFree(0, u, topic, everyone), es);
  }

  lemma WriteBoth(s: System, p: Pending, q: Pending) returns (es: seq<Event>)
    requires s.pending == map[0 := p, 1 := q] && p.counted && q.counted && p.topic == q.topic && AllowedTopic(p.topic)
    requires p.user != q.user && p.user != EVERYONE && q.user != EVERYONE && p.user in s.st.users
      && q.user in s.st.users
    requires s.st.access == map[]
    ensures Runs(s, es) && PerTopic(2, s, es) && !Owned(After(s, es).st.access)
  {
    var stored := EscapeUnderscore(p.topic);
    StoredTopic(p.topic);
    var s1 := Apply(s, Write(0));
    assert s1.pending == map[1 := q];
    var s2 := Apply(s1, Write(1));
    assert s2.pending == map[];
    assert s2.st.access == Reserve(Reserve(map[], p.user, stored, p.everyone), q.user, stored, q.everyone);
    BothReserve(map[], q.user, p.user, stored, p.everyone, q.everyone);
    FewTopics(s2);
    es := RunPerTopic(s1, Write(1), []);
    es := RunPerTopic(s, Write(0), es);
  }

  /* ---- the limit of one user ---- */

  function HandlersOf(s: System, u: string): set<nat> { set h | h in s.pending && s.pending[h].user == u }

  /** The operation is about the user's account or may change the limit that goes with it. */
  predicate Touches(op: Op, u: string) {
    ((op.AddUser? || op.RemoveUser? || op.ChangeRole? || op.ChangeTier? || op.ResetTier?) && op.user == u)
      || op.UpdateTier?
  }

  /** Other operations are harmless for the user's limit as it is, and, where quiet asks for it, touch the
      user's account only while no handler of the user is under way. */
  ghost predicate Follows(quiet: bool, s: System, e: Event, u: string) {
    e.Other? ==> Harmless(s.st, e.op, u) && (quiet && Touches(e.op, u) ==> HandlersOf(s, u) == {})
  }

  /** At most n handlers of the user are under way in every state. */
  ghost predicate PerUser(n: nat, quiet: bool, s: System, es: seq<Event>, u: string)
    requires Runs(s, es)
    decreases |es|
  {
    && |HandlersOf(s, u)| <= n
    && (es == [] || (Follows(quiet, s, es[0], u) && PerUser(n, quiet, Apply(s, es[0]), es[1..], u)))
  }

  /** A request of u knows the limit in force, and once it has counted, its topic fits. */
  ghost predicate Informed(st: State, p: Pending, u: string) {
    && u in st.users && p.room == RoomOf(st, u)
    && (p.counted && p.room.Some? ==> |Reserved(st.access, u) + {EscapeUnderscore(p.topic)}| <= p.room.value)
  }

  ghost predicate Consistent(st: State) {
    EVERYONE in st.users && References(st.access, st.users.Keys) && TiersKnown(st)
  }

  ghost predicate Within(st: State, u: string) { u in st.users ==> WithinLimit(st, u) }

  ghost predicate LimitInv(s: System, u: string) {
    && Consistent(s.st) && Within(s.st, u)
    && (forall h :: h in HandlersOf(s, u) ==> Informed(s.st, s.pending[h], u))
    && (forall h :: h in s.pending ==> s.pending[h].user != EVERYONE)
  }

  lemma WrittenReserved(st: State, p: Pending, u: string)
    requires u != EVERYONE && p.user != EVERYONE && p.user in st.users
    ensures Reserved(Written(st, p).access, u) ==
      if p.user == u then Reserved(st.access, u) + {EscapeUnderscore(p.topic)} else Reserved(st.access, u)
  {
    var stored, r := EscapeUnderscore(p.topic), Written(st, p).access;
    forall x ensures x in Reserved(r, u) <==> x in Reserved(st.access, u) || (p.user == u && x == stored) {
      assert (u, x) in r <==> (u, x) in st.access || (p.user == u && x == stored);
    }
  }

  lemma WriteKeepsConsistent(st: State, p: Pending)
    requires Consistent(st)
    ensures Consistent(Written(st, p))
  {}

  lemma OtherKeepsConsistent(st: State, op: Op)
    requires Consistent(st)
    ensures Consistent(Step(st, op).0)
  {
    EveryoneNotAllowed();
    if Refusal(st, op).None? {
      StepKeepsReferences(st, op);
      StepKeepsTiers(st, op);
    }
  }

  lemma CountInforms(st: State, p: Pending, u: string)
    requires p.user == u && u in st.users && WithinLimit(st, u) && Informed(st, p, u) && HasRoom(st, p)
    ensures Informed(st, p.(counted := true), u)
  {
    var reserved, stored := Reserved(st.access, u), EscapeUnderscore(p.topic);
    if stored in reserved {
      assert reserved + {stored} == reserved && |reserved| >= 1 by {
        assert reserved == {stored} + (reserved - {stored});
      }
    }
  }

  lemma AccountUntouched(st: State, op: Op, u: string)
    requires Refusal(st, op).None? && !Touches(op, u) && u in st.users && TiersKnown(st)
    ensures u in UsersAfter(st, op) && RoomOf(Step(st, op).0, u) == RoomOf(st, u)
  {
    assert UsersAfter(st, op)[u].role == st.users[u].role && UsersAfter(st, op)[u].tier == st.users[u].tier;
  }

  lemma NothingReserved(st: State, op: Op, u: string)
    requires Refusal(st, op).None? && !op.AddReservation?
    ensures Reserved(AccessAfter(st, op), u) <= Reserved(st.access, u)
  {
    AccessShape(st, op);
  }

  lemma OtherKeepsInformed(st: State, op: Op, p: Pending, u: string)
    requires Informed(st, p, u) && !op.AddReservation? && !Touches(op, u) && TiersKnown(st)
    ensures Informed(Step(st, op).0, p, u)
  {
    if Refusal(st, op).None? {
      AccountUntouched(st, op, u);
      NothingReserved(st, op, u);
      var stored := EscapeUnderscore(p.topic);
      SubsetCardinality(Reserved(AccessAfter(st, op), u) + {stored}, Reserved(st.access, u) + {stored});
    }
  }

  predicate Safe(n: nat, quiet: bool) { n == 0 || (n == 1 && quiet) }

  lemma OneOfUser(s: System, u: string, h: nat)
    requires |HandlersOf(s, u)| <= 1 && h in HandlersOf(s, u)
    ensures HandlersOf(s, u) == {h}
  {
    var rest := HandlersOf(s, u) - {h};
    assert HandlersOf(s, u) == rest + {h};
    assert |HandlersOf(s, u)| == |rest| + 1;
  }

  lemma CheckKeepsLimit(s: System, e: Event, u: string)
    requires AllowedUsername(u) && LimitInv(s, u) && Enabled(s, e) && (e.CheckFree? || e.CheckCount?)
    ensures LimitInv(Apply(s, e), u)
  {
    var next := Apply(s, e);
    if e.CheckCount? && s.pending[e.handler].user == u {
      assert e.handler in HandlersOf(s, u);
      if HasRoom(s.st, s.pending[e.handler]) { CountInforms(s.st, s.pending[e.handler], u); }
    }
    forall h | h in HandlersOf(next, u) ensures Informed(next.st, next.pending[h], u) {
      if h in s.pending && h != e.handler { assert h in HandlersOf(s, u); }
    }
  }

  lemma WriteKeepsWithin(st: State, p: Pending, u: string)
    requires AllowedUsername(u) && p.user != EVERYONE && p.counted && Within(st, u)
    requires p.user == u ==> Informed(st, p, u)
    ensures Within(Written(st, p), u)
  {
    EveryoneNotAllowed();
    if p.user in st.users { WrittenReserved(st, p, u); }
  }

  lemma OthersWriteKeepsInformed(st: State, p: Pending, q: Pending, u: string)
    requires AllowedUsername(u) && p.user != u && p.user != EVERYONE && Informed(st, q, u)
    ensures Informed(Written(st, p), q, u)
  {
    EveryoneNotAllowed();
    if p.user in st.users { WrittenReserved(st, p, u); }
  }

  lemma WriteKeepsLimit(s: System, h: nat, u: string)
    requires AllowedUsername(u) && LimitInv(s, u) && Enabled(s, Write(h)) && |HandlersOf(s, u)| <= 1
    ensures LimitInv(Apply(s, Write(h)), u)
  {
    var p, next := s.pending[h], Apply(s, Write(h));
    WriteKeepsConsistent(s.st, p);
    if p.user == u {
      assert h in HandlersOf(s, u);
      OneOfUser(s, u, h);
      assert HandlersOf(next, u) == {};
    } else {
      assert HandlersOf(next, u) == HandlersOf(s, u);
      forall k | k in HandlersOf(s, u) ensures Informed(next.st, s.pending[k], u) {
        OthersWriteKeepsInformed(s.st, p, s.pending[k], u);
      }
    }
    WriteKeepsWithin(s.st, p, u);
  }

  lemma OtherKeepsLimit(s: System, op: Op, u: string, quiet: bool)
    requires LimitInv(s, u) && Enabled(s, Other(op)) && Follows(quiet, s, Other(op), u)
      && (quiet || HandlersOf(s, u) == {})
    ensures LimitInv(Apply(s, Other(op)), u)
  {
    OtherKeepsConsistent(s.st, op);
    GivenStepKeepsLimit(s.st, op, u);
    assert HandlersOf(Apply(s, Other(op)), u) == HandlersOf(s, u);
    forall h | h in HandlersOf(s, u) ensures Informed(Step(s.st, op).0, s.pending[h], u) {
      OtherKeepsInformed(s.st, op, s.pending[h], u);
    }
  }

  lemma {:induction false} RunKeepsLimitInv(n: nat, quiet: bool, s: System, es: seq<Event>, u: string)
    requires AllowedUsername(u) && Safe(n, quiet) && LimitInv(s, u) && Runs(s, es) && PerUser(n, quiet, s, es, u)
    ensures LimitInv(After(s, es), u)
    decreases |es|
  {
    if es != [] {
      match es[0] {
        case Write(h) => WriteKeepsLimit(s, h, u);
        case Other(op) => OtherKeepsLimit(s, op, u, quiet);
        case _ => CheckKeepsLimit(s, es[0], u);
      }
      RunKeepsLimitInv(n, quiet, Apply(s, es[0]), es[1..], u);
    }
  }

  ghost predicate LimitKept(n: nat, quiet: bool, u: string, st: State, es: seq<Event>) {
    Valid(st) && Within(st, u) && Runs(System(st, map[]), es) && PerUser(n, quiet, System(st, map[]), es, u) ==>
    Within(After(System(st, map[]), es).st, u)
  }

  /** A user's limit is kept in all runs with at most n handlers of that user at a time if and only if there
      are none, or one, and the user's role, tier and limit are left alone while it is under way; whatever
      happens to other users. */
  lemma LimitKeptExactly(n: nat, quiet: bool, u: string)
    requires AllowedUsername(u)
    ensures (forall st, es :: LimitKept(n, quiet, u, st, es)) <==> Safe(n, quiet)
  {
    if Safe(n, quiet) {
      forall st, es ensures LimitKept(n, quiet, u, st, es) {
        var s := System(st, map[]);
        if Valid(st) && Within(st, u) && Runs(s, es) && PerUser(n, quiet, s, es, u) {
          RunKeepsLimitInv(n, quiet, s, es, u);
        }
      }
    } else {
      var st := OneRegular(u);
      RegularState(u);
      var es := [];
      if n == 1 { es := TierChangesMeanwhile(u); } else { es := TwoOfOneUser(n, quiet, u); }
      assert !LimitKept(n, quiet, u, st, es);
    }
  }

  /** A state with one regular user, on a tier with one reservation, and another tier without any. */
  function OneRegular(u: string): State {
    State(map[EVERYONE := User(AnonymousRole, false, None, ""), u := User(UserRole, false, Some("one"), "")],
          map["one" := 1, "none" := 0], map[])
  }

  lemma RegularState(u: string)
    requires AllowedUsername(u)
    ensures Valid(OneRegular(u)) && Within(OneRegular(u), u)
  {
    EveryoneNotAllowed();
    assert Reserved(map[], u) == {};
  }

  lemma RunPerUser(n: nat, quiet: bool, s: System, e: Event, rest: seq<Event>, u: string) returns (es: seq<Event>)
    requires Enabled(s, e) && Runs(Apply(s, e), rest) && |HandlersOf(s, u)| <= n && Follows(quiet, s, e, u)
    requires PerUser(n, quiet, Apply(s, e), rest, u)
    ensures Runs(s, es) && After(s, es) == After(Apply(s, e), rest) && PerUser(n, quiet, s, es, u)
  {
    es := RunOne(s, e, rest);
  }

  lemma HandlersWithin(s: System, u: string, hs: set<nat>)
    requires s.pending.Keys <= hs
    ensures |HandlersOf(s, u)| <= |hs|
  {
    assert hs == HandlersOf(s, u) + (hs - HandlersOf(s, u));
  }

  lemma OneReserved(t: Table, u: string, s: string, everyone: Permission)
    requires u != EVERYONE && t == map[]
    ensures Reserved(Reserve(t, u, s, everyone), u) == {s}
  {
    forall x ensures x in Reserved(Reserve(t, u, s, everyone), u) <==> x == s {
      assert (u, x) in Reserve(t, u, s, everyone) <==> x == s;
    }
  }

  lemma FirstCheck(s: System, h: nat, u: string, topic: string)
    requires AllowedUsername(u) && s.st == OneRegular(u) && AllowedTopic(topic) && h !in s.pending
    ensures Apply(s, CheckFree(h, u, topic, READ)) ==
      System(s.st, s.pending[h := Pending(u, topic, READ, Some(1), false)])
  {
    EveryoneNotAllowed();
  }

  lemma SecondCheck(s: System, h: nat, u: string)
    requires s.st == OneRegular(u) && h in s.pending && !s.pending[h].counted
    requires s.pending[h].user == u && s.pending[h].room == Some(1)
    ensures Apply(s, CheckCount(h)) == System(s.st, s.pending[h := s.pending[h].(counted := true)])
  {
    assert Reserved(map[], u) == {};
  }

  lemma TierChanged(u: string)
    requires AllowedUsername(u)
    ensures Step(OneRegular(u), ChangeTier(u, "none")).0 ==
      OneRegular(u).(users := OneRegular(u).users[u := User(UserRole, false, Some("none"), "")])
  {
    EveryoneNotAllowed();
    assert Reserved(map[], u) == {};
  }

  lemma OneTooMany(st: State, p: Pending)
    requires p.user != EVERYONE && p.user in st.users && st.access == map[]
    requires st.users[p.user].role == UserRole && Limit(st, st.users[p.user].tier) == 0
    ensures !Within(Written(st, p), p.user)
  {
    OneReserved(map[], p.user, EscapeUnderscore(p.topic), p.everyone);
  }

  /** The user moves to a smaller tier after the count and before the write. */
  lemma TierChangesMeanwhile(u: string) returns (es: seq<Event>)
    requires AllowedUsername(u)
    ensures var s := System(OneRegular(u), map[]);
      Runs(s, es) && PerUser(1, false, s, es, u) && !Within(After(s, es).st, u)
  {
    EveryoneNotAllowed();
    var p := Pending(u, "t", READ, Some(1), false);
    var s0 := System(OneRegular(u), map[]);
    FirstCheck(s0, 0, u, "t");
    var s1 := Apply(s0, CheckFree(0, u, "t", READ));
    SecondCheck(s1, 0, u);
    var s2 := Apply(s1, CheckCount(0));
    TierChanged(u);
    var s3 := Apply(s2, Other(ChangeTier(u, "none")));
    assert s3.pending[0] == p.(counted := true);
    OneTooMany(s3.st, s3.pending[0]);
    HandlersWithin(s0, u, {0});
    HandlersWithin(s1, u, {0});
    HandlersWithin(s2, u, {0});
    HandlersWithin(s3, u, {0});
    HandlersWithin(Apply(s3, Write(0)), u, {0});
    es := RunPerUser(1, false, s3, Write(0), [], u);
    es := RunPerUser(1, false, s2, Other(ChangeTier(u, "none")), es, u);
    es := RunPerUser(1, false, s1, CheckCount(0), es, u);
    es := RunPerUser(1, false, s0, CheckFree(0, u, "t", READ), es, u);
  }

  /** Two handlers count before either writes. */
  lemma TwoOfOneUser(n: nat, quiet: bool, u: string) returns (es: seq<Event>)
    requires AllowedUsername(u) && n >= 2
    ensures var s := System(OneRegular(u), map[]);
      Runs(s, es) && PerUser(n, quiet, s, es, u) && !Within(After(s, es).st, u)
  {
    var p, q := Pending(u, "a", READ, Some(1), true), Pending(u, "b", READ, Some(1), true);
    var s0 := System(OneRegular(u), map[]);
    FirstCheck(s0, 0, u, "a");
    var s1 := Apply(s0, CheckFree(0, u, "a", READ));
    FirstCheck(s1, 1, u, "b");
    var s2 := Apply(s1, CheckFree(1, u, "b", READ));
    SecondCheck(s2, 0, u);
    var s3 := Apply(s2, CheckCount(0));
    SecondCheck(s3, 1, u);
    var s4 := Apply(s3, CheckCount(1));
    assert s4.pending == map[0 := p, 1 := q];
    HandlersWithin(s0, u, {0, 1});
    HandlersWithin(s1, u, {0, 1});
    HandlersWithin(s2, u, {0, 1});
    HandlersWithin(s3, u, {0, 1});
    es := WriteTwo(n, quiet, u, s4, p, q);
    es := RunPerUser(n, quiet, s3, CheckCount(1), es, u);
    es := RunPerUser(n, quiet, s2, CheckCount(0), es, u);
    es := RunPerUser(n, quiet, s1, CheckFree(1, u, "b", READ), es, u);
    es := RunPerUser(n, quiet, s0, CheckFree(0, u, "a", READ), es, u);
  }

  lemma BothReserved(u: string, s: State, p: Pending, q: Pending)
    requires u != EVERYONE && u in s.users && s.access == map[] && p.user == u == q.user && p.topic == "a"
      && q.topic == "b"
    ensures |Reserved(Written(Written(s, p), q).access, u)| == 2
  {
    OneReserved(map[], u, EscapeUnderscore("a"), p.everyone);
    WrittenReserved(Written(s, p), q, u);
    assert EscapeUnderscore("a") == "a" && EscapeUnderscore("b") == "b";
    assert Reserved(Written(Written(s, p), q).access, u) == {"a", "b"};
  }

  lemma WriteTwo(n: nat, quiet: bool, u: string, s: System, p: Pending, q: Pending) returns (es: seq<Event>)
    requires AllowedUsername(u) && n >= 2 && s == System(OneRegular(u), map[0 := p, 1 := q])
    requires p.user == u == q.user && p.counted && q.counted && p.topic == "a" && q.topic == "b"
    ensures Runs(s, es) && PerUser(n, quiet, s, es, u) && !Within(After(s, es).st, u)
  {
    EveryoneNotAllowed();
    var s1 := Apply(s, Write(0));
    assert s1 == System(Written(s.st, p), map[1 := q]);
    var s2 := Apply(s1, Write(1));
    assert s2 == System(Written(Written(s.st, p), q), map[]);
    BothReserved(u, s.st, p, q);
    HandlersWithin(s, u, {0, 1});
    HandlersWithin(s1, u, {0, 1});
    HandlersWithin(s2, u, {0, 1});
    es := RunPerUser(n, quiet, s1, Write(1), [], u);
    es := RunPerUser(n, quiet, s, Write(0), es, u);
  }
}
