/** Publishing, scheduled sending and pruning as interleaved steps over one messages table
    (server/server.go, server/server_manager.go). A publish handler decides, then deletes what it
    displaces, then stores; the delayed sender takes its messages from a snapshot; a prune deletes
    what it selected earlier. There is one sender; writes are synchronous and the clock is
    monotone. */
module Delivery {
  import opened Text
  import opened MessageTable
  import MessageCache

  /** A request between its delay check and its insertion. */
  datatype Handler = Handler(msg: Message, replacing: bool)

  /** sent lists the message ids handed out, and log the time of each such message and of its hand-out. */
  datatype State = State(
    rows: Rows, nextId: nat, clock: int,
    used: set<string>,
    handlers: map<string, Handler>,
    sent: seq<string>, log: seq<(int, int)>,
    pass: seq<Message>, sending: Option<string>, snapshot: set<string>, skipped: set<string>,
    doomed: set<string>)

  datatype Step =
    | Tick(now: int)
    | Receive(msg: Message, displaces: bool, cached: bool)
    | Replace(mid: string)
    | Store(mid: string)
    | BeginPass
    | Hand(userExists: bool)
    | Mark
    | SelectExpired
    | Prune(mids: set<string>)
    | DropTopic(topic: string)
    | ExpireTopic(topic: string)

  const INIT := State(map[], 1, 0, {}, map[], [], [], [], None, {}, {}, {})

  /** Message ids are fresh, and a message that is not due yet must be cached. */
  predicate Enabled(s: State, e: Step) {
    match e
    case Tick(now) => s.clock <= now
    case Receive(m, displaces, cached) => m.mid !in s.used && (m.time > s.clock ==> cached && displaces)
    case Replace(mid) => mid in s.handlers && s.handlers[mid].replacing
    case Store(mid) => mid in s.handlers && !s.handlers[mid].replacing
    case BeginPass => s.pass == [] && s.sending.None?
    case Hand(_) => s.pass != [] && s.sending.None?
    case Mark => s.sending.Some?
    case SelectExpired => true
    case Prune(mids) => mids <= s.doomed
    case DropTopic(_) => true
    case ExpireTopic(_) => true
  }

  function MidsOf(ms: seq<Message>): set<string> { set k | 0 <= k < |ms| :: ms[k].mid }

  function Apply(s: State, e: Step): State
    requires Enabled(s, e)
  {
    match e
    case Tick(now) => s.(clock := now)
    case Receive(m, displaces, cached) =>
      s.(used := s.used + {m.mid},
         sent := if m.time > s.clock then s.sent else s.sent + [m.mid],
         log := if m.time > s.clock then s.log else s.log + [(m.time, s.clock)],
         handlers := if cached then s.handlers[m.mid := Handler(m, displaces)] else s.handlers)
    case Replace(mid) =>
      var m := s.handlers[mid].msg;
      s.(rows := WithoutScheduled(s.rows, m.topic, m.sequenceId), handlers := s.handlers[mid := Handler(m, false)])
    case Store(mid) =>
      s.(rows := s.rows[s.nextId := RowOf(s.handlers[mid].msg, s.clock)], nextId := s.nextId + 1,
        handlers := s.handlers - {mid})
    case BeginPass =>
      var due := MessagesOf(s.rows, Ordered(s.rows, DueIds(s.rows, s.clock)));
      s.(pass := due, snapshot := MidsOf(due), skipped := {})
    case Hand(userExists) =>
      var m := s.pass[0];
      if m.user != "" && !userExists then s.(pass := s.pass[1..], skipped := s.skipped + {m.mid})
      else s.(pass := s.pass[1..], sent := s.sent + [m.mid], log := s.log + [(m.time, s.clock)], sending := Some(m.mid))
    case Mark => s.(rows := MarkedPublished(s.rows, s.sending.value), sending := None)
    case SelectExpired => s.(doomed := s.doomed + ExpiredMids(s.rows, s.clock))
    case Prune(mids) => s.(rows := WithoutMessages(s.rows, mids))
    case DropTopic(topic) => s.(rows := WithoutTopic(s.rows, topic))
    case ExpireTopic(topic) => s.(rows := Expired(s.rows, topic, s.clock - 1))
  }

  ghost predicate Runs(s: State, es: seq<Step>)
    decreases |es|
  {
    es == [] || (Enabled(s, es[0]) && Runs(Apply(s, es[0]), es[1..]))
  }

  ghost function After(s: State, es: seq<Step>): State
    requires Runs(s, es)
    decreases |es|
  {
    if es == [] then s else After(Apply(s, es[0]), es[1..])
  }

  /* ---- the invariant ---- */

  ghost predicate Distinct(xs: seq<string>) {
    forall i, j :: 0 <= i < j < |xs| ==> xs[i] != xs[j]
  }

  /** Message ids: known, held by one row each, and by no row while the handler is under way. */
  ghost predicate Identified(s: State) { RowsIdentified(s) && OthersIdentified(s) }

  ghost predicate RowsIdentified(s: State) {
    && (forall i :: i in s.rows ==> i < s.nextId && s.rows[i].msg.mid in s.used && s.rows[i].msg.mid !in s.handlers)
    && (forall i, j :: i in s.rows && j in s.rows && s.rows[i].msg.mid == s.rows[j].msg.mid ==> i == j)
  }

  ghost predicate OthersIdentified(s: State) {
    && (forall mid :: mid in s.handlers ==> mid in s.used && s.handlers[mid].msg.mid == mid)
    && (forall mid :: mid in s.sent ==> mid in s.used)
    && s.doomed <= s.used
    && (forall k :: 0 <= k < |s.pass| ==> s.pass[k].mid in s.used && s.pass[k].mid !in s.handlers)
  }

  /** A message handed out waits in no row, except between its hand-out and its mark, and in no
      handler that would store it unpublished. */
  ghost predicate SentMarked(s: State) {
    RowsMarked(s) && HandlersDue(s)
  }

  ghost predicate RowsMarked(s: State) {
    && (s.sending.Some? ==> s.sending.value in s.sent)
    && (forall i :: i in s.rows && !s.rows[i].published && s.rows[i].msg.mid in s.sent ==>
      s.sending == Some(s.rows[i].msg.mid))
  }

  ghost predicate HandlersDue(s: State) {
    forall mid :: mid in s.handlers && mid in s.sent ==> s.handlers[mid].msg.time <= s.clock
  }

  /** The messages handed out and those still to come in the pass are all different. */
  ghost predicate Once(s: State) {
    && Distinct(s.sent)
    && (forall k :: 0 <= k < |s.pass| ==> s.pass[k].mid !in s.sent)
    && (forall k, l :: 0 <= k < l < |s.pass| ==> s.pass[k].mid != s.pass[l].mid)
  }

  /** Only published messages are ever selected for pruning. */
  ghost predicate DoomedPublished(s: State) {
    && (forall i :: i in s.rows && s.rows[i].msg.mid in s.doomed ==> s.rows[i].published)
    && (forall mid :: mid in s.handlers ==> mid !in s.doomed)
  }

  /** Every message of the current pass is still to come, handed out, or skipped for want of a user. */
  ghost predicate PassAccounted(s: State) {
    forall mid :: mid in s.snapshot ==> mid in MidsOf(s.pass) || mid in s.sent || mid in s.skipped
  }

  ghost predicate Inv(s: State) { Identified(s) && SentMarked(s) && Once(s) && DoomedPublished(s) && PassAccounted(s) }

  lemma PassFromRows(s: State)
    requires Identified(s) && SentMarked(s) && Enabled(s, BeginPass)
    ensures var due := Apply(s, BeginPass).pass;
      && (forall k :: 0 <= k < |due| ==> due[k].mid in s.used && due[k].mid !in s.handlers && due[k].mid !in s.sent)
      && (forall k, l :: 0 <= k < l < |due| ==> due[k].mid != due[l].mid)
  {
    var xs := Ordered(s.rows, DueIds(s.rows, s.clock));
    var due := Apply(s, BeginPass).pass;
    forall k | 0 <= k < |due| ensures due[k].mid in s.used && due[k].mid !in s.handlers && due[k].mid !in s.sent {
      assert xs[k] in xs;
    }
    forall k, l | 0 <= k < l < |due| ensures due[k].mid != due[l].mid {
      assert Before(s.rows, xs[k], xs[l]);
    }
  }

  lemma KeepsRowsIdentified(s: State, e: Step)
    requires Identified(s) && Enabled(s, e)
    ensures RowsIdentified(Apply(s, e))
  {}

  lemma KeepsOthersIdentified(s: State, e: Step)
    requires Identified(s) && SentMarked(s) && Enabled(s, e)
    ensures OthersIdentified(Apply(s, e))
  {
    if e.BeginPass? { PassFromRows(s); }
  }

  lemma KeepsRowsMarked(s: State, e: Step)
    requires Identified(s) && SentMarked(s) && Once(s) && Enabled(s, e)
    ensures RowsMarked(Apply(s, e))
  {}

  lemma KeepsHandlersDue(s: State, e: Step)
    requires OthersIdentified(s) && HandlersDue(s) && Enabled(s, e)
    ensures HandlersDue(Apply(s, e))
  {}

  lemma DistinctSnoc(xs: seq<string>, x: string)
    requires Distinct(xs) && x !in xs
    ensures Distinct(xs + [x])
  {}

  lemma HandKeepsOnce(sent: seq<string>, pass: seq<Message>)
    requires pass != [] && Distinct(sent) && forall k :: 0 <= k < |pass| ==> pass[k].mid !in sent
    requires forall k, l :: 0 <= k < l < |pass| ==> pass[k].mid != pass[l].mid
    ensures Distinct(sent + [pass[0].mid])
    ensures forall k :: 0 <= k < |pass[1..]| ==> pass[1..][k].mid !in sent && pass[1..][k].mid !in sent + [pass[0].mid]
    ensures forall k, l :: 0 <= k < l < |pass[1..]| ==> pass[1..][k].mid != pass[1..][l].mid
  {
    assert forall k :: 0 <= k < |pass| - 1 ==> pass[1..][k] == pass[k + 1];
    DistinctSnoc(sent, pass[0].mid);
  }

  lemma KeepsOnce(s: State, e: Step)
    requires Identified(s) && SentMarked(s) && Once(s) && Enabled(s, e)
    ensures Once(Apply(s, e))
  {
    if e.BeginPass? { PassFromRows(s); }
    if e.Receive? { DistinctSnoc(s.sent, e.msg.mid); }
    if e.Hand? { HandKeepsOnce(s.sent, s.pass); }
  }

  lemma KeepsDoomedPublished(s: State, e: Step)
    requires Inv(s) && Enabled(s, e)
    ensures DoomedPublished(Apply(s, e))
  {
    if e.SelectExpired? {
      forall i | i in s.rows && s.rows[i].msg.mid in ExpiredMids(s.rows, s.clock) ensures s.rows[i].published {
        var j :| j in s.rows && s.rows[j].expires <= s.clock && s.rows[j].published
          && s.rows[j].msg.mid == s.rows[i].msg.mid;
      }
    }
  }

  lemma KeepsPassAccounted(s: State, e: Step)
    requires Inv(s) && Enabled(s, e)
    ensures PassAccounted(Apply(s, e))
  {
    if e.Hand? {
      var next := Apply(s, e);
      forall mid | mid in s.snapshot ensures mid in MidsOf(next.pass) || mid in next.sent || mid in next.skipped {
        if mid in MidsOf(s.pass) {
          var k :| 0 <= k < |s.pass| && s.pass[k].mid == mid;
          if k > 0 { assert next.pass[k - 1].mid == mid; } else { assert mid in next.sent + [] || mid in next.skipped; }
        }
      }
    }
  }

  lemma StepKeepsInv(s: State, e: Step)
    requires Inv(s) && Enabled(s, e)
    ensures Inv(Apply(s, e))
  {
    KeepsRowsIdentified(s, e);
    KeepsOthersIdentified(s, e);
    KeepsRowsMarked(s, e);
    KeepsHandlersDue(s, e);
    KeepsOnce(s, e);
    KeepsDoomedPublished(s, e);
    KeepsPassAccounted(s, e);
  }

  lemma {:induction false} RunKeepsInv(s: State, es: seq<Step>)
    requires Inv(s) && Runs(s, es)
    ensures Inv(After(s, es))
    decreases |es|
  {
    if es != [] {
      StepKeepsInv(s, es[0]);
      RunKeepsInv(Apply(s, es[0]), es[1..]);
    }
  }

  /** In no run is a message handed to its subscribers twice. */
  lemma NeverSentTwice(es: seq<Step>)
    requires Runs(INIT, es)
    ensures Distinct(After(INIT, es).sent)
  {
    RunKeepsInv(INIT, es);
  }

  /** The pass holds due messages only, and nothing has been handed out before its time. */
  ghost predicate Timely(s: State) {
    && (forall k :: 0 <= k < |s.pass| ==> s.pass[k].time <= s.clock)
    && |s.log| == |s.sent| && (forall k :: 0 <= k < |s.log| ==> s.log[k].0 <= s.log[k].1 <= s.clock)
  }

  lemma StepKeepsTimely(s: State, e: Step)
    requires Timely(s) && Enabled(s, e)
    ensures Timely(Apply(s, e))
  {
    if e.BeginPass? {
      var xs := Ordered(s.rows, DueIds(s.rows, s.clock));
      forall k | 0 <= k < |xs| ensures s.rows[xs[k]].msg.time <= s.clock { assert xs[k] in xs; }
    }
  }

  lemma {:induction false} RunKeepsTimely(s: State, es: seq<Step>)
    requires Timely(s) && Runs(s, es)
    ensures Timely(After(s, es))
    decreases |es|
  {
    if es != [] {
      StepKeepsTimely(s, es[0]);
      RunKeepsTimely(Apply(s, es[0]), es[1..]);
    }
  }

  /** In no run is a message handed to its subscribers before its time. */
  lemma NeverSentEarly(es: seq<Step>, k: nat)
    requires Runs(INIT, es) && k < |After(INIT, es).log|
    ensures var s := After(INIT, es); |s.log| == |s.sent| && s.log[k].0 <= s.log[k].1
  {
    RunKeepsTimely(INIT, es);
  }

  lemma LogGrows(s: State, e: Step)
    requires Enabled(s, e)
    ensures var next := Apply(s, e);
      if e.Receive? && e.msg.time <= s.clock
      then next.sent == s.sent + [e.msg.mid] && next.log == s.log + [(e.msg.time, s.clock)]
      else if e.Hand? && (s.pass[0].user == "" || e.userExists)
      then next.sent == s.sent + [s.pass[0].mid] && next.log == s.log + [(s.pass[0].time, s.clock)]
      else next.sent == s.sent && next.log == s.log
  {}

  /** No prune, whenever it selected its messages, removes an unpublished row. */
  lemma PruneSparesUnpublished(es: seq<Step>, mids: set<string>)
    requires Runs(INIT, es) && Enabled(After(INIT, es), Prune(mids))
    ensures var s := After(INIT, es);
      forall i :: i in s.rows && !s.rows[i].published ==>
        i in Apply(s, Prune(mids)).rows && Apply(s, Prune(mids)).rows[i] == s.rows[i]
  {
    RunKeepsInv(INIT, es);
  }

  /* ---- scheduled messages reach their pass ---- */

  /** The step deletes row i on request: it is replaced, or its topic is cleared. */
  ghost predicate Cancels(s: State, e: Step, i: nat)
    requires i in s.rows && Enabled(s, e)
  {
    (e.Replace? && IsScheduled(s.rows, i, s.handlers[e.mid].msg.topic, s.handlers[e.mid].msg.sequenceId))
    || (e.DropTopic? && s.rows[i].msg.topic == e.topic)
  }

  ghost predicate NeverCancelled(s: State, es: seq<Step>, i: nat)
    requires Runs(s, es)
    decreases |es|
  {
    es == [] || i !in s.rows || (!Cancels(s, es[0], i) && NeverCancelled(Apply(s, es[0]), es[1..], i))
  }

  /** m waits in row i to be sent. */
  ghost predicate Waits(s: State, i: nat, m: Message) {
    i in s.rows && s.rows[i].msg == m && !s.rows[i].published
  }

  lemma WaitsOrSent(s: State, e: Step, i: nat, m: Message)
    requires Inv(s) && Enabled(s, e) && Waits(s, i, m) && !Cancels(s, e, i)
    ensures Waits(Apply(s, e), i, m) || m.mid in Apply(s, e).sent
  {}

  lemma SentGrows(s: State, e: Step, mid: string)
    requires Enabled(s, e) && mid in s.sent
    ensures mid in Apply(s, e).sent
  {}

  lemma {:induction false} SentStays(s: State, es: seq<Step>, mid: string)
    requires Runs(s, es) && mid in s.sent
    ensures mid in After(s, es).sent
    decreases |es|
  {
    if es != [] {
      SentGrows(s, es[0], mid);
      SentStays(Apply(s, es[0]), es[1..], mid);
    }
  }

  /** A scheduled message that is not cancelled stays scheduled until it is sent; pruning, expiry and
      other messages do not touch it. */
  lemma {:induction false} StaysUntilSent(s: State, es: seq<Step>, i: nat, m: Message)
    requires Inv(s) && Runs(s, es) && Waits(s, i, m) && NeverCancelled(s, es, i)
    ensures Waits(After(s, es), i, m) || m.mid in After(s, es).sent
    decreases |es|
  {
    if es != [] {
      StepKeepsInv(s, es[0]);
      WaitsOrSent(s, es[0], i, m);
      if Waits(Apply(s, es[0]), i, m) {
        StaysUntilSent(Apply(s, es[0]), es[1..], i, m);
      } else {
        SentStays(Apply(s, es[0]), es[1..], m.mid);
      }
    }
  }

  ghost predicate WithinPass(es: seq<Step>) { forall k :: 0 <= k < |es| ==> !es[k].BeginPass? }

  lemma {:induction false} PassRun(s: State, es: seq<Step>)
    requires Runs(s, es) && WithinPass(es)
    ensures After(s, es).snapshot == s.snapshot
    decreases |es|
  {
    if es != [] {
      assert forall k :: 0 <= k < |es| - 1 ==> es[1..][k] == es[k + 1];
      PassRun(Apply(s, es[0]), es[1..]);
    }
  }

  /** Whenever the run comes to hand out the given message, its user exists. */
  ghost predicate UserStays(s: State, es: seq<Step>, mid: string)
    requires Runs(s, es)
    decreases |es|
  {
    es == [] ||
    ((es[0].Hand? && s.pass[0].mid == mid ==> es[0].userExists || s.pass[0].user == "")
      && UserStays(Apply(s, es[0]), es[1..], mid))
  }

  lemma {:induction false} NotSkipped(s: State, es: seq<Step>, mid: string)
    requires Runs(s, es) && UserStays(s, es, mid) && mid !in s.skipped
    ensures mid !in After(s, es).skipped
    decreases |es|
  {
    if es != [] { NotSkipped(Apply(s, es[0]), es[1..], mid); }
  }

  /** A pass that begins at or after the due time of a scheduled message has, when it ends, handed the
      message out, whatever happens meanwhile, unless it was skipped because its own user was gone. */
  lemma FirstPassServes(s: State, es: seq<Step>, i: nat, m: Message)
    requires Inv(s) && Waits(s, i, m) && m.time <= s.clock && Enabled(s, BeginPass)
    requires Runs(Apply(s, BeginPass), es) && WithinPass(es) && After(Apply(s, BeginPass), es).pass == []
    ensures var end := After(Apply(s, BeginPass), es);
      && (m.mid in end.sent || m.mid in end.skipped)
      && (UserStays(Apply(s, BeginPass), es, m.mid) ==> m.mid in end.sent)
  {
    var begin := Apply(s, BeginPass);
    StepKeepsInv(s, BeginPass);
    RunKeepsInv(begin, es);
    PassRun(begin, es);
    DueInSnapshot(s, i, m);
    var end := After(begin, es);
    assert PassAccounted(end) && MidsOf(end.pass) == {};
    if UserStays(begin, es, m.mid) { NotSkipped(begin, es, m.mid); }
  }

  lemma DueInSnapshot(s: State, i: nat, m: Message)
    requires Waits(s, i, m) && m.time <= s.clock && Enabled(s, BeginPass)
    ensures m.mid in Apply(s, BeginPass).snapshot && Apply(s, BeginPass).skipped == {}
  {
    var xs := Ordered(s.rows, DueIds(s.rows, s.clock));
    assert i in xs;
    var k :| 0 <= k < |xs| && xs[k] == i;
    assert Apply(s, BeginPass).pass[k].mid == m.mid;
  }

  /* ---- the sequential calls are among the runs ---- */

  lemma {:induction false} SentFirst(m: Message, ms: seq<Message>, users: set<string>)
    ensures MessageCache.SentMids([m] + ms, users) ==
              (if MessageCache.CanSend(m, users) then [m.mid] else []) + MessageCache.SentMids(ms, users)
  {
    var all := [m] + ms;
    if ms == [] {
      assert all[..0] == [];
    } else {
      assert all[..|all| - 1] == [m] + ms[..|ms| - 1];
      SentFirst(m, ms[..|ms| - 1], users);
    }
  }

  lemma {:induction false} MarkedFirst(rows: Rows, m: Message, ms: seq<Message>, users: set<string>)
    ensures MessageCache.MarkedAll(rows, [m] + ms, users) ==
              MessageCache.MarkedAll(
                if MessageCache.CanSend(m, users) then MarkedPublished(rows, m.mid) else rows, ms, users)
  {
    var all := [m] + ms;
    if ms == [] {
      assert all[..0] == [];
    } else {
      assert all[..|all| - 1] == [m] + ms[..|ms| - 1];
      MarkedFirst(rows, m, ms[..|ms| - 1], users);
    }
  }

  /** Where the loop is after the first message of the pass. */
  function Served(s: State, users: set<string>): State
    requires s.pass != [] && s.sending.None?
  {
    var handed := Apply(s, Hand(s.pass[0].user in users));
    if MessageCache.CanSend(s.pass[0], users) then Apply(handed, Mark) else handed
  }

  lemma ServedFirst(s: State, users: set<string>)
    requires s.pass != [] && s.sending.None?
    ensures var t := Served(s, users);
      && t.pass == s.pass[1..] && t.sending.None?
      && t.sent + MessageCache.SentMids(t.pass, users) == s.sent + MessageCache.SentMids(s.pass, users)
      && MessageCache.MarkedAll(t.rows, t.pass, users) == MessageCache.MarkedAll(s.rows, s.pass, users)
  {
    var m, rest := s.pass[0], s.pass[1..];
    assert s.pass == [m] + rest;
    ServedFields(s, users);
    SentFirst(m, rest, users);
    MarkedFirst(s.rows, m, rest, users);
    SentRest(s.sent, if MessageCache.CanSend(m, users) then [m.mid] else [], MessageCache.SentMids(rest, users));
  }

  lemma ServedFields(s: State, users: set<string>)
    requires s.pass != [] && s.sending.None?
    ensures var t, m := Served(s, users), s.pass[0];
      && t.pass == s.pass[1..] && t.sending.None?
      && t.sent == s.sent + (if MessageCache.CanSend(m, users) then [m.mid] else [])
      && t.rows == if MessageCache.CanSend(m, users) then MarkedPublished(s.rows, m.mid) else s.rows
  {}

  lemma SentRest(x: seq<string>, y: seq<string>, z: seq<string>)
    ensures (x + y) + z == x + (y + z)
  {}

  /** The rest of a pass, without interruption, does what the sender's loop does. */
  lemma {:induction false} SequentialPass(s: State, users: set<string>) returns (es: seq<Step>)
    requires s.sending.None?
    ensures Runs(s, es) && After(s, es).pass == [] && After(s, es).sending.None?
    ensures After(s, es).sent == s.sent + MessageCache.SentMids(s.pass, users)
    ensures After(s, es).rows == MessageCache.MarkedAll(s.rows, s.pass, users)
    decreases |s.pass|
  {
    if s.pass == [] {
      es := [];
    } else {
      ServedFirst(s, users);
      es := SequentialPass(Served(s, users), users);
      es := ServeRun(s, users, es);
    }
  }

  lemma ServeRun(s: State, users: set<string>, rest: seq<Step>) returns (es: seq<Step>)
    requires s.pass != [] && s.sending.None? && Runs(Served(s, users), rest)
    ensures Runs(s, es) && After(s, es) == After(Served(s, users), rest)
  {
    var hand := Hand(s.pass[0].user in users);
    es := rest;
    if MessageCache.CanSend(s.pass[0], users) { es := RunOne(Apply(s, hand), Mark, es); }
    es := RunOne(s, hand, es);
  }

  /** A handler that runs without interruption hands out or defers its message and stores it in place of
      the scheduled ones, as one call does. */
  lemma SequentialHandler(s: State, m: Message) returns (es: seq<Step>)
    requires Enabled(s, Receive(m, true, true))
    ensures Runs(s, es)
    ensures After(s, es).sent == s.sent + (if m.time > s.clock then [] else [m.mid])
    ensures After(s, es).rows == WithoutScheduled(s.rows, m.topic, m.sequenceId)[s.nextId := RowOf(m, s.clock)]
  {
    var s1 := Apply(s, Receive(m, true, true));
    var s2 := Apply(s1, Replace(m.mid));
    es := RunOne(s2, Store(m.mid), []);
    es := RunOne(s1, Replace(m.mid), es);
    es := RunOne(s, Receive(m, true, true), es);
  }

  /* ---- messages stored too late ---- */

  lemma {:induction false} RunsConcat(s: State, x: seq<Step>, y: seq<Step>)
    requires Runs(s, x) && Runs(After(s, x), y)
    ensures Runs(s, x + y) && After(s, x + y) == After(After(s, x), y)
    decreases |x|
  {
    if x == [] {
      assert x + y == y;
    } else {
      assert (x + y)[1..] == x[1..] + y;
      RunsConcat(Apply(s, x[0]), x[1..], y);
    }
  }

  /** The sender can always finish its pass, and needs nothing but its own steps. */
  lemma {:induction false} FinishPass(s: State) returns (es: seq<Step>)
    ensures Runs(s, es) && WithinPass(es) && forall mid :: UserStays(s, es, mid)
    ensures forall k :: 0 <= k < |es| ==> es[k].Hand? || es[k].Mark?
    ensures After(s, es).pass == [] && After(s, es).sending.None? && After(s, es).clock == s.clock
    ensures forall mid :: mid in MidsOf(s.pass) || mid in s.sent ==> mid in After(s, es).sent
    decreases |s.pass|, s.sending.Some?
  {
    if s.sending.Some? {
      es := FinishPass(Apply(s, Mark));
      es := [Mark] + es;
      assert es[1..] == FinishedTail(es);
    } else if s.pass != [] {
      HandsFirst(s);
      es := FinishPass(Apply(s, Hand(true)));
      es := [Hand(true)] + es;
      assert es[1..] == FinishedTail(es);
    } else {
      es := [];
    }
  }

  lemma HandsFirst(s: State)
    requires s.pass != [] && s.sending.None?
    ensures var next := Apply(s, Hand(true));
      forall mid :: mid in MidsOf(s.pass) || mid in s.sent ==> mid in MidsOf(next.pass) || mid in next.sent
  {
    var next := Apply(s, Hand(true));
    forall mid | mid in MidsOf(s.pass) ensures mid in MidsOf(next.pass) || mid in next.sent {
      var k :| 0 <= k < |s.pass| && s.pass[k].mid == mid;
      if k > 0 { assert next.pass[k - 1].mid == mid; }
    }
  }

  function FinishedTail(es: seq<Step>): seq<Step> { if es == [] then [] else es[1..] }

  lemma {:induction false} SenderCancelsNothing(s: State, es: seq<Step>, i: nat)
    requires Runs(s, es) && forall k :: 0 <= k < |es| ==> es[k].Hand? || es[k].Mark?
    ensures NeverCancelled(s, es, i)
    decreases |es|
  {
    if es != [] {
      assert es[0].Hand? || es[0].Mark?;
      assert forall k :: 0 <= k < |es| - 1 ==> es[1..][k] == es[k + 1];
      SenderCancelsNothing(Apply(s, es[0]), es[1..], i);
    }
  }

  /** From any state in which a message waits there is a run that sends it. */
  lemma WaitingCanBeSent(s: State, i: nat, m: Message) returns (es: seq<Step>)
    requires Inv(s) && Waits(s, i, m)
    ensures Runs(s, es) && m.mid in After(s, es).sent
  {
    es := FinishPass(s);
    SenderCancelsNothing(s, es, i);
    StaysUntilSent(s, es, i, m);
    RunKeepsInv(s, es);
    var idle := After(s, es);
    if m.mid !in idle.sent {
      var tick := Tick(if m.time <= idle.clock then idle.clock else m.time);
      var due := Apply(idle, tick);
      StepKeepsInv(idle, tick);
      var begin := Apply(due, BeginPass);
      var rest := FinishPass(begin);
      FirstPassServes(due, rest, i, m);
      assert [tick, BeginPass][1..] == [BeginPass] && [BeginPass][1..] == [];
      assert Runs(due, [BeginPass]) && After(due, [BeginPass]) == begin;
      assert Runs(idle, [tick, BeginPass]) && After(idle, [tick, BeginPass]) == begin;
      RunsConcat(idle, [tick, BeginPass], rest);
      RunsConcat(s, es, [tick, BeginPass] + rest);
      es := es + ([tick, BeginPass] + rest);
    }
  }

  /** A message that was never handed out and that no row, handler or pass will hand out. */
  ghost predicate Lost(s: State, mid: string) {
    && mid in s.used && mid !in s.sent && mid !in s.handlers
    && (forall k :: 0 <= k < |s.pass| ==> s.pass[k].mid != mid)
    && (forall i :: i in s.rows && s.rows[i].msg.mid == mid ==> s.rows[i].published)
  }

  lemma LostStaysLost(s: State, e: Step, mid: string)
    requires Identified(s) && Enabled(s, e) && Lost(s, mid)
    ensures Lost(Apply(s, e), mid)
  {
    if e.BeginPass? {
      var xs := Ordered(s.rows, DueIds(s.rows, s.clock));
      forall k | 0 <= k < |xs| ensures s.rows[xs[k]].msg.mid != mid { assert xs[k] in xs; }
    }
  }

  lemma {:induction false} LostForever(s: State, es: seq<Step>, mid: string)
    requires Inv(s) && Runs(s, es) && Lost(s, mid)
    ensures mid !in After(s, es).sent
    decreases |es|
  {
    if es != [] {
      StepKeepsInv(s, es[0]);
      LostStaysLost(s, es[0], mid);
      LostForever(Apply(s, es[0]), es[1..], mid);
    }
  }

  /** A message that was deferred when it was received can still be sent once it is stored if and only
      if it is stored before its due time; stored at or after it, it counts as published unsent. */
  lemma DeferredSentExactly(s: State, mid: string)
    requires Inv(s) && Enabled(s, Store(mid)) && mid !in s.sent
    ensures (exists es :: Runs(Apply(s, Store(mid)), es) && mid in After(Apply(s, Store(mid)), es).sent)
       <==> s.handlers[mid].msg.time > s.clock
  {
    var stored := Apply(s, Store(mid));
    StepKeepsInv(s, Store(mid));
    if s.handlers[mid].msg.time > s.clock {
      var es := WaitingCanBeSent(stored, s.nextId, s.handlers[mid].msg);
    } else {
      assert Lost(stored, mid);
      forall es | Runs(stored, es) ensures mid !in After(stored, es).sent { LostForever(stored, es, mid); }
    }
  }

  /** Any message that is to be sent later can be stored too late. */
  lemma StoredTooLate(m: Message) returns (es: seq<Step>)
    requires m.time > 0
    ensures Runs(INIT, es) && Enabled(After(INIT, es), Store(m.mid))
    ensures var s := After(INIT, es); s.handlers[m.mid].msg == m && m.mid !in s.sent && m.time <= s.clock
  {
    var s1 := Apply(INIT, Receive(m, true, true));
    var s2 := Apply(s1, Tick(m.time));
    es := RunOne(s2, Replace(m.mid), []);
    es := RunOne(s1, Tick(m.time), es);
    es := RunOne(INIT, Receive(m, true, true), es);
  }

  /* ---- messages cancelled in time ---- */

  lemma CancelledLost(s: State, e: Step, i: nat, m: Message)
    requires Inv(s) && Enabled(s, e) && Waits(s, i, m) && Cancels(s, e, i)
    requires m.mid !in s.sent && m.mid !in MidsOf(s.pass)
    ensures Lost(Apply(s, e), m.mid)
  {}

  /** A scheduled message that is replaced, or whose topic is cleared, can still be sent if and only if the
      pass under way already holds it. */
  lemma CancelledSentExactly(s: State, e: Step, i: nat, m: Message)
    requires Inv(s) && Enabled(s, e) && Waits(s, i, m) && Cancels(s, e, i) && m.mid !in s.sent
    ensures (exists es :: Runs(Apply(s, e), es) && m.mid in After(Apply(s, e), es).sent) <==> m.mid in MidsOf(s.pass)
  {
    var next := Apply(s, e);
    StepKeepsInv(s, e);
    if m.mid in MidsOf(s.pass) {
      var es := FinishPass(next);
      assert next.pass == s.pass && m.mid in After(next, es).sent;
    } else {
      CancelledLost(s, e, i, m);
      forall es | Runs(next, es) ensures m.mid !in After(next, es).sent { LostForever(next, es, m.mid); }
    }
  }

  /* ---- one scheduled message per sequence id ---- */

  /** The handlers under way for a topic and sequence id. */
  function HandlersFor(s: State, topic: string, sequenceId: string): set<string> {
    set mid | mid in s.handlers && s.handlers[mid].msg.topic == topic && s.handlers[mid].msg.sequenceId == sequenceId
  }

  ghost predicate AtMost(n: nat, s: State) {
    forall topic, sequenceId :: |HandlersFor(s, topic, sequenceId)| <= n
  }

  /** In every state of the run, at most n handlers are under way for each topic and sequence id. */
  ghost predicate HandlersUpTo(n: nat, s: State, es: seq<Step>)
    requires Runs(s, es)
    decreases |es|
  {
    AtMost(n, s) && (es == [] || HandlersUpTo(n, Apply(s, es[0]), es[1..]))
  }

  ghost predicate OneScheduled(s: State) {
    forall i, j ::
      (i in s.rows && j in s.rows && !s.rows[i].published
        && IsScheduled(s.rows, j, s.rows[i].msg.topic, s.rows[i].msg.sequenceId)) ==>
      i == j
  }

  predicate SamePlace(s: State, a: string, b: string) {
    a in s.handlers && b in s.handlers
    && s.handlers[a].msg.topic == s.handlers[b].msg.topic
      && s.handlers[a].msg.sequenceId == s.handlers[b].msg.sequenceId
  }

  /** No two handlers for one topic and sequence id. */
  ghost predicate Serial(s: State) {
    forall a, b :: SamePlace(s, a, b) ==> a == b
  }

  lemma AtMostOne(s: State)
    requires AtMost(1, s)
    ensures Serial(s)
  {
    forall a, b | SamePlace(s, a, b) ensures a == b {
      var both := HandlersFor(s, s.handlers[a].msg.topic, s.handlers[a].msg.sequenceId);
      assert both == {a, b} + (both - {a, b});
      assert |both| == |{a, b}| + |both - {a, b}|;
    }
  }

  /** Once a handler has deleted what it replaces, nothing is scheduled in its place. */
  ghost predicate PlacesFree(s: State) {
    forall a, i :: a in s.handlers && !s.handlers[a].replacing && a !in s.sent && i in s.rows ==>
      !IsScheduled(s.rows, i, s.handlers[a].msg.topic, s.handlers[a].msg.sequenceId)
  }

  /** Rows may go or be marked, but none is added. */
  ghost predicate Thins(rows: Rows, next: Rows) {
    forall i :: i in next ==> i in rows && next[i].msg == rows[i].msg && (rows[i].published ==> next[i].published)
  }

  lemma StepThins(s: State, e: Step)
    requires Enabled(s, e) && !e.Store?
    ensures Thins(s.rows, Apply(s, e).rows)
  {}

  lemma SerialRows(s: State, e: Step)
    requires Inv(s) && Enabled(s, e) && OneScheduled(s) && PlacesFree(s)
    ensures OneScheduled(Apply(s, e))
  {
    if !e.Store? { StepThins(s, e); }
  }

  lemma SerialPlaces(s: State, e: Step)
    requires Enabled(s, e) && Serial(s) && PlacesFree(s)
    ensures PlacesFree(Apply(s, e))
  {
    if e.Store? {
      var next := Apply(s, e);
      forall a, i | a in next.handlers && !next.handlers[a].replacing && a !in next.sent && i in next.rows
        ensures !IsScheduled(next.rows, i, next.handlers[a].msg.topic, next.handlers[a].msg.sequenceId)
      {
        assert !SamePlace(s, a, e.mid);
      }
    } else {
      StepThins(s, e);
    }
  }

  lemma {:induction false} SerialRun(s: State, es: seq<Step>)
    requires Inv(s) && Runs(s, es) && HandlersUpTo(1, s, es) && OneScheduled(s) && PlacesFree(s)
    ensures OneScheduled(After(s, es))
    decreases |es|
  {
    if es != [] {
      AtMostOne(s);
      StepKeepsInv(s, es[0]);
      SerialRows(s, es[0]);
      SerialPlaces(s, es[0]);
      SerialRun(Apply(s, es[0]), es[1..]);
    }
  }

  /** With at most one handler at a time for each topic and sequence id, none ever has two scheduled
      messages; handlers for different ones may interleave. */
  lemma OneScheduledPerSequence(es: seq<Step>)
    requires Runs(INIT, es) && HandlersUpTo(1, INIT, es)
    ensures OneScheduled(After(INIT, es))
  {
    SerialRun(INIT, es);
  }

  ghost predicate Legal(n: nat, es: seq<Step>) { Runs(INIT, es) && HandlersUpTo(n, INIT, es) }

  lemma {:induction false} FewerHandlers(m: nat, n: nat, s: State, es: seq<Step>)
    requires m <= n && Runs(s, es) && HandlersUpTo(m, s, es)
    ensures HandlersUpTo(n, s, es)
    decreases |es|
  {
    if es != [] { FewerHandlers(m, n, Apply(s, es[0]), es[1..]); }
  }

  /** One scheduled message per topic and sequence id is kept in all runs with at most n handlers at a time
      for each if and only if n is at most one. */
  lemma OneScheduledExactly(n: nat)
    ensures (forall es :: Legal(n, es) ==> OneScheduled(After(INIT, es))) <==> n <= 1
  {
    if n <= 1 {
      forall es | Legal(n, es) ensures OneScheduled(After(INIT, es)) {
        FewerHandlers(n, 1, INIT, es);
        OneScheduledPerSequence(es);
      }
    } else {
      var a, b := Message("a", "x", "t", 9, 9, "", MessageEvent), Message("b", "x", "t", 9, 9, "", MessageEvent);
      var es := InterleavedHandlersLeaveTwo(a, b);
      FewerHandlers(2, n, INIT, es);
      assert Legal(n, es);
    }
  }

  ghost predicate Only(s: State, a: string, b: string) { s.handlers.Keys <= {a, b} }

  /** Two handlers that interleave their deletions and insertions leave two, whatever is to be scheduled
      under one topic and sequence id. */
  lemma InterleavedHandlersLeaveTwo(a: Message, b: Message) returns (es: seq<Step>)
    requires a.mid != b.mid && a.topic == b.topic && a.sequenceId == b.sequenceId && a.time > 0 && b.time > 0
    ensures Runs(INIT, es) && HandlersUpTo(2, INIT, es) && !OneScheduled(After(INIT, es))
  {
    var s1 := Apply(INIT, Receive(a, true, true));
    var s2 := Apply(s1, Receive(b, true, true));
    var s3 := Apply(s2, Replace(a.mid));
    var s4 := Apply(s3, Replace(b.mid));
    assert s4.handlers == map[a.mid := Handler(a, false), b.mid := Handler(b, false)] && s4.rows == map[]
      && s4.nextId == 1 && s4.clock == 0;
    var s5 := Apply(s4, Store(a.mid));
    var s6 := Apply(s5, Store(b.mid));
    assert s6.rows[1] == RowOf(a, 0) && s6.rows[2] == RowOf(b, 0) && IsScheduled(s6.rows, 2, a.topic, a.sequenceId);
    es := RunTwo(s5, Store(b.mid), [], a.mid, b.mid);
    es := RunTwo(s4, Store(a.mid), es, a.mid, b.mid);
    es := RunTwo(s3, Replace(b.mid), es, a.mid, b.mid);
    es := RunTwo(s2, Replace(a.mid), es, a.mid, b.mid);
    es := RunTwo(s1, Receive(b, true, true), es, a.mid, b.mid);
    es := RunTwo(INIT, Receive(a, true, true), es, a.mid, b.mid);
  }

  lemma AtMostTwo(s: State, a: string, b: string)
    requires Only(s, a, b)
    ensures AtMost(2, s)
  {
    forall topic, sequenceId ensures |HandlersFor(s, topic, sequenceId)| <= 2 {
      var some := HandlersFor(s, topic, sequenceId);
      assert some <= {a, b};
      assert {a, b} == some + ({a, b} - some);
    }
  }

  lemma RunTwo(s: State, e: Step, rest: seq<Step>, a: string, b: string) returns (es: seq<Step>)
    requires Enabled(s, e) && Runs(Apply(s, e), rest) && Only(s, a, b) && Only(Apply(s, e), a, b)
    requires rest != [] ==> HandlersUpTo(2, Apply(s, e), rest)
    ensures es != [] && Runs(s, es) && After(s, es) == After(Apply(s, e), rest) && HandlersUpTo(2, s, es)
  {
    es := [e] + rest;
    assert es[1..] == rest;
    AtMostTwo(s, a, b);
    AtMostTwo(Apply(s, e), a, b);
  }

  lemma RunOne(s: State, e: Step, rest: seq<Step>) returns (es: seq<Step>)
    requires Enabled(s, e) && Runs(Apply(s, e), rest)
    ensures Runs(s, es) && After(s, es) == After(Apply(s, e), rest)
  {
    es := [e] + rest;
    assert es[1..] == rest;
  }
}
