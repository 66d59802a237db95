/** Invites (server/server_invite.go): a look-up, a guarded increment and the rest of the request, for
    any number of clients at once. */
module Invites {
  import opened AccessTable
  import opened ActionSyntax

  /** topics is the comma-separated list as it was given. */
  datatype Invite = Invite(maxUses: int, usedCount: int, expiresAt: int, topics: string)

  type Invites = map<string, Invite>

  datatype Lookup = Usable | NotFound | Expired | MaxUsed

  /** lookupInvite. */
  function LookupInvite(invites: Invites, token: string, now: int): Lookup {
    if token !in invites then NotFound
    else if invites[token].expiresAt > 0 && invites[token].expiresAt < now then Expired
    else if invites[token].usedCount >= invites[token].maxUses then MaxUsed
    else Usable
  }

  /** The guard of the UPDATE. */
  predicate CanUse(invites: Invites, token: string) {
    token in invites && invites[token].usedCount < invites[token].maxUses
  }

  function Used(invites: Invites, token: string): Invites {
    if CanUse(invites, token)
    then invites[token := invites[token].(usedCount := invites[token].usedCount + 1)]
    else invites
  }

  ghost predicate SameBut(token: string, a: Invites, b: Invites) {
    forall t :: t != token ==> (t in a <==> t in b) && (t in a ==> a[t] == b[t])
  }

  class InviteTable {
    var invites: Invites

    constructor ()
      ensures invites == map[]
    {
      invites := map[];
    }

    /** Non-positive limits become 1, a missing expiry becomes seven days. The invite can be looked up right
        away, for at least one use, unless its given expiry is past; a negative one never is. */
    method Create(token: string, topics: string, maxUses: int, expires: int, now: int)
      requires token !in invites
      modifies this
      ensures invites == old(invites)[token := NewInvite(topics, maxUses, expires, now)]
      ensures token in invites && invites[token].usedCount == 0 && invites[token].topics == topics
      ensures invites[token].maxUses == if maxUses <= 0 then 1 else maxUses
      ensures invites[token].expiresAt == if expires == 0 then now + 604800 else expires
      ensures SameBut(token, old(invites), invites)
      ensures CanUse(invites, token)
      ensures LookupInvite(invites, token, now) == if 0 < expires < now then Expired else Usable
    {
      var expiresAt := expires;
      if expiresAt == 0 {
        expiresAt := now + 7 * 24 * 60 * 60;
      }
      var uses := maxUses;
      if uses <= 0 {
        uses := 1;
      }
      invites := invites[token := Invite(uses, 0, expiresAt, topics)];
    }

    /** Increments the use count if the guard holds, as one statement; tells whether a row changed. Exactly
        the invites with uses left can be used, no use exceeds the limit, and no other invite is
        touched. */
    method Use(token: string) returns (changed: bool)
      modifies this
      ensures invites == Used(old(invites), token)
      ensures changed <==> token in old(invites) && old(invites)[token].usedCount < old(invites)[token].maxUses
      ensures changed ==> token in invites
      ensures changed ==>
        invites[token].usedCount == old(invites)[token].usedCount + 1 <= invites[token].maxUses
      ensures !changed ==> invites == old(invites)
      ensures SameBut(token, old(invites), invites)
    {
      changed := false;
      if token in invites {
        var i := invites[token];
        if i.usedCount < i.maxUses {
          invites := invites[token := i.(usedCount := i.usedCount + 1)];
          changed := true;
        }
      }
    }

    method Delete(token: string) returns (found: bool)
      modifies this
      ensures found == (token in old(invites)) && invites == old(invites) - {token}
    {
      found := token in invites;
      invites := invites - {token};
    }
  }

  function NewInvite(topics: string, maxUses: int, expires: int, now: int): Invite {
    Invite(if maxUses <= 0 then 1 else maxUses, 0, if expires == 0 then now + 604800 else expires, topics)
  }

  /* ---- the rest of a request ---- */

  /** strings.Split on a comma. */
  function Split(s: string): (parts: seq<string>)
    ensures parts != []
  {
    if s == "" then [""]
    else if s[0] == ',' then [""] + Split(s[1..])
    else
      var rest := Split(s[1..]);
      [[s[0]] + rest[0]] + rest[1..]
  }

  /** The entries that are not blank. */
  function Entries(parts: seq<string>): seq<string> {
    if parts == [] then []
    else (if TrimSpace(parts[0]) == "" then [] else [TrimSpace(parts[0])]) + Entries(parts[1..])
  }

  function Topics(text: string): seq<string> { Entries(Split(text)) }

  /** Names joined by commas, as a client gives them. */
  function Joined(names: seq<string>): string
    requires names != []
  {
    if |names| == 1 then names[0] else names[0] + ("," + Joined(names[1..]))
  }

  lemma {:induction false} SplitName(name: string, rest: string)
    requires ',' !in name
    ensures Split(name + ("," + rest)) == [name] + Split(rest)
    ensures Split(name) == [name]
  {
    if name == "" {
      assert (name + ("," + rest))[1..] == rest;
    } else {
      assert (name + ("," + rest))[1..] == name[1..] + ("," + rest);
      assert [name[0]] + name[1..] == name;
      SplitName(name[1..], rest);
    }
  }

  lemma {:induction false} SplitJoined(names: seq<string>)
    requires names != [] && forall i :: 0 <= i < |names| ==> ',' !in names[i]
    ensures Split(Joined(names)) == names
  {
    SplitName(names[0], if |names| == 1 then "" else Joined(names[1..]));
    if |names| > 1 { SplitJoined(names[1..]); }
  }

  lemma {:induction false} EntriesAre(parts: seq<string>, names: seq<string>)
    requires |parts| == |names|
    requires forall i :: 0 <= i < |names| ==> TrimSpace(parts[i]) == names[i] && names[i] != ""
    ensures Entries(parts) == names
  {
    if parts != [] { EntriesAre(parts[1..], names[1..]); }
  }

  /** Topics joined by commas, with or without white space around them, are the topics that are granted, in that
      order. */
  lemma TopicsReadBack(parts: seq<string>, names: seq<string>)
    requires parts != [] && |parts| == |names| && forall i :: 0 <= i < |parts| ==> ',' !in parts[i]
    requires forall i :: 0 <= i < |names| ==> TrimSpace(parts[i]) == names[i] && names[i] != ""
    ensures Topics(Joined(parts)) == names
  {
    SplitJoined(parts);
    EntriesAre(parts, names);
  }

  predicate AllPatterns(topics: seq<string>) { forall k :: 0 <= k < |topics| ==> AllowedTopicPattern(topics[k]) }

  /** What a client asks for: an account under a new name, or the topics for its own. A password may be
      missing, or one that cannot be hashed. */
  datatype Request = Redeem(name: string, hasPassword: bool, hashable: bool) | Join(name: string)

  /** AllowAccess goes through for every topic of the invite. */
  predicate Grantable(users: set<string>, name: string, text: string) {
    Topics(text) == [] || (name in users && AllPatterns(Topics(text)))
  }

  /* ---- many clients ---- */

  /** Where a request stands; Refused before its increment, Failed after it. */
  datatype Phase = LookedUp | Counted | Registered | Succeeded | Failed | Refused

  /** topics is what the look-up returned. */
  datatype Client = Client(token: string, request: Request, topics: string, phase: Phase)

  /** limits remembers every invite ever created. */
  datatype State = State(invites: Invites, limits: map<string, int>, users: set<string>, clients: map<nat, Client>)

  const INIT := State(map[], map[], {}, map[])

  datatype Step =
    | Create(token: string, topics: string, maxUses: int, expires: int, now: int)
    | Delete(token: string)
    | AddUser(name: string)
    | RemoveUser(name: string)
    | LookUp(client: nat, token: string, request: Request, now: int)
    | Increment(client: nat)
    | Register(client: nat)
    | Grant(client: nat)

  predicate Enabled(s: State, e: Step) {
    match e
    case Create(token, _, _, _, _) => token !in s.limits
    case Delete(_) => true
    case AddUser(_) => true
    case RemoveUser(_) => true
    case LookUp(c, _, _, _) => c !in s.clients
    case Increment(c) => c in s.clients && s.clients[c].phase == LookedUp
    case Register(c) => c in s.clients && s.clients[c].phase == Counted
    case Grant(c) => c in s.clients && s.clients[c].phase == Registered
  }

  function Apply(s: State, e: Step): State
    requires Enabled(s, e)
  {
    match e
    case Create(token, topics, maxUses, expires, now) =>
      var i := NewInvite(topics, maxUses, expires, now);
      s.(invites := s.invites[token := i], limits := s.limits[token := i.maxUses])
    case Delete(token) => s.(invites := s.invites - {token})
    case AddUser(name) => s.(users := s.users + {name})
    case RemoveUser(name) => s.(users := s.users - {name})
    case LookUp(c, token, request, now) =>
      if LookupInvite(s.invites, token, now) == Usable && WellFormed(request)
      then s.(clients := s.clients[c := Client(token, request, s.invites[token].topics, LookedUp)])
      else s.(clients := s.clients[c := Client(token, request, "", Refused)])
    case Increment(c) =>
      s.(invites := Used(s.invites, s.clients[c].token),
         clients := s.clients[c := s.clients[c].(
           phase := if CanUse(s.invites, s.clients[c].token) then Counted else Refused)])
    case Register(c) =>
      var request := s.clients[c].request;
      if CanRegister(s.users, request)
      then s.(users := UsersWith(s.users, request), clients := s.clients[c := s.clients[c].(phase := Registered)])
      else s.(clients := s.clients[c := s.clients[c].(phase := Failed)])
    case Grant(c) =>
      var granted := Grantable(s.users, s.clients[c].request.name, s.clients[c].topics);
      s.(clients := s.clients[c := s.clients[c].(phase := if granted then Succeeded else Failed)])
  }

  /** A look-up lets a request pass exactly if it is well formed and the invite is there, has not expired and has
      uses left; otherwise the request is refused. It changes nothing but where the request stands. */
  lemma LookUpExactly(s: State, c: nat, token: string, request: Request, now: int)
    requires c !in s.clients
    ensures var end := Apply(s, LookUp(c, token, request, now));
      && end == s.(clients := end.clients) && end.clients.Keys == s.clients.Keys + {c} && end.clients - {c} == s.clients
      && end.clients[c].token == token && end.clients[c].request == request
      && end.clients[c].phase == (
        if token in s.invites && (s.invites[token].expiresAt <= 0 || now <= s.invites[token].expiresAt)
           && s.invites[token].usedCount < s.invites[token].maxUses
           && (request.Redeem? ==> AllowedUsername(request.name) && request.hasPassword)
        then LookedUp else Refused)
      && (end.clients[c].phase == LookedUp ==> end.clients[c].topics == s.invites[token].topics)
  {}

  /** The account can be created, if one is to be. */
  predicate CanRegister(users: set<string>, request: Request) {
    request.Redeem? ==> request.name !in users && request.hashable
  }

  function UsersWith(users: set<string>, request: Request): set<string> {
    if request.Redeem? then users + {request.name} else users
  }

  predicate WellFormed(request: Request) {
    request.Redeem? ==> AllowedUsername(request.name) && request.hasPassword
  }

  ghost predicate Runs(s: State, es: seq<Step>)
    decreases |es|
  {
    es == [] || (Enabled(s, es[0]) && Runs(Apply(s, es[0]), es[1..]))
  }

  ghost function After(s: State, es: seq<Step>): State
    requires Runs(s, es)
    decreases |es|
  {
    if es == [] then s else After(Apply(s, es[0]), es[1..])
  }

  predicate PastIncrement(c: Client, token: string) {
    c.token == token && (c.phase == Counted || c.phase == Registered || c.phase == Succeeded || c.phase == Failed)
  }

  /** The clients that have used the invite up by one. */
  function Users(s: State, token: string): set<nat> {
    set c | c in s.clients && PastIncrement(s.clients[c], token)
  }

  /** The clients whose request succeeded. */
  function Successes(s: State, token: string): set<nat> {
    set c | c in s.clients && s.clients[c].token == token && s.clients[c].phase == Succeeded
  }

  /** The limits are remembered, and requests are for invites that existed. */
  ghost predicate Limited(s: State) {
    && (forall token :: token in s.invites ==> token in s.limits && s.limits[token] == s.invites[token].maxUses)
    && (forall c :: c in s.clients && s.clients[c].phase != Refused ==> s.clients[c].token in s.limits)
  }

  /** The use count is the number of requests past their increment, and within the limit. */
  ghost predicate CountedRight(s: State, token: string) {
    && (token in s.invites ==> s.invites[token].usedCount == |Users(s, token)|)
    && (token in s.limits ==> |Users(s, token)| <= s.limits[token])
  }

  ghost predicate Inv(s: State) { Limited(s) && forall token :: CountedRight(s, token) }

  lemma UsersAfter(s: State, e: Step, token: string)
    requires Enabled(s, e)
    ensures Users(Apply(s, e), token) ==
      if e.Increment? && s.clients[e.client].token == token && CanUse(s.invites, token)
      then Users(s, token) + {e.client}
      else Users(s, token)
  {}

  lemma KeepsLimited(s: State, e: Step)
    requires Limited(s) && Enabled(s, e)
    ensures Limited(Apply(s, e))
  {}

  /** One step raises the use count of an existing invite by at most one, and only by a request that was
      allowed to. */
  lemma UseCountAfter(s: State, e: Step, token: string)
    requires Enabled(s, e) && token in s.invites && token in s.limits && token in Apply(s, e).invites
    ensures var more := if e.Increment? && s.clients[e.client].token == token && CanUse(s.invites, token) then 1 else 0;
      && Apply(s, e).invites[token].usedCount == s.invites[token].usedCount + more
      && Apply(s, e).invites[token].maxUses == s.invites[token].maxUses
  {}

  lemma NobodyYet(s: State, token: string)
    requires Limited(s) && token !in s.limits
    ensures Users(s, token) == {}
  {}

  /** An invite that is there was there before, unless it is created in this step. */
  lemma InvitesAfter(s: State, e: Step, token: string)
    requires Limited(s) && Enabled(s, e)
    ensures token in Apply(s, e).invites ==> token in s.invites || (e.Create? && e.token == token)
    ensures token in Apply(s, e).limits <==> token in s.limits || (e.Create? && e.token == token)
    ensures token in s.limits ==> Apply(s, e).limits[token] == s.limits[token]
    ensures e.Create? && e.token == token ==>
      token !in s.limits && token in Apply(s, e).invites && Apply(s, e).invites[token].usedCount == 0
        && Apply(s, e).limits[token] >= 1
  {}

  lemma KeepsCount(s: State, e: Step, token: string)
    requires Limited(s) && CountedRight(s, token) && Enabled(s, e)
    ensures CountedRight(Apply(s, e), token)
  {
    UsersAfter(s, e, token);
    InvitesAfter(s, e, token);
    if token !in s.limits { NobodyYet(s, token); }
    if token in s.invites && token in Apply(s, e).invites { UseCountAfter(s, e, token); }
    if e.Increment? && s.clients[e.client].token == token { assert e.client !in Users(s, token); }
  }

  lemma StepKeepsInv(s: State, e: Step)
    requires Inv(s) && Enabled(s, e)
    ensures Inv(Apply(s, e))
  {
    KeepsLimited(s, e);
    forall token ensures CountedRight(Apply(s, e), token) { KeepsCount(s, e, token); }
  }

  lemma {:induction false} RunKeepsInv(s: State, es: seq<Step>)
    requires Inv(s) && Runs(s, es)
    ensures Inv(After(s, es))
    decreases |es|
  {
    if es != [] {
      StepKeepsInv(s, es[0]);
      RunKeepsInv(Apply(s, es[0]), es[1..]);
    }
  }

  lemma SubsetSize(a: set<nat>, b: set<nat>)
    requires a <= b
    ensures |a| <= |b|
  {
    assert b == a + (b - a);
  }

  /** In every interleaving the use count is the number of requests past their increment and within
      the limit; so at most that many redeem and join requests succeed, and never more than the
      limit, not even after the invite is deleted. */
  lemma SuccessesWithinLimit(es: seq<Step>, token: string)
    requires Runs(INIT, es) && token in After(INIT, es).limits
    ensures var s := After(INIT, es);
      && |Successes(s, token)| <= |Users(s, token)| <= s.limits[token]
      && (token in s.invites ==>
        s.invites[token].usedCount == |Users(s, token)| && s.invites[token].maxUses == s.limits[token])
  {
    RunKeepsInv(INIT, es);
    assert CountedRight(After(INIT, es), token);
    SubsetSize(Successes(After(INIT, es), token), Users(After(INIT, es), token));
  }

  /** While the invite exists its use count never decreases, whatever happens. */
  lemma {:induction false} UseCountGrows(s: State, es: seq<Step>, token: string)
    requires Inv(s) && Runs(s, es) && token in s.invites && token in After(s, es).invites
    ensures s.invites[token].usedCount <= After(s, es).invites[token].usedCount
    decreases |es|
  {
    if es != [] {
      var next := Apply(s, es[0]);
      StepKeepsInv(s, es[0]);
      if token !in next.invites { GoneStaysGone(next, es[1..], token); }
      UseCountAfter(s, es[0], token);
      UseCountGrows(next, es[1..], token);
    }
  }

  lemma {:induction false} GoneStaysGone(s: State, es: seq<Step>, token: string)
    requires Runs(s, es) && token in s.limits && token !in s.invites
    ensures token !in After(s, es).invites
    decreases |es|
  {
    if es != [] { GoneStaysGone(Apply(s, es[0]), es[1..], token); }
  }

  /* ---- requests that fail behind their increment ---- */

  /** The clients that have used the invite up by one without having succeeded so far. */
  function Unsuccessful(s: State, token: string): set<nat> {
    set c | c in s.clients && PastIncrement(s.clients[c], token) && s.clients[c].phase != Succeeded
  }

  /** A request that fails behind its increment has used the invite up all the same: in every run the use
      count is the number of successes if and only if no request has failed, or is under way, behind its
      increment. */
  lemma FailuresUseUp(es: seq<Step>, token: string)
    requires Runs(INIT, es) && token in After(INIT, es).invites
    ensures var s := After(INIT, es);
      && s.invites[token].usedCount == |Successes(s, token)| + |Unsuccessful(s, token)|
      && (s.invites[token].usedCount == |Successes(s, token)| <==> Unsuccessful(s, token) == {})
  {
    RunKeepsInv(INIT, es);
    var s := After(INIT, es);
    assert CountedRight(s, token);
    assert Users(s, token) == Successes(s, token) + Unsuccessful(s, token);
  }

  /** What has to hold for a counted request to succeed: a redeemed name is free and its password can be
      hashed; a joining user exists if there is anything to grant; all topics are valid patterns. */
  predicate Serves(s: State, c: Client) {
    match c.request
    case Redeem(name, _, hashable) => name !in s.users && hashable && AllPatterns(Topics(c.topics))
    case Join(name) => Topics(c.topics) == [] || (name in s.users && AllPatterns(Topics(c.topics)))
  }

  /** The rest of a counted request, without interruption. */
  function Finished(s: State, c: nat): State
    requires Enabled(s, Register(c))
  {
    var registered := Apply(s, Register(c));
    if registered.clients[c].phase == Registered then Apply(registered, Grant(c)) else registered
  }

  lemma ServesMeans(s: State, c: Client)
    ensures Serves(s, c)
      <==> CanRegister(s.users, c.request) && Grantable(UsersWith(s.users, c.request), c.request.name, c.topics)
  {}

  /** Carried through, the request succeeds exactly if that holds; nothing else happens to any request or
      invite. */
  lemma FinishedPhase(s: State, c: nat)
    requires Enabled(s, Register(c))
    ensures var end := Finished(s, c);
      && end.clients == s.clients[c := s.clients[c].(phase := if Serves(s, s.clients[c]) then Succeeded else Failed)]
      && end.invites == s.invites
  {
    var client := s.clients[c];
    var registered := Apply(s, Register(c));
    ServesMeans(s, client);
    if CanRegister(s.users, client.request) {
      assert registered.users == UsersWith(s.users, client.request)
        && registered.clients[c] == client.(phase := Registered);
      var granted := Grantable(registered.users, client.request.name, client.topics);
      assert Apply(registered, Grant(c)).clients
        == registered.clients[c := client.(phase := if granted then Succeeded else Failed)];
    }
  }

  /** A counted request that is carried through succeeds if and only if that holds, and otherwise has used
      the invite up for nothing. */
  lemma FailsExactly(s: State, c: nat)
    requires Enabled(s, Register(c))
    ensures var token, end := s.clients[c].token, Finished(s, c);
      && (Serves(s, s.clients[c]) ==> Successes(end, token) == Successes(s, token) + {c})
      && (!Serves(s, s.clients[c]) ==> Successes(end, token) == Successes(s, token) && c in Unsuccessful(end, token))
      && Users(end, token) == Users(s, token)
      && end.invites == s.invites
  {
    FinishedPhase(s, c);
  }

  /** One client has been counted, for a new invite with one use and in the presence of one user. */
  function Once(token: string, topics: string, request: Request): State {
    State(map[token := Invite(1, 1, 9, topics)], map[token := 1], {request.name},
      map[0 := Client(token, request, topics, Counted)])
  }

  lemma BeforeFinish(token: string, topics: string, request: Request, tail: seq<Step>) returns (es: seq<Step>)
    requires WellFormed(request) && Runs(Once(token, topics, request), tail)
    ensures Runs(INIT, es) && After(INIT, es) == After(Once(token, topics, request), tail)
  {
    var i := Invite(1, 0, 9, topics);
    var s1 := Apply(INIT, AddUser(request.name));
    assert s1 == State(map[], map[], {request.name}, map[]);
    var s2 := Apply(s1, Create(token, topics, 1, 9, 1));
    assert s2 == State(map[token := i], map[token := 1], {request.name}, map[]);
    var s3 := Apply(s2, LookUp(0, token, request, 1));
    assert s3 == State(map[token := i], map[token := 1], {request.name},
      map[0 := Client(token, request, topics, LookedUp)]);
    var s4 := Apply(s3, Increment(0));
    assert s4 == Once(token, topics, request);
    es := RunOne(s3, Increment(0), tail);
    es := RunOne(s2, LookUp(0, token, request, 1), es);
    es := RunOne(s1, Create(token, topics, 1, 9, 1), es);
    es := RunOne(INIT, AddUser(request.name), es);
  }

  predicate JoinServed(request: Request, topics: string) {
    request.Join? && (Topics(topics) == [] || AllPatterns(Topics(topics)))
  }

  lemma ServesOnce(token: string, topics: string, request: Request)
    ensures Serves(Once(token, topics, request), Client(token, request, topics, Counted))
      <==> JoinServed(request, topics)
  {}

  /** Runs in which that happens: whoever redeems an invite under a name that is taken, or joins with one
      that names an invalid topic, uses it up without a success. */
  lemma WastedUse(token: string, topics: string, request: Request) returns (es: seq<Step>)
    requires WellFormed(request)
    ensures Runs(INIT, es) && token in After(INIT, es).invites
    ensures After(INIT, es).invites[token].usedCount == 1
    ensures Successes(After(INIT, es), token) == if JoinServed(request, topics) then {0} else {}
  {
    var s := Once(token, topics, request);
    assert Enabled(s, Register(0)) && Successes(s, token) == {};
    ServesOnce(token, topics, request);
    FailsExactly(s, 0);
    es := FinishRun(s, 0);
    es := BeforeFinish(token, topics, request, es);
  }

  lemma FinishRun(s: State, c: nat) returns (es: seq<Step>)
    requires Enabled(s, Register(c))
    ensures Runs(s, es) && After(s, es) == Finished(s, c)
  {
    var registered := Apply(s, Register(c));
    es := [];
    if registered.clients[c].phase == Registered { es := RunOne(registered, Grant(c), []); }
    es := RunOne(s, Register(c), es);
  }

  lemma RunOne(s: State, e: Step, rest: seq<Step>) returns (es: seq<Step>)
    requires Enabled(s, e) && Runs(Apply(s, e), rest)
    ensures Runs(s, es) && After(s, es) == After(Apply(s, e), rest)
  {
    es := [e] + rest;
    assert es[1..] == rest;
  }
}
