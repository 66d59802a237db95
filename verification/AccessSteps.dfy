/** Users, tiers and access rows together: every operation on them of the user manager and of the reservation
    handlers as a step on one state, and what any sequence of steps keeps (user/manager.go,
    server/server_account.go). */
module AccessSteps {
  import opened Text
  import opened Wildcards
  import opened Ordering
  import opened AccessTable

  datatype Role = AdminRole | UserRole | AnonymousRole
  /** hash is the hashed password. */
  datatype User = User(role: Role, provisioned: bool, tier: Option<string>, hash: string)

  /** tiers gives the reservation limit of each tier code. */
  datatype State = State(users: map<string, User>, tiers: map<string, int>, access: Table)

  datatype Error =
    | InvalidArgument | UserNotFound | UserExists | TierNotFound | ProvisionedUserChange
    | TooManyReservations | ConstraintFailed
    | PasswordRefused | TopicInvalid | Unauthorized | TopicReserved | LimitReservations
  datatype Outcome = Done | Failed(error: Error)

  /** A password comes as its hash, None if it cannot be hashed or is given as an invalid hash. */
  datatype Op =
    | AddUser(user: string, role: Role, hash: Option<string>)
    | ChangePassword(user: string, hash: Option<string>)
    | RemoveUser(user: string)
    | ChangeRole(user: string, role: Role)
    | AllowAccess(user: string, pattern: string, perm: Permission)
    | ResetAccess(user: string, pattern: string)
    | AddReservation(user: string, topic: string, everyone: Permission)
    | DeleteReservation(user: string, topic: string)
    | TrimReservations(user: string, limit: nat)
    | ChangeTier(user: string, tier: string)
    | ResetTier(user: string)
    | AddTier(code: string, reservations: int)
    | UpdateTier(code: string, reservations: int)
    | RemoveTier(code: string)

  /** The checks of an operation, in order; None when it goes through. */
  function Refusal(st: State, op: Op): Option<Error> {
    match op
    case AddUser(u, role, hash) =>
      if !AllowedUsername(u) || role == AnonymousRole then Some(InvalidArgument)
      else if hash.None? then Some(PasswordRefused)
      else if u in st.users then Some(UserExists) else None
    case ChangePassword(u, hash) =>
      if u !in st.users then Some(UserNotFound)
      else if st.users[u].provisioned then Some(ProvisionedUserChange)
      else if hash.None? then Some(PasswordRefused) else None
    case RemoveUser(u) =>
      if u !in st.users then Some(UserNotFound)
      else if st.users[u].provisioned then Some(ProvisionedUserChange)
      else if !AllowedUsername(u) then Some(InvalidArgument) else None
    case ChangeRole(u, role) =>
      if u !in st.users then Some(UserNotFound)
      else if st.users[u].provisioned then Some(ProvisionedUserChange)
      else if !AllowedUsername(u) || role == AnonymousRole then Some(InvalidArgument) else None
    case AllowAccess(u, p, perm) =>
      if (!AllowedUsername(u) && u != EVERYONE) || !AllowedTopicPattern(p) then Some(InvalidArgument)
      else if u !in st.users then Some(ConstraintFailed) else None
    case ResetAccess(u, p) =>
      if (!AllowedUsername(u) && u != EVERYONE && u != "") || (!AllowedTopicPattern(p) && p != "")
      then Some(InvalidArgument) else None
    case AddReservation(u, t, everyone) =>
      var s := EscapeUnderscore(t);
      if u !in st.users then Some(Unauthorized)
      else if !AllowedTopic(t) then Some(TopicInvalid)
      else if st.users[u].role == UserRole && st.users[u].tier.None? then Some(Unauthorized)
      else if (!AllowedUsername(u) && u != EVERYONE) || !Free(st.access, u, s) then Some(TopicReserved)
      else if st.users[u].role == UserRole && s !in Reserved(st.access, u)
           && |Reserved(st.access, u)| >= Limit(st, st.users[u].tier) then Some(LimitReservations)
      else if u == EVERYONE then Some(InvalidArgument) else None
    case DeleteReservation(u, t) =>
      if !AllowedTopic(t) then Some(TopicInvalid)
      else if EscapeUnderscore(t) !in Reserved(st.access, u) then Some(Unauthorized)
      else if !AllowedUsername(u) || u == EVERYONE then Some(InvalidArgument) else None
    case TrimReservations(u, limit) =>
      if |Reserved(st.access, u)| > limit && (!AllowedUsername(u) || u == EVERYONE) then Some(InvalidArgument) else None
    case ChangeTier(u, code) =>
      if !AllowedUsername(u) then Some(InvalidArgument)
      else if code !in st.tiers then Some(TierNotFound)
      else if u !in st.users then Some(UserNotFound)
      else if ExceedsLowered(st, u, st.tiers[code]) then Some(TooManyReservations) else None
    case ResetTier(u) =>
      if !AllowedUsername(u) && u != EVERYONE && u != "" then Some(InvalidArgument)
      else if u !in st.users then Some(UserNotFound)
      else if ExceedsLowered(st, u, 0) then Some(TooManyReservations) else None
    case AddTier(code, limit) => if code in st.tiers then Some(ConstraintFailed) else None
    case UpdateTier(code, limit) => None
    case RemoveTier(code) =>
      if !AllowedTier(code) then Some(InvalidArgument)
      else if exists u :: u in st.users && st.users[u].tier == Some(code) then Some(ConstraintFailed) else None
  }

  /** The same characters and length as for topics. */
  predicate AllowedTier(code: string) { AllowedTopic(code) }

  /** The user table after an operation that goes through. */
  function UsersAfter(st: State, op: Op): map<string, User>
    requires Refusal(st, op).None?
  {
    match op
    case AddUser(u, role, hash) => st.users[u := User(role, false, None, hash.value)]
    case ChangePassword(u, hash) => st.users[u := st.users[u].(hash := hash.value)]
    case RemoveUser(u) => st.users - {u}
    case ChangeRole(u, role) => st.users[u := st.users[u].(role := role)]
    case ChangeTier(u, code) => st.users[u := st.users[u].(tier := Some(code))]
    case ResetTier(u) => st.users[u := st.users[u].(tier := None)]
    case _ => st.users
  }

  /** The tiers after an operation that goes through; updating an unknown one changes nothing. */
  function TiersAfter(st: State, op: Op): map<string, int> {
    match op
    case AddTier(code, limit) => st.tiers[code := limit]
    case UpdateTier(code, limit) => if code in st.tiers then st.tiers[code := limit] else st.tiers
    case RemoveTier(code) => st.tiers - {code}
    case _ => st.tiers
  }

  /** The access table after an operation that goes through. */
  function AccessAfter(st: State, op: Op): Table
    requires Refusal(st, op).None?
  {
    match op
    case RemoveUser(u) => DropUser(st.access, u)
    case ChangeRole(u, role) => if role == AdminRole then DropUser(st.access, u) else st.access
    case AllowAccess(u, p, perm) => st.access[(u, ToSqlWildcard(p)) := Row(perm, None, false)]
    case ResetAccess(u, p) =>
      if u == "" && p == "" then map[]
      else if p == "" then DropUser(st.access, u)
      else DropTopic(st.access, u, ToSqlWildcard(p))
    case AddReservation(u, t, everyone) => Reserve(st.access, u, EscapeUnderscore(t), everyone)
    case DeleteReservation(u, t) => Released(st.access, u, {EscapeUnderscore(t)})
    case TrimReservations(u, limit) => Released(st.access, u, Excess(st.access, u, limit))
    case _ => st.access
  }

  function Step(st: State, op: Op): (State, Outcome) {
    match Refusal(st, op)
    case Some(e) => (st, Failed(e))
    case None => (State(UsersAfter(st, op), TiersAfter(st, op), AccessAfter(st, op)), Done)
  }

  function Limit(st: State, tier: Option<string>): int {
    if tier.Some? && tier.value in st.tiers then st.tiers[tier.value] else 0
  }

  /** checkReservationsLimit: only a limit below the current tier's is checked. */
  predicate ExceedsLowered(st: State, u: string, limit: int)
    requires u in st.users
  {
    st.users[u].tier.Some? && limit < Limit(st, st.users[u].tier) && |Reserved(st.access, u)| > limit
  }

  /** RemoveReservations for a set of stored topics. */
  function Released(t: Table, u: string, topics: set<string>): Table {
    map k | k in t && !(k.1 in topics && InReservation(t, u, k)) :: t[k]
  }

  predicate InReservation(t: Table, u: string, k: Key)
    requires k in t
  {
    k.0 == u || k.0 == EVERYONE || t[k].owner == Some(u) || t[k].owner == Some(EVERYONE)
  }

  lemma ReleasedOneMore(t: Table, u: string, topics: set<string>, s: string)
    ensures Release(Released(t, u, topics), u, s) == Released(t, u, topics + {s})
  {}

  /** The reserved topics past the first limit ones, in topic order. */
  function Excess(t: Table, u: string, limit: nat): set<string> {
    var xs := Sort(Reserved(t, u));
    set i | limit <= i < |xs| :: xs[i]
  }

  function Run(st: State, ops: seq<Op>): State
    decreases |ops|
  {
    if ops == [] then st else Run(Step(st, ops[0]).0, ops[1..])
  }

  /* ---- what every run keeps ---- */

  /** Every row, and every owner of a row, belongs to a user. */
  ghost predicate References(t: Table, users: set<string>) {
    (forall k :: k in t ==> k.0 in users) &&
    (forall k :: k in t && t[k].owner.Some? ==> t[k].owner.value in users)
  }

  /** Every user's tier exists. */
  ghost predicate TiersKnown(st: State) {
    forall u :: u in st.users ==> st.users[u].tier.None? || st.users[u].tier.value in st.tiers
  }

  /** Keys and references of the tables, and ownership. */
  ghost predicate Valid(st: State) {
    && EVERYONE in st.users && st.users[EVERYONE].role == AnonymousRole
    && (forall u :: u in st.users ==> u == EVERYONE || (AllowedUsername(u) && st.users[u].role != AnonymousRole))
    && TiersKnown(st)
    && References(st.access, st.users.Keys)
    && StoredPatterns(st.access)
    && Owned(st.access)
  }

  ghost predicate Shrinks(t: Table, r: Table) {
    forall k :: k in r ==> k in t && r[k] == t[k]
  }

  /** Only grants and reservations add rows. */
  lemma AccessShape(st: State, op: Op)
    requires Refusal(st, op).None?
    ensures op.AllowAccess? || op.AddReservation? || Shrinks(st.access, AccessAfter(st, op))
  {}

  lemma OwnedShrinks(t: Table, r: Table)
    requires Owned(t) && Shrinks(t, r)
    ensures Owned(r)
  {}

  lemma OwnedGrant(t: Table, k: Key, row: Row)
    requires Owned(t) && row.owner.None?
    ensures Owned(t[k := row])
  {
    var r := t[k := row];
    forall i, j | i in r && j in r && i.1 == j.1 && r[i].owner.Some? && r[j].owner.Some?
      ensures r[i].owner == r[j].owner
    {
      assert i in t && j in t;
    }
  }

  /** A grant stores exactly its permission, for exactly its user and pattern, as the system's; nothing else
      changes. */
  lemma GrantStores(st: State, u: string, p: string, perm: Permission)
    ensures Step(st, AllowAccess(u, p, perm)) ==
      if (!AllowedUsername(u) && u != EVERYONE) || !AllowedTopicPattern(p) then (st, Failed(InvalidArgument))
      else if u !in st.users then (st, Failed(ConstraintFailed))
      else (st.(access := st.access[(u, ToSqlWildcard(p)) := Row(perm, None, false)]), Done)
  {}

  lemma StepKeepsOwned(st: State, op: Op)
    requires Owned(st.access) && Refusal(st, op).None?
    ensures Owned(AccessAfter(st, op))
  {
    match op
    case AllowAccess(u, p, perm) => OwnedGrant(st.access, (u, ToSqlWildcard(p)), Row(perm, None, false));
    case AddReservation(u, t, everyone) =>
      StoredTopic(t);
      ReserveKeepsOwned(st.access, u, EscapeUnderscore(t), everyone);
    case _ =>
      AccessShape(st, op);
      OwnedShrinks(st.access, AccessAfter(st, op));
  }

  lemma StepKeepsPatterns(st: State, op: Op)
    requires StoredPatterns(st.access) && Refusal(st, op).None?
    ensures StoredPatterns(AccessAfter(st, op))
  {
    match op
    case AllowAccess(u, p, perm) => StoredPattern(p);
    case AddReservation(u, t, everyone) => StoredTopic(t);
    case _ => AccessShape(st, op);
  }

  lemma StepKeepsReferences(st: State, op: Op)
    requires EVERYONE in st.users && References(st.access, st.users.Keys) && Refusal(st, op).None?
    ensures References(AccessAfter(st, op), UsersAfter(st, op).Keys)
  {
    EveryoneNotAllowed();
  }

  lemma StepKeepsTiers(st: State, op: Op)
    requires TiersKnown(st) && Refusal(st, op).None?
    ensures TiersKnown(Step(st, op).0)
  {}

  lemma StepKeepsValid(st: State, op: Op)
    requires Valid(st)
    ensures Valid(Step(st, op).0)
  {
    EveryoneNotAllowed();
    if Refusal(st, op).None? {
      StepKeepsOwned(st, op);
      StepKeepsPatterns(st, op);
      StepKeepsReferences(st, op);
      StepKeepsTiers(st, op);
    }
  }

  lemma EveryoneNotAllowed()
    ensures !AllowedUsername(EVERYONE)
  {
    assert EVERYONE[0] == '*';
  }

  /** In every sequence of operations each topic keeps at most one reservation, and every owned row
      belongs to its owner or to everyone. */
  lemma {:induction false} RunKeepsOwnership(st: State, ops: seq<Op>)
    requires Valid(st)
    ensures Valid(Run(st, ops))
    ensures forall u, v, s :: s in Reserved(Run(st, ops).access, u) && s in Reserved(Run(st, ops).access, v) ==> u == v
    decreases |ops|
  {
    if ops == [] {
      forall u, v, s | s in Reserved(st.access, u) && s in Reserved(st.access, v) ensures u == v {
        OneReservationPerTopic(st.access, u, v, s);
      }
    } else {
      StepKeepsValid(st, ops[0]);
      RunKeepsOwnership(Step(st, ops[0]).0, ops[1..]);
    }
  }

  /* ---- reservation limits ---- */

  /** Every regular user holds at most as many reservations as the tier allows, none without one. */
  ghost predicate WithinLimit(st: State, u: string)
    requires u in st.users
  {
    st.users[u].role == UserRole ==>
      |Reserved(st.access, u)| <= 0 || |Reserved(st.access, u)| <= Limit(st, st.users[u].tier)
  }

  ghost predicate WithinLimits(st: State) {
    forall u :: u in st.users ==> WithinLimit(st, u)
  }

  lemma SubsetCardinality(a: set<string>, b: set<string>)
    requires a <= b
    ensures |a| <= |b|
  {
    if a != b {
      assert |b - a| + |a| == |b| by { assert b == a + (b - a); }
    }
  }

  lemma ReservedShrinks(t: Table, r: Table, u: string)
    requires forall k :: k in r && r[k].owner.Some? ==> k in t && r[k] == t[k]
    ensures |Reserved(r, u)| <= |Reserved(t, u)|
  {
    SubsetCardinality(Reserved(r, u), Reserved(t, u));
  }

  lemma ReservedByOwner(t: Table, u: string, s: string, everyone: Permission)
    requires u != EVERYONE && Free(t, u, s) && Owned(t)
    ensures Reserved(Reserve(t, u, s, everyone), u) == Reserved(t, u) + {s}
    ensures forall v :: v != u ==> Reserved(Reserve(t, u, s, everyone), v) == Reserved(t, v)
  {
    var r := Reserve(t, u, s, everyone);
    forall v, x ensures x in Reserved(r, v) <==> x in Reserved(t, v) || (v == u && x == s) {
      if x in Reserved(r, v) { assert (v, x) in r; }
      if x in Reserved(t, v) {
        assert (v, x) in t && !Blocks(t, u, s, (v, x));
        assert (v, x) in r;
      }
      if v == u && x == s { assert (v, x) in r; }
    }
    forall v | v != u ensures Reserved(r, v) == Reserved(t, v) {}
  }

  /** The user's reservations are within a limit. */
  predicate Fits(st: State, u: string, limit: int) {
    |Reserved(st.access, u)| <= 0 || |Reserved(st.access, u)| <= limit
  }

  /** If the operation makes u a regular user, or changes the limit of the tier that u is on as one, then u's
      reservations fit the limit that u has afterwards. */
  predicate Harmless(st: State, op: Op, u: string) {
    match op
    case ChangeRole(v, role) =>
      v == u && role == UserRole && Refusal(st, op).None? ==> Fits(st, u, Limit(st, st.users[u].tier))
    case UpdateTier(code, limit) =>
      u in st.users && st.users[u].role == UserRole && st.users[u].tier == Some(code) && code in st.tiers ==>
      Fits(st, u, limit)
    case _ => true
  }

  /** One step keeps a user within the limit if and only if it is harmless in that sense. */
  lemma StepKeepsUserLimit(st: State, op: Op, u: string)
    requires Valid(st)
    requires u in st.users ==> WithinLimit(st, u)
    ensures (u in Step(st, op).0.users ==> WithinLimit(Step(st, op).0, u)) <==> Harmless(st, op, u)
  {
    if op.AddReservation? {
      if Refusal(st, op).None? && u in st.users { AddKeepsLimit(st, op.user, op.topic, op.everyone, u); }
    } else {
      GivenStepKeepsLimit(st, op, u);
    }
  }

  /** The same for operations other than reservations, which do not need the tables to keep ownership. */
  lemma GivenStepKeepsLimit(st: State, op: Op, u: string)
    requires References(st.access, st.users.Keys) && TiersKnown(st) && !op.AddReservation?
    requires u in st.users ==> WithinLimit(st, u)
    ensures (u in Step(st, op).0.users ==> WithinLimit(Step(st, op).0, u)) <==> Harmless(st, op, u)
  {
    if Refusal(st, op).None? && u in UsersAfter(st, op) {
      if u !in st.users { NoRowsNoReservations(st, u); }
      match op
      case ChangeRole(v, role) => RoleKeepsLimit(st, v, role, u);
      case UpdateTier(code, limit) => TierKeepsLimit(st, code, limit, u);
      case _ => OtherStepKeepsLimit(st, op, u);
    }
  }

  lemma RoleKeepsLimit(st: State, v: string, role: Role, u: string)
    requires Refusal(st, ChangeRole(v, role)).None? && u in st.users && WithinLimit(st, u)
    ensures WithinLimit(Step(st, ChangeRole(v, role)).0, u) <==> Harmless(st, ChangeRole(v, role), u)
  {
    ReservedShrinks(st.access, AccessAfter(st, ChangeRole(v, role)), u);
  }

  lemma TierKeepsLimit(st: State, code: string, limit: int, u: string)
    requires u in st.users && WithinLimit(st, u)
    ensures WithinLimit(Step(st, UpdateTier(code, limit)).0, u) <==> Harmless(st, UpdateTier(code, limit), u)
  {}

  lemma OtherStepKeepsLimit(st: State, op: Op, u: string)
    requires Refusal(st, op).None? && !op.AddReservation? && !op.ChangeRole? && !op.UpdateTier?
      && u in UsersAfter(st, op)
    requires if u in st.users then WithinLimit(st, u) else Reserved(st.access, u) == {}
    requires u in st.users && st.users[u].tier.Some? ==> st.users[u].tier.value in st.tiers
    ensures WithinLimit(Step(st, op).0, u)
  {
    AccessShape(st, op);
    ReservedShrinks(st.access, AccessAfter(st, op), u);
  }

  lemma ReserveCount(t: Table, u: string, s: string, everyone: Permission)
    requires u != EVERYONE && Free(t, u, s) && Owned(t)
    ensures |Reserved(Reserve(t, u, s, everyone), u)| == |Reserved(t, u)| + if s in Reserved(t, u) then 0 else 1
  {
    ReservedByOwner(t, u, s, everyone);
    if s in Reserved(t, u) {
      assert Reserved(t, u) + {s} == Reserved(t, u);
    }
  }

  lemma AddKeepsLimit(st: State, u: string, topic: string, everyone: Permission, v: string)
    requires Owned(st.access) && v in st.users && WithinLimit(st, v)
    requires Refusal(st, AddReservation(u, topic, everyone)).None?
    ensures WithinLimit(st.(access := Reserve(st.access, u, EscapeUnderscore(topic), everyone)), v)
  {
    if v == u {
      ReserveCount(st.access, u, EscapeUnderscore(topic), everyone);
    } else {
      ReservedByOwner(st.access, u, EscapeUnderscore(topic), everyone);
    }
  }

  lemma NoRowsNoReservations(st: State, u: string)
    requires References(st.access, st.users.Keys) && u !in st.users
    ensures Reserved(st.access, u) == {}
  {}

  ghost predicate HarmlessRun(st: State, ops: seq<Op>, u: string)
    decreases |ops|
  {
    ops == [] || (Harmless(st, ops[0], u) && HarmlessRun(Step(st, ops[0]).0, ops[1..], u))
  }

  ghost predicate AlwaysWithin(st: State, ops: seq<Op>, u: string)
    decreases |ops|
  {
    && (u in st.users ==> WithinLimit(st, u))
    && (ops == [] || AlwaysWithin(Step(st, ops[0]).0, ops[1..], u))
  }

  /** In every state of a run a regular user holds at most as many reservations as the tier allows as it is
      then defined, if and only if whenever the user is made a regular one, or the tier is redefined, the
      reservations of then fit. */
  lemma {:induction false} RunKeepsUserLimit(st: State, ops: seq<Op>, u: string)
    requires Valid(st) && (u in st.users ==> WithinLimit(st, u))
    ensures AlwaysWithin(st, ops, u) <==> HarmlessRun(st, ops, u)
    decreases |ops|
  {
    if ops != [] {
      var next := Step(st, ops[0]).0;
      StepKeepsValid(st, ops[0]);
      StepKeepsUserLimit(st, ops[0], u);
      if u in next.users ==> WithinLimit(next, u) { RunKeepsUserLimit(next, ops[1..], u); }
    }
  }

  /** The step makes nobody a regular user and redefines no tier. */
  predicate Fixed(op: Op) { (op.ChangeRole? ==> op.role == AdminRole) && !op.UpdateTier? }

  lemma {:induction false} FixedIsHarmless(st: State, ops: seq<Op>, u: string)
    requires forall i :: 0 <= i < |ops| ==> Fixed(ops[i])
    ensures HarmlessRun(st, ops, u)
    decreases |ops|
  {
    if ops != [] {
      assert Fixed(ops[0]) && forall i :: 0 <= i < |ops| - 1 ==> Fixed(ops[1..][i]) by {
        assert forall i :: 0 <= i < |ops| - 1 ==> ops[1..][i] == ops[i + 1];
      }
      FixedIsHarmless(Step(st, ops[0]).0, ops[1..], u);
    }
  }

  lemma {:induction false} WithinAtEnd(st: State, ops: seq<Op>, u: string)
    requires AlwaysWithin(st, ops, u)
    ensures u in Run(st, ops).users ==> WithinLimit(Run(st, ops), u)
    decreases |ops|
  {
    if ops != [] { WithinAtEnd(Step(st, ops[0]).0, ops[1..], u); }
  }

  /** So all users stay within their limits in runs in which roles and tier definitions are fixed. */
  lemma RunKeepsLimits(st: State, ops: seq<Op>)
    requires Valid(st) && WithinLimits(st)
    requires forall i :: 0 <= i < |ops| ==> Fixed(ops[i])
    ensures WithinLimits(Run(st, ops))
  {
    forall u | u in Run(st, ops).users ensures WithinLimit(Run(st, ops), u) {
      if u in st.users { assert WithinLimit(st, u); }
      FixedIsHarmless(st, ops, u);
      RunKeepsUserLimit(st, ops, u);
      WithinAtEnd(st, ops, u);
    }
  }

  /** Turning an admin into a regular user keeps the limits exactly when the admin's reservations
      fit the tier already. */
  lemma DemotionKeepsLimits(st: State, u: string)
    requires Valid(st) && WithinLimits(st) && u in st.users && st.users[u].role == AdminRole && !st.users[u].provisioned
    ensures WithinLimits(Step(st, ChangeRole(u, UserRole)).0)
       <==> Reserved(st.access, u) == {} || |Reserved(st.access, u)| <= Limit(st, st.users[u].tier)
  {
    var next := Step(st, ChangeRole(u, UserRole)).0;
    Demoted(st, u);
    assert WithinLimit(next, u)
      <==> |Reserved(st.access, u)| <= 0 || |Reserved(st.access, u)| <= Limit(st, st.users[u].tier);
    forall v | v in next.users && v != u ensures WithinLimit(next, v) { assert WithinLimit(st, v); }
  }

  lemma Demoted(st: State, u: string)
    requires Valid(st) && u in st.users && st.users[u].role == AdminRole && !st.users[u].provisioned
    ensures Step(st, ChangeRole(u, UserRole)).0 == st.(users := st.users[u := st.users[u].(role := UserRole)])
  {}

  /** A table with nobody in it but everyone. */
  function Empty(): State { State(map[EVERYONE := User(AnonymousRole, false, None, "")], map[], map[]) }

  /** A reservation of an otherwise empty table. */
  lemma OneReservation(u: string, s: string, everyone: Permission)
    requires u != EVERYONE
    ensures Free(map[], u, s) && Reserved(map[], u) == {} && Reserved(Reserve(map[], u, s, everyone), u) == {s}
  {
    forall x ensures x in Reserved(Reserve(map[], u, s, everyone), u) <==> x == s {
      assert (u, x) in Reserve(map[], u, s, everyone) <==> x == s;
    }
  }

  lemma RunTwo(st: State, a: Op, b: Op)
    ensures Run(st, [a, b]) == Step(Step(st, a).0, b).0
  {
    assert [a, b][1..] == [b] && [b][1..] == [];
    assert Run(Step(st, a).0, [b]) == Run(Step(Step(st, a).0, b).0, []);
  }

  /** One user besides everyone, who holds nothing. */
  function OneUser(u: string, user: User, tiers: map<string, int>): State {
    State(Empty().users[u := user], tiers, map[])
  }

  lemma OneUserIsValid(u: string, user: User, tiers: map<string, int>)
    requires AllowedUsername(u) && user.role != AnonymousRole && (user.tier.Some? ==> user.tier.value in tiers)
    ensures Valid(OneUser(u, user, tiers)) && WithinLimits(OneUser(u, user, tiers))
  {
    EveryoneNotAllowed();
    assert Reserved(map[], EVERYONE) == {} && Reserved(map[], u) == {};
  }

  lemma OneUserReserves(u: string, user: User, tiers: map<string, int>, topic: string, everyone: Permission)
    requires AllowedUsername(u) && AllowedTopic(topic)
    requires user.role == UserRole ==> user.tier.Some? && user.tier.value in tiers && tiers[user.tier.value] == 1
    ensures Step(OneUser(u, user, tiers), AddReservation(u, topic, everyone)).0 ==
      OneUser(u, user, tiers).(access := Reserve(map[], u, EscapeUnderscore(topic), everyone))
  {
    EveryoneNotAllowed();
    OneReservation(u, EscapeUnderscore(topic), everyone);
  }

  lemma OneIsTooMany(st: State, u: string, s: string, everyone: Permission)
    requires u != EVERYONE && st.access == Reserve(map[], u, s, everyone)
    requires u in st.users && st.users[u].role == UserRole && Limit(st, st.users[u].tier) == 0
    ensures !WithinLimits(st)
  {
    OneReservation(u, s, everyone);
    assert !WithinLimit(st, u);
  }

  /** Any admin may reserve any topic and then be made a regular user without a tier to go with it. */
  lemma DemotionExceeds(u: string, topic: string, everyone: Permission) returns (st: State, ops: seq<Op>)
    requires AllowedUsername(u) && AllowedTopic(topic)
    ensures Valid(st) && WithinLimits(st) && !WithinLimits(Run(st, ops))
  {
    EveryoneNotAllowed();
    var admin := User(AdminRole, false, None, "");
    st := OneUser(u, admin, map[]);
    OneUserIsValid(u, admin, map[]);
    OneUserReserves(u, admin, map[], topic, everyone);
    ops := [AddReservation(u, topic, everyone), ChangeRole(u, UserRole)];
    RunTwo(st, ops[0], ops[1]);
    OneIsTooMany(Run(st, ops), u, EscapeUnderscore(topic), everyone);
  }

  /** Any tier may be redefined below what its users hold. */
  lemma RedefinitionExceeds(u: string, topic: string, everyone: Permission, code: string)
      returns (st: State, ops: seq<Op>)
    requires AllowedUsername(u) && AllowedTopic(topic)
    ensures Valid(st) && WithinLimits(st) && !WithinLimits(Run(st, ops))
  {
    EveryoneNotAllowed();
    var user := User(UserRole, false, Some(code), "");
    st := OneUser(u, user, map[code := 1]);
    OneUserIsValid(u, user, map[code := 1]);
    OneUserReserves(u, user, map[code := 1], topic, everyone);
    ops := [AddReservation(u, topic, everyone), UpdateTier(code, 0)];
    RunTwo(st, ops[0], ops[1]);
    OneIsTooMany(Run(st, ops), u, EscapeUnderscore(topic), everyone);
  }

  /* ---- trimming ---- */

  lemma ExcessIndex(t: Table, u: string, limit: nat, i: nat)
    requires i < |Sort(Reserved(t, u))|
    ensures Sort(Reserved(t, u))[i] in Excess(t, u, limit) <==> limit <= i
  {
    var xs := Sort(Reserved(t, u));
    if xs[i] in Excess(t, u, limit) {
      var j :| limit <= j < |xs| && xs[j] == xs[i];
      LessIrreflexive(xs[i]);
    }
  }

  lemma ReservedAfterRelease(t: Table, u: string, topics: set<string>, v: string)
    requires Owned(t) && u != EVERYONE && topics <= Reserved(t, u)
    ensures Reserved(Released(t, u, topics), v) == if v == u then Reserved(t, u) - topics else Reserved(t, v)
  {
    var r := Released(t, u, topics);
    forall s ensures s in Reserved(r, v) <==> s in Reserved(t, v) && !(v == u && s in topics) {
      if s in Reserved(t, v) {
        assert (v, s) in t;
        if s in topics { OneReservationPerTopic(t, u, v, s); } else { assert (v, s) in r; }
      }
    }
  }

  lemma ExcessSplits(t: Table, u: string, limit: nat, s: string)
    requires limit <= |Reserved(t, u)|
    ensures s in Excess(t, u, limit) ==> s in Reserved(t, u)
    ensures s in Sort(Reserved(t, u))[..limit] <==> s in Reserved(t, u) && s !in Excess(t, u, limit)
  {
    var xs := Sort(Reserved(t, u));
    if s in Reserved(t, u) {
      var i :| 0 <= i < |xs| && xs[i] == s;
      ExcessIndex(t, u, limit, i);
      if i < limit { assert xs[..limit][i] == s; }
      if s in xs[..limit] { var j :| 0 <= j < limit && xs[j] == s; ExcessIndex(t, u, limit, j); }
    } else {
      assert s !in xs;
    }
  }

  lemma ExcessOfReserved(t: Table, u: string, limit: nat)
    requires limit <= |Reserved(t, u)|
    ensures Excess(t, u, limit) <= Reserved(t, u)
    ensures Sort(Reserved(t, u) - Excess(t, u, limit)) == Sort(Reserved(t, u))[..limit]
  {
    forall s
      ensures s in Excess(t, u, limit) ==> s in Reserved(t, u)
      ensures s in Sort(Reserved(t, u))[..limit] <==> s in Reserved(t, u) - Excess(t, u, limit)
    {
      ExcessSplits(t, u, limit, s);
    }
    SortUnique(Sort(Reserved(t, u))[..limit], Reserved(t, u) - Excess(t, u, limit));
  }

  lemma NothingExcess(t: Table, u: string, limit: nat)
    requires |Reserved(t, u)| <= limit
    ensures Released(t, u, Excess(t, u, limit)) == t
  {
    assert Excess(t, u, limit) == {};
  }

  lemma TrimOutcome(st: State, u: string, limit: nat)
    ensures Step(st, TrimReservations(u, limit)) ==
      if |Reserved(st.access, u)| <= limit then (st, Done)
      else if !AllowedUsername(u) || u == EVERYONE then (st, Failed(InvalidArgument))
      else (st.(access := Released(st.access, u, Excess(st.access, u, limit))), Done)
  {
    if |Reserved(st.access, u)| <= limit { NothingExcess(st.access, u, limit); }
  }

  /** Trimming keeps exactly the first limit reservations in topic order, and leaves every other
      user's reservations and every other topic's rows alone. */
  lemma TrimKeepsFirst(st: State, u: string, limit: nat)
    requires Owned(st.access) && AllowedUsername(u) && u != EVERYONE && |Reserved(st.access, u)| > limit
    ensures var r := Step(st, TrimReservations(u, limit)).0.access;
      && Sort(Reserved(r, u)) == Sort(Reserved(st.access, u))[..limit]
      && (forall v :: v != u ==> Reserved(r, v) == Reserved(st.access, v))
      && (forall k: Key :: k.1 !in Excess(st.access, u, limit) ==> RowKept(st.access, r, k))
  {
    TrimOutcome(st, u, limit);
    TrimmedTable(st.access, u, limit);
  }

  ghost predicate RowKept(t: Table, r: Table, k: Key) {
    (k in r <==> k in t) && (k in t ==> r[k] == t[k])
  }

  lemma TrimmedTable(t: Table, u: string, limit: nat)
    requires Owned(t) && u != EVERYONE && |Reserved(t, u)| > limit
    ensures Sort(Reserved(Released(t, u, Excess(t, u, limit)), u)) == Sort(Reserved(t, u))[..limit]
    ensures forall v :: v != u ==> Reserved(Released(t, u, Excess(t, u, limit)), v) == Reserved(t, v)
    ensures forall k: Key :: k.1 !in Excess(t, u, limit) ==> RowKept(t, Released(t, u, Excess(t, u, limit)), k)
  {
    ExcessOfReserved(t, u, limit);
    var x := Excess(t, u, limit);
    ReservedAfterRelease(t, u, x, u);
    forall v | v != u ensures Reserved(Released(t, u, x), v) == Reserved(t, v) {
      ReservedAfterRelease(t, u, x, v);
    }
  }

  /** The first reservations stay; the rows of the topics that are trimmed off go, the user's and everyone's;
      those of all other topics stay. */
  ghost predicate TrimmedTo(t: Table, r: Table, u: string, limit: nat)
    requires limit <= |Reserved(t, u)|
  {
    && Sort(Reserved(r, u)) == Sort(Reserved(t, u))[..limit]
    && (forall k: Key :: k.1 in Reserved(r, u) || k.1 !in Reserved(t, u) ==> RowKept(t, r, k))
    && (forall k :: k in r && k.1 in Reserved(t, u) && k.1 !in Reserved(r, u) ==> k.0 != u && k.0 != EVERYONE)
  }

  lemma TrimmedRows(t: Table, u: string, limit: nat)
    requires Owned(t) && u != EVERYONE && |Reserved(t, u)| > limit
    ensures TrimmedTo(t, Released(t, u, Excess(t, u, limit)), u, limit)
  {
    TrimmedTable(t, u, limit);
    ExcessOfReserved(t, u, limit);
    ReservedAfterRelease(t, u, Excess(t, u, limit), u);
  }

  lemma TrimFits(t: Table, u: string, limit: nat)
    requires Owned(t) && u != EVERYONE
    ensures |Reserved(Released(t, u, Excess(t, u, limit)), u)| <= limit
  {
    if |Reserved(t, u)| > limit {
      TrimmedTable(t, u, limit);
      assert |Sort(Reserved(Released(t, u, Excess(t, u, limit)), u))| == limit;
    } else {
      ReservedShrinks(t, Released(t, u, Excess(t, u, limit)), u);
    }
  }

  /** After trimming to a tier's limit, changing to that tier is not refused for too many
      reservations, and neither is dropping the tier after trimming to none. */
  lemma TrimThenChangeTier(st: State, u: string, limit: nat, code: string)
    requires Owned(st.access) && AllowedUsername(u) && u != EVERYONE && u in st.users
    ensures code in st.tiers && st.tiers[code] == limit ==>
              Step(Step(st, TrimReservations(u, limit)).0, ChangeTier(u, code)).1 == Done
    ensures limit == 0 ==> Step(Step(st, TrimReservations(u, limit)).0, ResetTier(u)).1 == Done
  {
    TrimOutcome(st, u, limit);
    if |Reserved(st.access, u)| <= limit { NothingExcess(st.access, u, limit); }
    TrimFits(st.access, u, limit);
    TierChangeAccepted(st.(access := Released(st.access, u, Excess(st.access, u, limit))), u, limit, code);
  }

  lemma TierChangeAccepted(st: State, u: string, limit: nat, code: string)
    requires AllowedUsername(u) && u in st.users && |Reserved(st.access, u)| <= limit
    ensures code in st.tiers && st.tiers[code] == limit ==> Step(st, ChangeTier(u, code)).1 == Done
    ensures limit == 0 ==> Step(st, ResetTier(u)).1 == Done
  {}

  /** Reservations are listed by stored topic, which is the order of the topics themselves. */
  lemma {:induction false} EscapingKeepsOrder(a: string, b: string)
    requires forall i :: 0 <= i < |a| ==> IsTopicChar(a[i])
    requires forall i :: 0 <= i < |b| ==> IsTopicChar(b[i])
    ensures Less(EscapeUnderscore(a), EscapeUnderscore(b)) <==> Less(a, b)
  {
    var ea, eb := EscapeUnderscore(a), EscapeUnderscore(b);
    if a != "" && b != "" {
      EscapingKeepsOrder(a[1..], b[1..]);
      if a[0] == b[0] {
        if a[0] == '_' {
          assert ea[1..][1..] == EscapeUnderscore(a[1..]) && eb[1..][1..] == EscapeUnderscore(b[1..]);
          assert Less(ea, eb) <==> Less(ea[1..], eb[1..]);
        } else {
          assert ea[1..] == EscapeUnderscore(a[1..]) && eb[1..] == EscapeUnderscore(b[1..]);
        }
      }
    }
  }
}
