/** The user manager as an object that owns the user, tier and access tables, with the reservation
    handlers on top (user/manager.go, server/server_account.go). */
module Manager {
  import opened Text
  import opened Wildcards
  import opened Ordering
  import opened AccessTable
  import opened AccessSteps
  import opened Provisioning

  /** r is t without the rows that go, the others unchanged. */
  ghost predicate OnlyWithout(t: Table, r: Table, goes: Key -> bool) {
    (forall k :: k in r <==> k in t && !goes(k)) && (forall k :: k in r && k in t ==> r[k] == t[k])
  }

  /** The user's own row that makes a reservation. */
  predicate Held(t: Table, u: string, stored: string) { (u, stored) in t && t[(u, stored)].owner == Some(u) }

  class Manager {
    var users: map<string, User>
    var tiers: map<string, int>
    var access: Table
    const defaultAccess: Permission

    ghost function Now(): State
      reads this
    {
      State(users, tiers, access)
    }

    /** A new database: the only user is everyone. */
    constructor (defaultAccess: Permission)
      ensures Valid(Now()) && WithinLimits(Now()) && access == map[] && this.defaultAccess == defaultAccess
    {
      users := map[EVERYONE := User(AnonymousRole, false, None, "")];
      tiers := map[];
      access := map[];
      this.defaultAccess := defaultAccess;
    }

    /** Decides a request of a user, or of an anonymous visitor (None). */
    method Authorize(user: Option<(string, Role)>, topic: string, perm: Permission) returns (allowed: bool)
      requires StoredPatterns(access)
      requires user.Some? ==> AllowedUsername(user.value.0)
      ensures user.Some? && user.value.1 == AdminRole ==> allowed
      ensures !(user.Some? && user.value.1 == AdminRole) ==>
        Answer(access, defaultAccess, if user.Some? then user.value.0 else EVERYONE, topic, perm, allowed)
    {
      if user.Some? && user.value.1 == AdminRole {
        return true;
      }
      var username := EVERYONE;
      if user.Some? {
        username := user.value.0;
      }
      var rows := set k | k in access && Candidate(access, username, topic, k);
      if rows == {} {
        forall k | k in access ensures !Candidate(access, username, topic, k) { assert k !in rows; }
        NoRowAnswers(access, defaultAccess, username, topic, perm);
        return Grants(defaultAccess, perm);
      }
      FirstRowExists(access, rows);
      var first :| first in rows && forall j :: j in rows ==> !Precedes(access, j, first);
      assert FirstRow(access, username, topic, first);
      FirstRowAnswers(access, defaultAccess, username, topic, perm, first);
      allowed := Grants(access[first].perm, perm);
    }

    /** Sets the permission of a user, or of everyone, on a pattern; the row belongs to the system. */
    method AllowAccess(u: string, pattern: string, perm: Permission) returns (r: Outcome)
      modifies this`access
      ensures (Now(), r) == Step(old(Now()), Op.AllowAccess(u, pattern, perm))
      ensures r ==
        if (!AllowedUsername(u) && u != EVERYONE) || !AllowedTopicPattern(pattern) then Failed(InvalidArgument)
                   else if u !in users then Failed(ConstraintFailed) else Done
      ensures r == Done ==> access == old(access)[(u, ToSqlWildcard(pattern)) := Row(perm, None, false)]
      ensures r != Done ==> access == old(access)
    {
      if !AllowedUsername(u) && u != EVERYONE {
        return Failed(InvalidArgument);
      } else if !AllowedTopicPattern(pattern) {
        return Failed(InvalidArgument);
      }
      r := Upsert(u, ToSqlWildcard(pattern), perm, "", false);
    }

    /** upsertUserAccessQuery: an unknown user violates NOT NULL, an unknown owner is stored as NULL. It touches
        no other row and leaves no row to or of an unknown user. */
    method Upsert(u: string, stored: string, perm: Permission, owner: string, provisioned: bool) returns (r: Outcome)
      modifies this`access
      ensures r == Done <==> u in users
      ensures forall k: Key :: k != (u, stored) ==> RowKept(old(access), access, k)
      ensures References(old(access), users.Keys) ==> References(access, users.Keys)
      ensures u !in users ==> r == Failed(ConstraintFailed) && access == old(access)
      ensures u in users ==> r == Done && access == old(access)[(u, stored) :=
                Row(perm, if owner != "" && owner in users then Some(owner) else None, provisioned)]
    {
      if u !in users {
        return Failed(ConstraintFailed);
      }
      var ownerId := if owner != "" && owner in users then Some(owner) else None;
      access := access[(u, stored) := Row(perm, ownerId, provisioned)];
      r := Done;
    }

    /** Drops the access of one user to one pattern, all access of one user, or the whole table. */
    method ResetAccess(u: string, pattern: string) returns (r: Outcome)
      modifies this`access
      ensures (Now(), r) == Step(old(Now()), Op.ResetAccess(u, pattern))
      ensures r == Done || (r == Failed(InvalidArgument) && access == old(access))
      ensures r == Done <==>
        (AllowedUsername(u) || u == EVERYONE || u == "") && (AllowedTopicPattern(pattern) || pattern == "")
      ensures r == Done && u == "" && pattern == "" ==> access == map[]
      ensures r == Done && (u != "" || pattern != "") ==> OnlyWithout(old(access), access,
        k => k in old(access) && (k.0 == u || old(access)[k].owner == Some(u))
          && (pattern == "" || k.1 == ToSqlWildcard(pattern)))
    {
      if !AllowedUsername(u) && u != EVERYONE && u != "" {
        return Failed(InvalidArgument);
      } else if !AllowedTopicPattern(pattern) && pattern != "" {
        return Failed(InvalidArgument);
      }
      if u == "" && pattern == "" {
        access := map[];
      } else if pattern == "" {
        access := DropUser(access, u);
      } else {
        access := DropTopic(access, u, ToSqlWildcard(pattern));
      }
      r := Done;
    }

    /** Refuses a reservation if any row for the topic is not owned by the user. The comparison with an unknown
        user's id is never true, so for an unknown user only rows without an owner stand in the way. */
    method AllowReservation(u: string, topic: string) returns (r: Outcome)
      ensures r == Failed(InvalidArgument) <==> (!AllowedUsername(u) && u != EVERYONE) || !AllowedTopic(topic)
      ensures r == Done || r == Failed(InvalidArgument) || r == Failed(TopicReserved)
      ensures r != Failed(InvalidArgument) && u in users ==> (r == Done <==> Free(access, u, EscapeUnderscore(topic)))
      ensures r != Failed(InvalidArgument) && u !in users ==>
        (r == Done <==> FreeOfUnowned(access, EscapeUnderscore(topic)))
    {
      if (!AllowedUsername(u) && u != EVERYONE) || !AllowedTopic(topic) {
        return Failed(InvalidArgument);
      }
      var s := EscapeUnderscore(topic);
      var others := set k | k in access && (k.1 == s || Like(s, k.1))
                         && (access[k].owner.None? || (u in users && access[k].owner != Some(u)));
      assert u in users ==> forall k :: k in others <==> Blocks(access, u, s, k);
      assert u !in users ==> forall k :: k in others <==> BlocksUnowned(access, s, k);
      if |others| > 0 {
        var k :| k in others;
        assert if u in users then Blocks(access, u, s, k) else BlocksUnowned(access, s, k);
        return Failed(TopicReserved);
      }
      assert others == {};
      r := Done;
    }

    /** The two rows of a reservation, in one transaction. */
    method AddReservation(u: string, topic: string, everyone: Permission) returns (r: Outcome)
      requires EVERYONE in users
      modifies this`access
      ensures !AllowedUsername(u) || u == EVERYONE || !AllowedTopic(topic) ==> r == Failed(InvalidArgument)
      ensures r == Done ==> u in users && access == Reserve(old(access), u, EscapeUnderscore(topic), everyone)
      ensures r != Done ==> access == old(access)
      ensures AllowedUsername(u) && AllowedTopic(topic) && u != EVERYONE && u in users ==> r == Done
    {
      if !AllowedUsername(u) || u == EVERYONE || !AllowedTopic(topic) {
        return Failed(InvalidArgument);
      }
      var before := access;
      r := Upsert(u, EscapeUnderscore(topic), Permission(true, true), u, false);
      if r != Done {
        access := before;
        return;
      }
      r := Upsert(EVERYONE, EscapeUnderscore(topic), everyone, u, false);
    }

    /** Handler: reserves a topic for a logged-in user if it is free and the tier has room. */
    method HandleReservationAdd(u: string, topic: string, everyone: Permission) returns (r: Outcome)
      requires Valid(Now()) && u in users
      modifies this`access
      ensures (Now(), r) == Step(old(Now()), Op.AddReservation(u, topic, everyone))
      ensures r == Done ==>
        access == old(access)[(u, EscapeUnderscore(topic)) := Row(Permission(true, true), Some(u), false)]
                             [(EVERYONE, EscapeUnderscore(topic)) := Row(everyone, Some(u), false)]
      ensures r != Done ==> access == old(access)
      ensures !AllowedTopic(topic) ==> r == Failed(TopicInvalid)
      ensures AllowedTopic(topic) && users[u].role == UserRole && users[u].tier.None? ==> r == Failed(Unauthorized)
      ensures AllowedTopic(topic) && (users[u].role == UserRole ==> users[u].tier.Some?) ==>
        (r == Failed(TopicReserved) <==> !Free(old(access), u, EscapeUnderscore(topic)))
      ensures AllowedTopic(topic) && u != EVERYONE && users[u].role != UserRole ==>
        (r == Done <==> Free(old(access), u, EscapeUnderscore(topic)))
      ensures AllowedTopic(topic) && u != EVERYONE && users[u].role == UserRole && users[u].tier.Some? ==>
        (r == Done <==>
           && Free(old(access), u, EscapeUnderscore(topic))
           && (EscapeUnderscore(topic) in Reserved(old(access), u) ||
               |Reserved(old(access), u)| < tiers[users[u].tier.value]))
    {
      if !AllowedTopic(topic) {
        return Failed(TopicInvalid);
      }
      var user := users[u];
      if user.role == UserRole && user.tier.None? {
        return Failed(Unauthorized);
      }
      var free := AllowReservation(u, topic);
      if free != Done {
        return Failed(TopicReserved);
      }
      if user.role == UserRole {
        var hasReservation := EscapeUnderscore(topic) in Reserved(access, u);
        if !hasReservation {
          var reservations := |Reserved(access, u)|;
          if reservations >= tiers[user.tier.value] {
            return Failed(LimitReservations);
          }
        }
      }
      r := AddReservation(u, topic, everyone);
    }

    /** Deletes the user's row, the rows the user owns and everyone's row, topic by topic. */
    method RemoveReservations(u: string, topics: seq<string>) returns (r: Outcome)
      modifies this`access
      ensures r == Done <==>
        AllowedUsername(u) && u != EVERYONE && topics != [] && forall i :: 0 <= i < |topics| ==> AllowedTopic(topics[i])
      ensures r == Done ==> access == Released(old(access), u, StoredTopics(topics))
      ensures r == Done ==> OnlyWithout(old(access), access,
        k => k in old(access) && (exists i :: 0 <= i < |topics| && k.1 == EscapeUnderscore(topics[i]))
          && (k.0 == u || k.0 == EVERYONE || old(access)[k].owner == Some(u) || old(access)[k].owner == Some(EVERYONE)))
      ensures r != Done ==> access == old(access) && r == Failed(InvalidArgument)
    {
      if !AllowedUsername(u) || u == EVERYONE || |topics| == 0 {
        return Failed(InvalidArgument);
      }
      for i := 0 to |topics|
        invariant forall j :: 0 <= j < i ==> AllowedTopic(topics[j])
      {
        if !AllowedTopic(topics[i]) {
          return Failed(InvalidArgument);
        }
      }
      ghost var before := access;
      assert Released(before, u, {}) == before;
      for i := 0 to |topics|
        invariant access == Released(before, u, StoredTopics(topics[..i]))
      {
        var s := EscapeUnderscore(topics[i]);
        access := DropTopic(access, u, s);
        access := DropTopic(access, EVERYONE, s);
        ReleasedOneMore(before, u, StoredTopics(topics[..i]), s);
        StoredTopicsSnoc(topics, i);
      }
      assert topics[..|topics|] == topics;
      r := Done;
    }

    /** Handler: deletes a reservation of the user. */
    method HandleReservationDelete(u: string, topic: string) returns (r: Outcome)
      modifies this`access
      ensures (Now(), r) == Step(old(Now()), Op.DeleteReservation(u, topic))
      ensures r == Done || access == old(access)
      ensures r == if !AllowedTopic(topic) then Failed(TopicInvalid)
                   else if !Held(old(access), u, EscapeUnderscore(topic)) then Failed(Unauthorized)
                   else if !AllowedUsername(u) || u == EVERYONE then Failed(InvalidArgument) else Done
      ensures r == Done ==> OnlyWithout(old(access), access,
        k => k in old(access) && k.1 == EscapeUnderscore(topic)
          && (k.0 == u || k.0 == EVERYONE || old(access)[k].owner == Some(u) || old(access)[k].owner == Some(EVERYONE)))
    {
      if !AllowedTopic(topic) {
        return Failed(TopicInvalid);
      }
      if EscapeUnderscore(topic) !in Reserved(access, u) {
        return Failed(Unauthorized);
      }
      r := RemoveReservations(u, [topic]);
      assert StoredTopics([topic]) == {EscapeUnderscore(topic)} by { assert [topic][0] == topic; }
    }

    /** The topics a user has reserved, in the order of the query. */
    method Reservations(u: string) returns (topics: seq<string>)
      ensures |topics| == |Reserved(access, u)|
      ensures forall i :: 0 <= i < |topics| ==> topics[i] == UnescapeUnderscore(Sort(Reserved(access, u))[i])
    {
      var rows := Sort(Reserved(access, u));
      topics := [];
      for i := 0 to |rows|
        invariant |topics| == i && forall j :: 0 <= j < i ==> topics[j] == UnescapeUnderscore(rows[j])
      {
        topics := topics + [UnescapeUnderscore(rows[i])];
      }
    }

    /** Removes the reservations past the limit. */
    method TrimReservations(u: string, limit: nat) returns (r: Outcome)
      requires Owned(access)
      modifies this`access
      ensures (Now(), r) == Step(old(Now()), Op.TrimReservations(u, limit))
      ensures |Reserved(old(access), u)| <= limit ==> r == Done && access == old(access)
      ensures |Reserved(old(access), u)| > limit ==> (r == Done <==> AllowedUsername(u) && u != EVERYONE)
      ensures r == Done && |Reserved(old(access), u)| > limit ==> TrimmedTo(old(access), access, u, limit)
    {
      TrimOutcome(Now(), u, limit);
      var reservations := Reservations(u);
      if |reservations| <= limit {
        return Done;
      }
      var topics := CollectExcess(reservations, limit);
      ExcessListed(access, u, limit, reservations, topics);
      r := RemoveReservations(u, topics);
      if r == Done { TrimmedRows(old(access), u, limit); }
    }

    /** Puts the user on a tier, unless a lower limit than the current one is exceeded. */
    method ChangeTier(u: string, code: string) returns (r: Outcome)
      requires Valid(Now())
      modifies this`users
      ensures (Now(), r) == Step(old(Now()), Op.ChangeTier(u, code))
      ensures r == Done <==>
        && AllowedUsername(u) && code in tiers && u in old(users)
        && (old(users)[u].tier.None? || tiers[code] >= tiers[old(users)[u].tier.value] ||
            |Reserved(access, u)| <= tiers[code])
      ensures r == Done ==> u in old(users) && code in tiers
      ensures r == Done ==> users == old(users)[u := old(users)[u].(tier := Some(code))]
      ensures r != Done ==> users == old(users)
    {
      if !AllowedUsername(u) {
        return Failed(InvalidArgument);
      }
      if code !in tiers {
        return Failed(TierNotFound);
      }
      r := CheckReservationsLimit(u, tiers[code]);
      if r == Done {
        users := users[u := users[u].(tier := Some(code))];
      }
    }

    method ResetTier(u: string) returns (r: Outcome)
      requires Valid(Now())
      modifies this`users
      ensures (Now(), r) == Step(old(Now()), Op.ResetTier(u))
      ensures r == Done <==>
        && (AllowedUsername(u) || u == EVERYONE || u == "") && u in old(users)
        && (old(users)[u].tier.None? || 0 >= tiers[old(users)[u].tier.value] || |Reserved(access, u)| <= 0)
      ensures r == Done ==> u in old(users) && users == old(users)[u := old(users)[u].(tier := None)]
      ensures r != Done ==> users == old(users)
    {
      if !AllowedUsername(u) && u != EVERYONE && u != "" {
        return Failed(InvalidArgument);
      }
      r := CheckReservationsLimit(u, 0);
      if r == Done {
        users := users[u := users[u].(tier := None)];
      }
    }

    method CheckReservationsLimit(u: string, limit: int) returns (r: Outcome)
      requires Valid(Now())
      ensures u !in users ==> r == Failed(UserNotFound)
      ensures u in users ==> r == if ExceedsLowered(Now(), u, limit) then Failed(TooManyReservations) else Done
      ensures u in users ==> (r == Done <==>
        users[u].tier.None? || limit >= tiers[users[u].tier.value] || |Reserved(access, u)| <= limit)
    {
      if u !in users {
        return Failed(UserNotFound);
      }
      if users[u].tier.Some? && limit < tiers[users[u].tier.value] {
        var reservations := Reservations(u);
        if |reservations| > limit {
          return Failed(TooManyReservations);
        }
      }
      r := Done;
    }

    method AddTier(code: string, limit: int) returns (r: Outcome)
      modifies this`tiers
      ensures (Now(), r) == Step(old(Now()), Op.AddTier(code, limit))
      ensures r == if code in old(tiers) then Failed(ConstraintFailed) else Done
      ensures tiers == if code in old(tiers) then old(tiers) else old(tiers)[code := limit]
    {
      if code in tiers {
        return Failed(ConstraintFailed);
      }
      tiers := tiers[code := limit];
      r := Done;
    }

    /** Changes the limit whatever the users on the tier hold. */
    method UpdateTier(code: string, limit: int) returns (r: Outcome)
      modifies this`tiers
      ensures (Now(), r) == Step(old(Now()), Op.UpdateTier(code, limit))
      ensures r == Done && tiers == if code in old(tiers) then old(tiers)[code := limit] else old(tiers)
    {
      if code in tiers {
        tiers := tiers[code := limit];
      }
      r := Done;
    }

    /** Fails while any user is on the tier. */
    method RemoveTier(code: string) returns (r: Outcome)
      modifies this`tiers
      ensures (Now(), r) == Step(old(Now()), Op.RemoveTier(code))
      ensures r == Done <==> AllowedTier(code) && forall u :: u in users ==> users[u].tier != Some(code)
      ensures tiers == if r == Done then old(tiers) - {code} else old(tiers)
    {
      if !AllowedTier(code) {
        return Failed(InvalidArgument);
      }
      var onTier := set u | u in users && users[u].tier == Some(code);
      if onTier != {} {
        var u :| u in onTier;
        return Failed(ConstraintFailed);
      }
      assert forall u :: u in users && users[u].tier == Some(code) ==> u in onTier;
      tiers := tiers - {code};
      r := Done;
    }

    /** hash is what becomes of the password, None if it is refused. */
    method AddUser(u: string, role: Role, hash: Option<string>) returns (r: Outcome)
      modifies this`users
      ensures (Now(), r) == Step(old(Now()), Op.AddUser(u, role, hash))
      ensures r == if !AllowedUsername(u) || role == AnonymousRole then Failed(InvalidArgument)
                   else if hash.None? then Failed(PasswordRefused)
                   else if u in old(users) then Failed(UserExists) else Done
      ensures r == Done ==> users == old(users)[u := User(role, false, None, hash.value)]
      ensures r != Done ==> users == old(users)
    {
      if !AllowedUsername(u) || role == AnonymousRole {
        return Failed(InvalidArgument);
      } else if hash.None? {
        return Failed(PasswordRefused);
      } else if u in users {
        return Failed(UserExists);
      }
      users := users[u := User(role, false, None, hash.value)];
      r := Done;
    }

    method ChangePassword(u: string, hash: Option<string>) returns (r: Outcome)
      modifies this`users
      ensures (Now(), r) == Step(old(Now()), Op.ChangePassword(u, hash))
      ensures r == if u !in old(users) then Failed(UserNotFound)
                   else if old(users)[u].provisioned then Failed(ProvisionedUserChange)
                   else if hash.None? then Failed(PasswordRefused) else Done
      ensures r == Done ==> users == old(users)[u := old(users)[u].(hash := hash.value)]
      ensures r != Done ==> users == old(users)
    {
      if u !in users {
        return Failed(UserNotFound);
      } else if users[u].provisioned {
        return Failed(ProvisionedUserChange);
      } else if hash.None? {
        return Failed(PasswordRefused);
      }
      users := users[u := users[u].(hash := hash.value)];
      r := Done;
    }

    /** Deletes a user; the user's rows and the rows the user owns go with it. */
    method RemoveUser(u: string) returns (r: Outcome)
      modifies this`users, this`access
      ensures (Now(), r) == Step(old(Now()), Op.RemoveUser(u))
      ensures r == if u !in old(users) then Failed(UserNotFound)
                   else if old(users)[u].provisioned then Failed(ProvisionedUserChange)
                   else if !AllowedUsername(u) then Failed(InvalidArgument) else Done
      ensures r == Done ==> users == old(users) - {u} && OnlyWithout(old(access), access,
        k => k in old(access) && (k.0 == u || old(access)[k].owner == Some(u)))
      ensures r != Done ==> users == old(users) && access == old(access)
    {
      if u !in users {
        return Failed(UserNotFound);
      } else if users[u].provisioned {
        return Failed(ProvisionedUserChange);
      } else if !AllowedUsername(u) {
        return Failed(InvalidArgument);
      }
      users := users - {u};
      access := DropUser(access, u);
      r := Done;
    }

    method ChangeRole(u: string, role: Role) returns (r: Outcome)
      modifies this`users, this`access
      ensures (Now(), r) == Step(old(Now()), Op.ChangeRole(u, role))
      ensures r == if u !in old(users) then Failed(UserNotFound)
                   else if old(users)[u].provisioned then Failed(ProvisionedUserChange)
                   else if !AllowedUsername(u) || role == AnonymousRole then Failed(InvalidArgument) else Done
      ensures r == Done ==> users == old(users)[u := old(users)[u].(role := role)] && OnlyWithout(old(access), access,
        k => role == AdminRole && k in old(access) && (k.0 == u || old(access)[k].owner == Some(u)))
      ensures r != Done ==> users == old(users) && access == old(access)
    {
      if u !in users {
        return Failed(UserNotFound);
      } else if users[u].provisioned {
        return Failed(ProvisionedUserChange);
      } else if !AllowedUsername(u) || role == AnonymousRole {
        return Failed(InvalidArgument);
      }
      users := users[u := users[u].(role := role)];
      if role == AdminRole {
        access := DropUser(access, u);
      }
      r := Done;
    }

    /** Startup: provisions users, then grants, then tokens, in one transaction. */
    method Provision(cfg: Config) returns (ok: bool)
      requires Valid(Now())
      modifies this`users, this`access
      ensures Valid(Now())
      ensures ok ==> Provisioned(old(Now()), cfg, Now())
      ensures ok ==> RowsAsConfigured(old(users), old(access), cfg, access)
      ensures ok ==> AccountsAsConfigured(old(users), cfg.users, users)
      ensures ok ==> forall i :: 0 <= i < |cfg.users| ==> EntryAccepted(old(users), cfg.hashes, cfg.users[i])
      ensures ok ==> forall u :: u in cfg.access ==> GrantsFit(cfg, users, u)
      ensures ok ==> forall u :: u in cfg.tokens ==>
        u in users && (u == EVERYONE || exists i :: 0 <= i < |cfg.users| && cfg.users[i].name == u)
      ensures !ok ==> Now() == old(Now())
      ensures ok <==>
        && ProvisionUsers(old(Now()), cfg).Some?
        && Accepted(cfg, ProvisionUsers(old(Now()), cfg).value.users)
        && TokensAccepted(cfg, ProvisionUsers(old(Now()), cfg).value.users)
    {
      var usersBefore, accessBefore := users, access;
      ok := ProvisionListedUsers(cfg);
      if ok {
        ok := ProvisionGrants(cfg);
      }
      if ok {
        ok := CheckTokens(cfg);
      }
      if !ok {
        users, access := usersBefore, accessBefore;
      } else {
        AcceptedExactly(cfg, users);
        ProvisionKeepsValid(old(Now()), cfg, Now());
        ProvisionUsersSucceeds(old(Now()), cfg);
        RunRows(old(Now()), cfg, Now());
        RunAccounts(old(Now()), cfg, Now());
      }
    }

    /** Tokens are only for listed users and everyone. */
    method CheckTokens(cfg: Config) returns (ok: bool)
      ensures ok <==> TokensAccepted(cfg, users)
      ensures ok <==> forall u :: u in cfg.tokens ==>
        u in users && (u == EVERYONE || exists i :: 0 <= i < |cfg.users| && cfg.users[i].name == u)
    {
      var todo := cfg.tokens;
      while todo != {}
        invariant todo <= cfg.tokens && forall u :: u in cfg.tokens - todo ==> AcceptedToken(cfg, users, u)
        decreases todo
      {
        var u :| u in todo;
        if (u !in Names(cfg.users) && u != EVERYONE) || u !in users {
          assert !AcceptedToken(cfg, users, u);
          return false;
        }
        todo := todo - {u};
      }
      assert cfg.tokens - todo == cfg.tokens;
      ok := true;
    }

    /** Removes the provisioned users that are no longer listed, then adds or updates the others. */
    method ProvisionListedUsers(cfg: Config) returns (ok: bool)
      modifies this`users, this`access
      ensures ok <==> ProvisionUsers(old(Now()), cfg).Some?
      ensures ok ==> Now() == ProvisionUsers(old(Now()), cfg).value
    {
      var existing := users;
      RemoveUsers(Stale(users, cfg.users));
      ghost var start := Now();
      for i := 0 to |cfg.users|
        invariant AddOrUpdateAll(start, existing, cfg.hashes, cfg.users[..i]) == Some(Now())
      {
        assert cfg.users[..i + 1][..i] == cfg.users[..i];
        var updated := ProvisionUser(existing, cfg.hashes, cfg.users[i]);
        if !updated {
          AddOrUpdateFails(start, existing, cfg.hashes, cfg.users, i + 1);
          return false;
        }
      }
      assert cfg.users[..|cfg.users|] == cfg.users;
      ok := true;
    }

    method RemoveUsers(gone: set<string>)
      modifies this`users, this`access
      ensures Now() == WithoutUsers(old(Now()), gone)
    {
      ghost var before := Now();
      var todo := gone;
      NobodyStale(before);
      assert gone - todo == {};
      while todo != {}
        invariant todo <= gone && Now() == WithoutUsers(before, gone - todo)
        decreases todo
      {
        var n :| n in todo;
        DropOneMore(before, gone - todo, n);
        users := users - {n};
        access := DropUser(access, n);
        todo := todo - {n};
        assert gone - todo == gone - (todo + {n}) + {n};
      }
      assert gone - {} == gone;
    }

    /** One listed user, against the user table as it was when the run began; hashes are those that are
        accepted. */
    method ProvisionUser(existing: map<string, User>, hashes: set<string>, c: Listed) returns (ok: bool)
      modifies this`users, this`access
      ensures ok <==> AddOrUpdate(old(Now()), existing, hashes, c).Some?
      ensures ok ==> Now() == AddOrUpdate(old(Now()), existing, hashes, c).value
    {
      var n := c.name;
      if n == EVERYONE {
        return true;
      }
      if n !in existing {
        if !AllowedUsername(n) || c.role == AnonymousRole || c.hash !in hashes {
          return false;
        }
        if n !in users {
          users := users[n := User(c.role, true, None, c.hash)];
        }
      } else {
        if n in users && !existing[n].provisioned {
          users := users[n := users[n].(provisioned := true)];
        }
        if existing[n].hash != c.hash {
          if c.hash !in hashes {
            return false;
          }
          if n in users {
            users := users[n := users[n].(hash := c.hash)];
          }
        }
        if existing[n].role != c.role {
          if !AllowedUsername(n) || c.role == AnonymousRole {
            return false;
          }
          if n in users {
            users := users[n := users[n].(role := c.role)];
            if c.role == AdminRole {
              access := DropUser(access, n);
            }
          }
        }
        assert n in users ==> users == old(users)[n := users[n]];
      }
      ok := true;
    }

    /** Replaces the provisioned rows by the configured grants, visiting the users in any order. */
    method ProvisionGrants(cfg: Config) returns (ok: bool)
      modifies this`access
      ensures ok <==> Accepted(cfg, users)
      ensures ok ==> Replaced(old(access), cfg.access, access)
    {
      ghost var before := access;
      access := map k | k in access && !access[k].provisioned :: access[k];
      var todo := cfg.access.Keys;
      ghost var done: map<string, seq<Grant>> := map[];
      while todo != {}
        invariant todo <= cfg.access.Keys && done.Keys == cfg.access.Keys - todo
        invariant forall u :: u in done ==> done[u] == cfg.access[u] && AcceptedUser(cfg, users, u)
        invariant Replaced(before, done, access)
        decreases todo
      {
        var u :| u in todo;
        todo := todo - {u};
        var granted := ProvisionGrantsOf(cfg, u, before, done);
        if !granted {
          return false;
        }
        done := done[u := cfg.access[u]];
      }
      assert done == cfg.access;
      ok := true;
    }

    /** One entry of the configured access map. */
    method ProvisionGrantsOf(cfg: Config, u: string, ghost before: Table, ghost done: map<string, seq<Grant>>)
        returns (ok: bool)
      requires u in cfg.access && u !in done && Replaced(before, done, access)
      modifies this`access
      ensures ok <==> AcceptedUser(cfg, users, u)
      ensures ok ==> Replaced(before, done[u := cfg.access[u]], access)
    {
      var role := FindRole(cfg.users, u);
      if role.None? && u != EVERYONE {
        return false;
      } else if role == Some(AdminRole) {
        return false;
      }
      NoGrantsYet(before, done, access, u);
      ok := ProvisionUserGrants(u, cfg.access[u], before, done[u := []]);
      assert done[u := []][u := cfg.access[u]] == done[u := cfg.access[u]];
    }

    /** The grants of one user, each reset and then added. */
    method ProvisionUserGrants(u: string, grants: seq<Grant>, ghost before: Table, ghost done: map<string, seq<Grant>>)
      returns (ok: bool)
      requires u in done && done[u] == [] && Replaced(before, done, access)
      modifies this`access
      ensures ok <==> forall i :: 0 <= i < |grants| ==> AcceptedGrant(users, u, grants[i])
      ensures ok ==> Replaced(before, done[u := grants], access)
    {
      assert done[u := []] == done;
      for i := 0 to |grants|
        invariant forall j :: 0 <= j < i ==> AcceptedGrant(users, u, grants[j])
        invariant Replaced(before, done[u := grants[..i]], access)
      {
        ghost var r := access;
        var granted := ResetAndGrant(u, grants[i]);
        if !granted {
          return false;
        }
        GrantStep(before, done[u := grants[..i]], r, u, grants[i]);
        assert done[u := grants[..i]][u := grants[..i] + [grants[i]]] == done[u := grants[..i + 1]] by {
          assert grants[..i] + [grants[i]] == grants[..i + 1];
        }
      }
      assert grants[..|grants|] == grants;
      ok := true;
    }

    method ResetAndGrant(u: string, g: Grant) returns (ok: bool)
      modifies this`access
      ensures ok <==> AcceptedGrant(users, u, g)
      ensures ok <==> (AllowedUsername(u) || u == EVERYONE) && u in users && AllowedTopicPattern(g.pattern)
      ensures ok ==>
        access == DropTopic(old(access), u, ToSqlWildcard(g.pattern))
          [(u, ToSqlWildcard(g.pattern)) := Row(g.perm, None, true)]
    {
      var outcome := ResetAccess(u, g.pattern);
      if outcome != Done || (!AllowedUsername(u) && u != EVERYONE) || !AllowedTopicPattern(g.pattern) {
        return false;
      }
      outcome := Upsert(u, ToSqlWildcard(g.pattern), g.perm, "", true);
      ok := outcome == Done;
    }
  }

  lemma DropOneMore(st: State, gone: set<string>, n: string)
    ensures State(WithoutUsers(st, gone).users - {n}, st.tiers, DropUser(WithoutUsers(st, gone).access, n))
      == WithoutUsers(st, gone + {n})
  {
    assert st.users - gone - {n} == st.users - (gone + {n});
  }

  lemma {:induction false} AddOrUpdateFails(st: State, existing: map<string, User>, hashes: set<string>,
      cfg: seq<Listed>, i: nat)
    requires i <= |cfg| && AddOrUpdateAll(st, existing, hashes, cfg[..i]).None?
    ensures AddOrUpdateAll(st, existing, hashes, cfg).None?
    decreases |cfg|
  {
    if i < |cfg| {
      assert cfg[..|cfg| - 1][..i] == cfg[..i];
      AddOrUpdateFails(st, existing, hashes, cfg[..|cfg| - 1], i);
    } else {
      assert cfg[..i] == cfg;
    }
  }

  /** The reservations past the limit, from the last one down. */
  method CollectExcess(reservations: seq<string>, limit: nat) returns (topics: seq<string>)
    requires limit < |reservations|
    ensures |topics| == |reservations| - limit
    ensures forall j :: 0 <= j < |topics| ==> topics[j] == reservations[|reservations| - 1 - j]
  {
    topics := [];
    var i := |reservations| - 1;
    while i >= limit
      invariant limit - 1 <= i < |reservations|
      invariant |topics| == |reservations| - 1 - i
      invariant forall j :: 0 <= j < |topics| ==> topics[j] == reservations[|reservations| - 1 - j]
    {
      topics := topics + [reservations[i]];
      i := i - 1;
    }
  }

  lemma ReservedAreTopics(t: Table, u: string)
    requires Owned(t)
    ensures forall j :: 0 <= j < |Sort(Reserved(t, u))| ==> IsStoredTopic(Sort(Reserved(t, u))[j])
  {
    var xs := Sort(Reserved(t, u));
    forall j | 0 <= j < |xs| ensures IsStoredTopic(xs[j]) {
      assert xs[j] in Reserved(t, u);
      assert (u, xs[j]) in t;
    }
  }

  function StoredTopics(topics: seq<string>): set<string> {
    set i | 0 <= i < |topics| :: EscapeUnderscore(topics[i])
  }

  lemma StoredTopicsSnoc(topics: seq<string>, i: nat)
    requires i < |topics|
    ensures StoredTopics(topics[..i + 1]) == StoredTopics(topics[..i]) + {EscapeUnderscore(topics[i])}
  {
    forall s
      ensures s in StoredTopics(topics[..i + 1]) <==> s in StoredTopics(topics[..i]) || s == EscapeUnderscore(topics[i])
    {
      if s in StoredTopics(topics[..i]) {
        var j :| 0 <= j < i && s == EscapeUnderscore(topics[..i][j]);
        assert topics[..i + 1][j] == topics[j];
      }
      assert topics[..i + 1][i] == topics[i];
      if s in StoredTopics(topics[..i + 1]) {
        var j :| 0 <= j < i + 1 && s == EscapeUnderscore(topics[..i + 1][j]);
        if j < i { assert topics[..i][j] == topics[j]; }
      }
    }
  }

  /** The list that TrimReservations collects holds exactly the excess topics. */
  lemma ExcessListed(t: Table, u: string, limit: nat, reservations: seq<string>, topics: seq<string>)
    requires Owned(t) && limit < |Reserved(t, u)| == |reservations|
    requires forall i :: 0 <= i < |reservations| ==> reservations[i] == UnescapeUnderscore(Sort(Reserved(t, u))[i])
    requires |topics| == |reservations| - limit
    requires forall j :: 0 <= j < |topics| ==> topics[j] == reservations[|reservations| - 1 - j]
    ensures topics != [] && StoredTopics(topics) == Excess(t, u, limit)
    ensures forall j :: 0 <= j < |topics| ==> AllowedTopic(topics[j])
  {
    ReservedAreTopics(t, u);
    ExcessTopics(t, u, limit, reservations, topics);
  }

  /** The topics that are listed are those of the rows that the user owns, and no others. */
  lemma ReservationsListed(t: Table, u: string, topics: seq<string>)
    requires |topics| == |Reserved(t, u)|
    requires forall i :: 0 <= i < |topics| ==> topics[i] == UnescapeUnderscore(Sort(Reserved(t, u))[i])
    ensures ListsOwned(t, u, topics)
  {
    var stored := Sort(Reserved(t, u));
    forall i | 0 <= i < |topics| ensures exists s :: OwnedBy(t, u, s) && topics[i] == UnescapeUnderscore(s) {
      assert stored[i] in stored;
      assert OwnedBy(t, u, stored[i]);
    }
    forall s | OwnedBy(t, u, s) ensures UnescapeUnderscore(s) in topics {
      assert s in stored;
      var i :| 0 <= i < |stored| && stored[i] == s;
      assert topics[i] == UnescapeUnderscore(s);
    }
  }

  lemma ExcessTopics(t: Table, u: string, limit: nat, reservations: seq<string>, topics: seq<string>)
    requires limit < |Sort(Reserved(t, u))| == |reservations|
    requires forall i :: 0 <= i < |reservations| ==>
      IsStoredTopic(Sort(Reserved(t, u))[i]) && reservations[i] == UnescapeUnderscore(Sort(Reserved(t, u))[i])
    requires |topics| == |reservations| - limit
    requires forall j :: 0 <= j < |topics| ==> topics[j] == reservations[|reservations| - 1 - j]
    ensures topics != [] && StoredTopics(topics) == Excess(t, u, limit)
    ensures forall j :: 0 <= j < |topics| ==> AllowedTopic(topics[j])
  {
    var xs := Sort(Reserved(t, u));
    forall j | 0 <= j < |topics| ensures EscapeUnderscore(topics[j]) == xs[|xs| - 1 - j] && AllowedTopic(topics[j]) {
      assert IsStoredTopic(xs[|xs| - 1 - j]);
    }
    TailBackwards(xs, limit, topics);
  }

  /** Escaping a list that runs backwards from the end of xs gives the tail of xs, as a set. */
  lemma TailBackwards(xs: seq<string>, limit: nat, topics: seq<string>)
    requires limit <= |xs| && |topics| == |xs| - limit
    requires forall j :: 0 <= j < |topics| ==> EscapeUnderscore(topics[j]) == xs[|xs| - 1 - j]
    ensures StoredTopics(topics) == set i | limit <= i < |xs| :: xs[i]
  {
    var tail := set i | limit <= i < |xs| :: xs[i];
    forall s | s in tail ensures s in StoredTopics(topics) {
      var i :| limit <= i < |xs| && xs[i] == s;
      assert EscapeUnderscore(topics[|xs| - 1 - i]) == s;
    }
    forall s | s in StoredTopics(topics) ensures s in tail {
      var j :| 0 <= j < |topics| && EscapeUnderscore(topics[j]) == s;
    }
  }
}
