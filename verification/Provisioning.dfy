/** Provisioning users and grants from the configuration at startup: what a successful run leaves
    behind, whatever the order in which the grants are visited (user/manager.go). */
module Provisioning {
  import opened Text
  import opened Wildcards
  import opened AccessTable
  import opened AccessSteps

  datatype Grant = Grant(pattern: string, perm: Permission)

  datatype Listed = Listed(name: string, role: Role, hash: string)

  /** The users in the order listed, the grants of each user name, and the names that tokens are listed for;
      hashes are those that are valid and strong enough. */
  datatype Config = Config(users: seq<Listed>, access: map<string, seq<Grant>>, tokens: set<string>,
    hashes: set<string>)

  /** The role of the first listed user with that name. */
  function FindRole(users: seq<Listed>, name: string): Option<Role> {
    if users == [] then None
    else if users[0].name == name then Some(users[0].role)
    else FindRole(users[1..], name)
  }

  /** Of entries with one name the first counts. */
  lemma {:induction false} FindRoleFirst(users: seq<Listed>, name: string)
    ensures FindRole(users, name) == None <==> forall i :: 0 <= i < |users| ==> users[i].name != name
    ensures forall i ::
      0 <= i < |users| && users[i].name == name && (forall j :: 0 <= j < i ==> users[j].name != name) ==>
      FindRole(users, name) == Some(users[i].role)
  {
    if users != [] {
      FindRoleFirst(users[1..], name);
      assert forall i :: 0 < i < |users| ==> users[i] == users[1..][i - 1];
      if users[0].name != name && FindRole(users[1..], name).None? {
        forall i | 0 <= i < |users| ensures users[i].name != name {
          if i > 0 { assert users[1..][i - 1].name != name; }
        }
      }
      forall i | 0 <= i < |users| && users[i].name == name && (forall j :: 0 <= j < i ==> users[j].name != name)
        ensures FindRole(users, name) == Some(users[i].role)
      {
        if i > 0 {
          assert users[0].name != name;
          assert forall j :: 0 <= j < i - 1 ==> users[1..][j] == users[j + 1];
        }
      }
    }
  }

  /* ---- grants ---- */

  function LastGrant(grants: seq<Grant>, stored: string): Option<Permission> {
    if grants == [] then None
    else
      var g := grants[|grants| - 1];
      if ToSqlWildcard(g.pattern) == stored then Some(g.perm)
      else LastGrant(grants[..|grants| - 1], stored)
  }

  predicate Granted(access: map<string, seq<Grant>>, k: Key) {
    k.0 in access && LastGrant(access[k.0], k.1).Some?
  }

  /** A row that was not provisioned and is not owned by a user who is granted the same pattern. */
  predicate Survives(t: Table, access: map<string, seq<Grant>>, k: Key) {
    k in t && !t[k].provisioned && !(t[k].owner.Some? && Granted(access, (t[k].owner.value, k.1)))
  }

  /** r is t with its provisioned rows replaced by the granted ones, the last of duplicates
      winning. */
  ghost predicate Replaced(t: Table, access: map<string, seq<Grant>>, r: Table) {
    forall k: Key ::
      && (k in r <==> Granted(access, k) || Survives(t, access, k))
      && (k in r ==> r[k] == if Granted(access, k) then Row(LastGrant(access[k.0], k.1).value, None, true) else t[k])
  }

  /** The outcome is the same for every order in which the users of the configuration are visited. */
  lemma ReplacedUnique(t: Table, access: map<string, seq<Grant>>, r: Table, q: Table)
    requires Replaced(t, access, r) && Replaced(t, access, q)
    ensures r == q
  {
    assert forall k :: k in r <==> k in q;
  }

  /** Provisioning again changes nothing. */
  lemma ReplacedStable(t: Table, access: map<string, seq<Grant>>, r: Table, q: Table)
    requires Replaced(t, access, r) && Replaced(r, access, q)
    ensures q == r
  {
    assert forall k :: k in r <==> k in q;
  }

  /** Afterwards the provisioned rows are exactly the granted ones. */
  lemma ProvisionedRows(t: Table, access: map<string, seq<Grant>>, r: Table)
    requires Replaced(t, access, r)
    ensures forall k: Key :: k in r && r[k].provisioned <==> Granted(access, k)
  {
    forall k: Key ensures k in r && r[k].provisioned <==> Granted(access, k) {
      assert k in r <==> Granted(access, k) || Survives(t, access, k);
    }
  }

  /** A duplicate grant is overridden by a later one, and only by it. */
  lemma {:induction false} LastGrantWins(grants: seq<Grant>, stored: string)
    ensures LastGrant(grants, stored) == None
      <==> forall i :: 0 <= i < |grants| ==> ToSqlWildcard(grants[i].pattern) != stored
    ensures LastGrant(grants, stored).Some? ==>
      exists i :: 0 <= i < |grants| && ToSqlWildcard(grants[i].pattern) == stored
        && LastGrant(grants, stored).value == grants[i].perm
               && forall j :: i < j < |grants| ==> ToSqlWildcard(grants[j].pattern) != stored
  {
    if grants != [] {
      LastGrantWins(grants[..|grants| - 1], stored);
    }
  }

  /** The step of the loop over one user's grants. */
  lemma GrantStep(t: Table, access: map<string, seq<Grant>>, r: Table, u: string, g: Grant)
    requires Replaced(t, access, r) && u in access
    ensures Replaced(t, access[u := access[u] + [g]],
                     DropTopic(r, u, ToSqlWildcard(g.pattern))
                       [(u, ToSqlWildcard(g.pattern)) := Row(g.perm, None, true)])
  {
    var s := ToSqlWildcard(g.pattern);
    var a1 := access[u := access[u] + [g]];
    var r1 := DropTopic(r, u, s)[(u, s) := Row(g.perm, None, true)];
    assert (access[u] + [g])[..|access[u]|] == access[u];
    forall k: Key
      ensures Granted(a1, k) <==> Granted(access, k) || k == (u, s)
      ensures Granted(access, k) && k != (u, s) ==> LastGrant(a1[k.0], k.1) == LastGrant(access[k.0], k.1)
    {}
    assert LastGrant(a1[u], s) == Some(g.perm);
    forall k: Key
      ensures k in r1 <==> Granted(a1, k) || Survives(t, a1, k)
      ensures k in r1 ==> r1[k] == if Granted(a1, k) then Row(LastGrant(a1[k.0], k.1).value, None, true) else t[k]
    {
      assert k in r <==> Granted(access, k) || Survives(t, access, k);
    }
  }

  lemma NoGrantsYet(t: Table, access: map<string, seq<Grant>>, r: Table, u: string)
    requires Replaced(t, access, r) && u !in access
    ensures Replaced(t, access[u := []], r)
  {
    var a1 := access[u := []];
    forall k: Key
      ensures k in r <==> Granted(a1, k) || Survives(t, a1, k)
      ensures k in r ==> r[k] == if Granted(a1, k) then Row(LastGrant(a1[k.0], k.1).value, None, true) else t[k]
    {
      assert k in r <==> Granted(access, k) || Survives(t, access, k);
      assert Granted(a1, k) <==> Granted(access, k);
      assert forall o :: Granted(a1, (o, k.1)) <==> Granted(access, (o, k.1));
    }
  }

  /** The configurations whose grants are accepted: every name is a listed user or everyone, none is
      an admin, and every grant is for an existing user and a valid pattern. */
  predicate Accepted(cfg: Config, users: map<string, User>) {
    forall u :: u in cfg.access ==> AcceptedUser(cfg, users, u)
  }

  predicate AcceptedUser(cfg: Config, users: map<string, User>, u: string)
    requires u in cfg.access
  {
    && (FindRole(cfg.users, u).Some? || u == EVERYONE)
    && FindRole(cfg.users, u) != Some(AdminRole)
    && (forall i :: 0 <= i < |cfg.access[u]| ==> AcceptedGrant(users, u, cfg.access[u][i]))
  }

  /** The names that tokens are listed for are accepted. */
  predicate TokensAccepted(cfg: Config, users: map<string, User>) {
    forall u :: u in cfg.tokens ==> AcceptedToken(cfg, users, u)
  }

  predicate AcceptedToken(cfg: Config, users: map<string, User>, u: string) {
    (u in Names(cfg.users) || u == EVERYONE) && u in users
  }

  predicate AcceptedGrant(users: map<string, User>, u: string, g: Grant) {
    (AllowedUsername(u) || u == EVERYONE) && u in users && AllowedTopicPattern(g.pattern)
  }

  lemma ReplacedKeepsOwned(t: Table, access: map<string, seq<Grant>>, r: Table)
    requires Owned(t) && Replaced(t, access, r)
    ensures Owned(r)
    ensures forall k :: k in r && r[k].owner.Some? ==> k in t && r[k] == t[k]
  {
    forall k | k in r && r[k].owner.Some? ensures k in t && r[k] == t[k] {
      assert k in r <==> Granted(access, k) || Survives(t, access, k);
    }
  }

  lemma GrantedPattern(cfg: Config, users: map<string, User>, k: Key)
    requires Accepted(cfg, users) && Granted(cfg.access, k)
    ensures IsStoredPattern(k.1) && k.0 in users
  {
    LastGrantWins(cfg.access[k.0], k.1);
    assert AcceptedUser(cfg, users, k.0);
    var i :| 0 <= i < |cfg.access[k.0]| && ToSqlWildcard(cfg.access[k.0][i].pattern) == k.1;
    StoredPattern(cfg.access[k.0][i].pattern);
  }

  /** Replacing the provisioned rows keeps the tables consistent, ownership included. */
  lemma ReplacedKeepsValid(st: State, cfg: Config, r: Table)
    requires Valid(st) && Accepted(cfg, st.users) && Replaced(st.access, cfg.access, r)
    ensures Valid(st.(access := r))
  {
    ReplacedKeepsOwned(st.access, cfg.access, r);
    forall k | k in r ensures IsStoredPattern(k.1) && k.0 in st.users {
      assert k in r <==> Granted(cfg.access, k) || Survives(st.access, cfg.access, k);
      if Granted(cfg.access, k) { GrantedPattern(cfg, st.users, k); }
    }
  }

  /* ---- users ---- */

  function Names(users: seq<Listed>): set<string> {
    set i | 0 <= i < |users| :: users[i].name
  }

  ghost predicate FirstListed(users: seq<Listed>, name: string, i: int) {
    0 <= i < |users| && users[i].name == name && forall j :: 0 <= j < i ==> users[j].name != name
  }

  lemma {:induction false} FirstExists(users: seq<Listed>, name: string, n: nat)
    requires n <= |users| && exists i :: 0 <= i < n && users[i].name == name
    ensures exists i :: FirstListed(users, name, i)
  {
    var i :| 0 <= i < n && users[i].name == name;
    if exists j :: 0 <= j < i && users[j].name == name {
      FirstExists(users, name, i);
    } else {
      assert FirstListed(users, name, i);
    }
  }

  /** What is granted to a name can be: it is listed, and not first as an admin, or it is everyone; and every
      grant is for an existing user and a valid pattern. */
  ghost predicate GrantsFit(cfg: Config, users: map<string, User>, u: string)
    requires u in cfg.access
  {
    && (u == EVERYONE || exists i :: FirstListed(cfg.users, u, i))
    && (forall i :: FirstListed(cfg.users, u, i) ==> cfg.users[i].role != AdminRole)
    && (forall i :: 0 <= i < |cfg.access[u]| ==> AcceptedGrant(users, u, cfg.access[u][i]))
  }

  lemma AcceptedUserExactly(cfg: Config, users: map<string, User>, u: string)
    requires u in cfg.access
    ensures AcceptedUser(cfg, users, u) <==> GrantsFit(cfg, users, u)
  {
    FirstRole(cfg.users, u);
  }

  lemma FirstRole(users: seq<Listed>, name: string)
    ensures FindRole(users, name).Some? <==> exists i :: FirstListed(users, name, i)
    ensures forall i :: FirstListed(users, name, i) ==> FindRole(users, name) == Some(users[i].role)
  {
    FindRoleFirst(users, name);
    if FindRole(users, name).Some? { FirstExists(users, name, |users|); }
  }

  lemma AcceptedExactly(cfg: Config, users: map<string, User>)
    ensures Accepted(cfg, users) <==> forall u :: u in cfg.access ==> GrantsFit(cfg, users, u)
  {
    forall u | u in cfg.access ensures AcceptedUser(cfg, users, u) <==> GrantsFit(cfg, users, u) {
      AcceptedUserExactly(cfg, users, u);
    }
  }

  /** Provisioned users that are no longer listed. */
  function Stale(users: map<string, User>, cfg: seq<Listed>): set<string> {
    set n | n in users && n != EVERYONE && users[n].provisioned && n !in Names(cfg)
  }

  /** One listed user is added or updated; existing is the user table at the start of the run. */
  function AddOrUpdate(st: State, existing: map<string, User>, hashes: set<string>, c: Listed): Option<State> {
    var n := c.name;
    if n == EVERYONE then Some(st)
    else if n !in existing then
      if !AllowedUsername(n) || c.role == AnonymousRole || c.hash !in hashes then None
      else if n in st.users then Some(st)
      else Some(st.(users := st.users[n := User(c.role, true, None, c.hash)]))
    else if existing[n].hash != c.hash && c.hash !in hashes then None
    else if existing[n].role != c.role && (!AllowedUsername(n) || c.role == AnonymousRole) then None
    else if n !in st.users then Some(st)
    else Some(st.(users := st.users[n := Updated(st.users[n], existing[n], c)],
                  access :=
                    if existing[n].role != c.role && c.role == AdminRole then DropUser(st.access, n) else st.access))
  }

  /** Only what differed at the start of the run is changed. */
  function Updated(user: User, was: User, c: Listed): User {
    user.(provisioned := if was.provisioned then user.provisioned else true,
          hash := if was.hash != c.hash then c.hash else user.hash,
          role := if was.role != c.role then c.role else user.role)
  }

  function AddOrUpdateAll(st: State, existing: map<string, User>, hashes: set<string>,
      cfg: seq<Listed>): Option<State> {
    if cfg == [] then Some(st)
    else
      match AddOrUpdateAll(st, existing, hashes, cfg[..|cfg| - 1])
      case None => None
      case Some(mid) => AddOrUpdate(mid, existing, hashes, cfg[|cfg| - 1])
  }

  function DropUsers(t: Table, gone: set<string>): Table {
    map k | k in t && k.0 !in gone && !(t[k].owner.Some? && t[k].owner.value in gone) :: t[k]
  }

  function WithoutUsers(st: State, gone: set<string>): State {
    st.(users := st.users - gone, access := DropUsers(st.access, gone))
  }

  /** Removes stale users, then adds or updates the listed ones; None when a statement fails. */
  function ProvisionUsers(st: State, cfg: Config): Option<State> {
    AddOrUpdateAll(WithoutUsers(st, Stale(st.users, cfg.users)), st.users, cfg.hashes, cfg.users)
  }

  predicate ListedFor(cfg: seq<Listed>, n: string, i: int) {
    0 <= i < |cfg| && cfg[i].name == n && n != EVERYONE
  }

  /** No user is listed with two roles or two passwords. */
  ghost predicate EntriesAgree(cfg: seq<Listed>) {
    forall n, i, j :: ListedFor(cfg, n, i) && ListedFor(cfg, n, j) ==> cfg[i] == cfg[j]
  }

  /** What the configuration loader lets through. */
  ghost predicate Loadable(cfg: seq<Listed>, hashes: set<string>) {
    forall i :: 0 <= i < |cfg| ==> AllowedUsername(cfg[i].name) && cfg[i].role != AnonymousRole && cfg[i].hash in hashes
  }

  predicate HasEntry(users: map<string, User>, c: Listed) {
    c.name in users && users[c.name].provisioned && users[c.name].role == c.role && users[c.name].hash == c.hash
  }

  ghost predicate AllEntries(users: map<string, User>, cfg: seq<Listed>) {
    forall n, i :: ListedFor(cfg, n, i) ==> HasEntry(users, cfg[i])
  }

  /** Every listed user exists, is marked as provisioned and has the listed role and password, and no other
      user is marked. */
  ghost predicate Settled(users: map<string, User>, cfg: seq<Listed>) {
    AllEntries(users, cfg) && Stale(users, cfg) == {}
  }

  lemma {:induction false} SettledUsersStay(st: State, existing: map<string, User>, hashes: set<string>,
      cfg: seq<Listed>)
    requires existing == st.users
    requires forall n, i :: ListedFor(cfg, n, i) ==> HasEntry(existing, cfg[i])
    ensures AddOrUpdateAll(st, existing, hashes, cfg) == Some(st)
  {
    if cfg != [] {
      var front, c := cfg[..|cfg| - 1], cfg[|cfg| - 1];
      forall n, i | ListedFor(front, n, i) ensures HasEntry(existing, front[i]) {
        assert ListedFor(cfg, n, i) && HasEntry(existing, cfg[i]);
      }
      SettledUsersStay(st, existing, hashes, front);
      if c.name != EVERYONE {
        assert ListedFor(cfg, c.name, |cfg| - 1) && HasEntry(existing, c);
        assert st.users[c.name := st.users[c.name]] == st.users;
      }
    }
  }

  lemma NamesSnoc(cfg: seq<Listed>)
    requires cfg != []
    ensures Names(cfg) == Names(cfg[..|cfg| - 1]) + {cfg[|cfg| - 1].name}
  {
    var front := cfg[..|cfg| - 1];
    forall n ensures n in Names(cfg) <==> n in Names(front) || n == cfg[|cfg| - 1].name {
      if n in Names(cfg) { var i :| 0 <= i < |cfg| && cfg[i].name == n; if i < |front| { assert front[i].name == n; } }
      if n in Names(front) { var i :| 0 <= i < |front| && front[i].name == n; assert cfg[i].name == n; }
      assert cfg[|cfg| - 1].name in Names(cfg);
    }
  }

  lemma UpdateOne(st: State, existing: map<string, User>, hashes: set<string>, c: Listed)
    requires AddOrUpdate(st, existing, hashes, c).Some? && c.name != EVERYONE
    requires c.name in existing || c.name in st.users ==>
      HasEntry(st.users, c) || (c.name in existing && c.name in st.users && st.users[c.name] == existing[c.name])
    ensures HasEntry(AddOrUpdate(st, existing, hashes, c).value.users, c)
  {}

  lemma UpdateOthers(st: State, existing: map<string, User>, hashes: set<string>, c: Listed)
    requires AddOrUpdate(st, existing, hashes, c).Some?
    ensures var next := AddOrUpdate(st, existing, hashes, c).value.users;
      forall n :: n != c.name || c.name == EVERYONE ==>
        (n in next <==> n in st.users) && (n in next ==> next[n] == st.users[n])
  {}

  ghost predicate OthersKept(users: map<string, User>, next: map<string, User>, cfg: seq<Listed>) {
    forall n :: n == EVERYONE || n !in Names(cfg) ==> (n in next <==> n in users) && (n in next ==> next[n] == users[n])
  }

  lemma UpdatedLast(users: map<string, User>, mid: State, existing: map<string, User>, hashes: set<string>,
      cfg: seq<Listed>)
    requires cfg != [] && EntriesAgree(cfg) && AddOrUpdate(mid, existing, hashes, cfg[|cfg| - 1]).Some?
    requires AllEntries(mid.users, cfg[..|cfg| - 1]) && OthersKept(users, mid.users, cfg[..|cfg| - 1])
    requires forall n :: n in users ==> n in existing && users[n] == existing[n]
    requires forall n :: n in Names(cfg) && n in existing ==> n in users
    ensures AllEntries(AddOrUpdate(mid, existing, hashes, cfg[|cfg| - 1]).value.users, cfg)
    ensures OthersKept(users, AddOrUpdate(mid, existing, hashes, cfg[|cfg| - 1]).value.users, cfg)
  {
    var front, c := cfg[..|cfg| - 1], cfg[|cfg| - 1];
    NamesSnoc(cfg);
    UpdateOthers(mid, existing, hashes, c);
    if c.name != EVERYONE {
      if c.name in Names(front) { AgreesWithEarlier(cfg, mid.users); }
      UpdateOne(mid, existing, hashes, c);
    }
    EntriesStay(mid.users, AddOrUpdate(mid, existing, hashes, c).value.users, cfg);
  }

  lemma EntriesStay(users: map<string, User>, next: map<string, User>, cfg: seq<Listed>)
    requires cfg != [] && EntriesAgree(cfg) && AllEntries(users, cfg[..|cfg| - 1])
    requires cfg[|cfg| - 1].name == EVERYONE || HasEntry(next, cfg[|cfg| - 1])
    requires forall n :: n in users && n != cfg[|cfg| - 1].name ==> n in next && next[n] == users[n]
    ensures AllEntries(next, cfg)
  {
    var front, c := cfg[..|cfg| - 1], cfg[|cfg| - 1];
    forall n, i | ListedFor(cfg, n, i) ensures HasEntry(next, cfg[i]) {
      if n == c.name {
        assert ListedFor(cfg, n, |cfg| - 1);
      } else {
        assert ListedFor(front, n, i);
      }
    }
  }

  lemma AgreesWithEarlier(cfg: seq<Listed>, users: map<string, User>)
    requires cfg != [] && EntriesAgree(cfg) && AllEntries(users, cfg[..|cfg| - 1])
    requires cfg[|cfg| - 1].name in Names(cfg[..|cfg| - 1]) && cfg[|cfg| - 1].name != EVERYONE
    ensures HasEntry(users, cfg[|cfg| - 1])
  {
    var front, n := cfg[..|cfg| - 1], cfg[|cfg| - 1].name;
    var i :| 0 <= i < |front| && front[i].name == n;
    assert ListedFor(front, n, i) && ListedFor(cfg, n, i) && ListedFor(cfg, n, |cfg| - 1);
  }

  /** Listed users end up with the listed role and password, the others keep their entry. */
  lemma {:induction false} UpdatedUsers(st: State, existing: map<string, User>, hashes: set<string>, cfg: seq<Listed>)
    requires EntriesAgree(cfg) && AddOrUpdateAll(st, existing, hashes, cfg).Some?
    requires forall n :: n in st.users ==> n in existing && st.users[n] == existing[n]
    requires forall n :: n in Names(cfg) && n in existing ==> n in st.users
    ensures AllEntries(AddOrUpdateAll(st, existing, hashes, cfg).value.users, cfg)
    ensures OthersKept(st.users, AddOrUpdateAll(st, existing, hashes, cfg).value.users, cfg)
  {
    if cfg != [] {
      var front := cfg[..|cfg| - 1];
      NamesSnoc(cfg);
      assert forall n, i :: ListedFor(front, n, i) ==> ListedFor(cfg, n, i);
      UpdatedUsers(st, existing, hashes, front);
      UpdatedLast(st.users, AddOrUpdateAll(st, existing, hashes, front).value, existing, hashes, cfg);
    }
  }

  /** After a successful run over users that are listed consistently, the table is settled. */
  lemma ProvisionSettles(st: State, cfg: Config)
    requires EntriesAgree(cfg.users) && ProvisionUsers(st, cfg).Some?
    ensures Settled(ProvisionUsers(st, cfg).value.users, cfg.users)
  {
    var start := WithoutUsers(st, Stale(st.users, cfg.users));
    UpdatedUsers(start, st.users, cfg.hashes, cfg.users);
    var next := ProvisionUsers(st, cfg).value.users;
    assert forall n :: n in next && n !in Names(cfg.users) ==> n in start.users && n !in Stale(st.users, cfg.users);
  }

  lemma SettledRun(st: State, cfg: Config)
    requires Settled(st.users, cfg.users)
    ensures ProvisionUsers(st, cfg) == Some(st)
  {
    assert st.users - {} == st.users;
    assert DropUsers(st.access, {}) == st.access;
    SettledUsersStay(st, st.users, cfg.hashes, cfg.users);
  }

  /** One whole run: users first, then grants, then tokens; a state that a successful run may leave. */
  ghost predicate Provisioned(st: State, cfg: Config, next: State) {
    match ProvisionUsers(st, cfg)
    case None => false
    case Some(mid) =>
      Accepted(cfg, mid.users) && TokensAccepted(cfg, mid.users) && next.users == mid.users && next.tiers == mid.tiers
        && Replaced(mid.access, cfg.access, next.access)
  }

  /** A successful run leaves one state, whatever the visiting order, and the next run succeeds and
      leaves it as it is. */
  lemma ProvisionTwice(st: State, cfg: Config, a: State, b: State)
    requires EntriesAgree(cfg.users) && Provisioned(st, cfg, a)
    ensures Provisioned(st, cfg, b) ==> a == b
    ensures Provisioned(a, cfg, a)
    ensures Provisioned(a, cfg, b) ==> a == b
  {
    var mid := ProvisionUsers(st, cfg).value;
    ProvisionSettles(st, cfg);
    SettledRun(a, cfg);
    if Provisioned(st, cfg, b) { ReplacedUnique(mid.access, cfg.access, a.access, b.access); }
    forall k: Key
      ensures k in a.access <==> Granted(cfg.access, k) || Survives(a.access, cfg.access, k)
      ensures k in a.access ==>
        a.access[k] == if Granted(cfg.access, k) then Row(LastGrant(cfg.access[k.0], k.1).value, None, true)
          else a.access[k]
    {
      assert k in a.access <==> Granted(cfg.access, k) || Survives(mid.access, cfg.access, k);
    }
    if Provisioned(a, cfg, b) { ReplacedUnique(a.access, cfg.access, a.access, b.access); }
  }

  lemma WithoutUsersKeepsValid(st: State, gone: set<string>)
    requires Valid(st) && EVERYONE !in gone
    ensures Valid(WithoutUsers(st, gone))
  {
    assert Shrinks(st.access, DropUsers(st.access, gone));
    OwnedShrinks(st.access, DropUsers(st.access, gone));
  }

  lemma PutUserKeepsValid(st: State, n: string, user: User, r: Table)
    requires Valid(st) && n != EVERYONE && AllowedUsername(n) && user.role != AnonymousRole
    requires (user.tier.None? || user.tier.value in st.tiers) && Shrinks(st.access, r)
    ensures Valid(st.(users := st.users[n := user], access := r))
  {
    OwnedShrinks(st.access, r);
  }

  lemma AddOrUpdateKeepsValid(st: State, existing: map<string, User>, hashes: set<string>, c: Listed)
    requires Valid(st) && AddOrUpdate(st, existing, hashes, c).Some?
    ensures Valid(AddOrUpdate(st, existing, hashes, c).value)
  {
    var n, next := c.name, AddOrUpdate(st, existing, hashes, c).value;
    if next != st {
      assert n != EVERYONE && next.users == st.users[n := next.users[n]] && next.tiers == st.tiers;
      PutUserKeepsValid(st, n, next.users[n], next.access);
    }
  }

  lemma {:induction false} AddOrUpdateAllKeepsValid(st: State, existing: map<string, User>, hashes: set<string>,
      cfg: seq<Listed>)
    requires Valid(st) && AddOrUpdateAll(st, existing, hashes, cfg).Some?
    ensures Valid(AddOrUpdateAll(st, existing, hashes, cfg).value)
  {
    if cfg != [] {
      AddOrUpdateAllKeepsValid(st, existing, hashes, cfg[..|cfg| - 1]);
      AddOrUpdateKeepsValid(AddOrUpdateAll(st, existing, hashes, cfg[..|cfg| - 1]).value, existing, hashes,
        cfg[|cfg| - 1]);
    }
  }

  /** A run leaves consistent tables; in particular every topic keeps at most one reservation. */
  lemma ProvisionKeepsValid(st: State, cfg: Config, next: State)
    requires Valid(st) && Provisioned(st, cfg, next)
    ensures Valid(next)
  {
    var mid := ProvisionUsers(st, cfg).value;
    WithoutUsersKeepsValid(st, Stale(st.users, cfg.users));
    AddOrUpdateAllKeepsValid(WithoutUsers(st, Stale(st.users, cfg.users)), st.users, cfg.hashes, cfg.users);
    ReplacedKeepsValid(mid, cfg, next.access);
  }

  /* ---- what a run does, entry by entry and row by row ---- */

  /** The entry can be added, or what differs from the user at the start can be changed. */
  predicate EntryAccepted(existing: map<string, User>, hashes: set<string>, c: Listed) {
    || c.name == EVERYONE
    || (if c.name in existing
        then (existing[c.name].hash == c.hash || c.hash in hashes)
          && (existing[c.name].role == c.role || (AllowedUsername(c.name) && c.role != AnonymousRole))
        else AllowedUsername(c.name) && c.role != AnonymousRole && c.hash in hashes)
  }

  lemma {:induction false} AllAccepted(st: State, existing: map<string, User>, hashes: set<string>, cfg: seq<Listed>)
    ensures AddOrUpdateAll(st, existing, hashes, cfg).Some? <==>
            forall i :: 0 <= i < |cfg| ==> EntryAccepted(existing, hashes, cfg[i])
  {
    if cfg != [] {
      var front := cfg[..|cfg| - 1];
      AllAccepted(st, existing, hashes, front);
      assert forall i :: 0 <= i < |front| ==> front[i] == cfg[i];
    }
  }

  /** Provisioning the users succeeds if and only if every entry is accepted. */
  lemma ProvisionUsersSucceeds(st: State, cfg: Config)
    ensures ProvisionUsers(st, cfg).Some? <==>
            forall i :: 0 <= i < |cfg.users| ==> EntryAccepted(st.users, cfg.hashes, cfg.users[i])
  {
    AllAccepted(WithoutUsers(st, Stale(st.users, cfg.users)), st.users, cfg.hashes, cfg.users);
  }

  /** A provisioned user that is no longer listed. */
  ghost predicate IsStale(users: map<string, User>, cfg: seq<Listed>, n: string) {
    n in users && n != EVERYONE && users[n].provisioned && forall i :: 0 <= i < |cfg| ==> cfg[i].name != n
  }

  /** A user listed as admin who was something else. */
  ghost predicate Promoted(users: map<string, User>, cfg: seq<Listed>, n: string) {
    n != EVERYONE && n in users && users[n].role != AdminRole &&
    exists i :: 0 <= i < |cfg| && cfg[i].name == n && cfg[i].role == AdminRole
  }

  ghost predicate PromotedOf(users: map<string, User>, cfg: seq<Listed>, t: Table, k: Key)
    requires k in t
  {
    Promoted(users, cfg, k.0) || (t[k].owner.Some? && Promoted(users, cfg, t[k].owner.value))
  }

  lemma PromotedSnoc(users: map<string, User>, cfg: seq<Listed>, n: string)
    requires cfg != []
    ensures var c := cfg[|cfg| - 1];
      Promoted(users, cfg, n) <==>
      Promoted(users, cfg[..|cfg| - 1], n)
      || (n == c.name && n != EVERYONE && n in users && users[n].role != AdminRole && c.role == AdminRole)
  {
    var front, c := cfg[..|cfg| - 1], cfg[|cfg| - 1];
    if i :| 0 <= i < |cfg| && cfg[i].name == n && cfg[i].role == AdminRole {
      if i < |front| { assert front[i].name == n && front[i].role == AdminRole; }
    }
    if i :| 0 <= i < |front| && front[i].name == n && front[i].role == AdminRole {
      assert cfg[i].name == n && cfg[i].role == AdminRole;
    }
    if c.name == n && c.role == AdminRole { assert cfg[|cfg| - 1].name == n; }
  }

  /** What adding or updating one user does to the rows. */
  lemma RowsAfterOne(st: State, existing: map<string, User>, hashes: set<string>, c: Listed)
    requires AddOrUpdate(st, existing, hashes, c).Some?
    requires c.name in existing ==> c.name in st.users
    ensures AddOrUpdate(st, existing, hashes, c).value.access ==
      if c.name != EVERYONE && c.name in existing && existing[c.name].role != AdminRole && c.role == AdminRole
      then DropUser(st.access, c.name) else st.access
    ensures st.users.Keys <= AddOrUpdate(st, existing, hashes, c).value.users.Keys
  {}

  /** Adding and updating users drops exactly the rows of those who become admins, and the rows they own. */
  lemma {:induction false} RowsAfterAll(st: State, existing: map<string, User>, hashes: set<string>, cfg: seq<Listed>)
    requires AddOrUpdateAll(st, existing, hashes, cfg).Some?
    requires forall n :: n in Names(cfg) && n in existing ==> n in st.users
    ensures var r := AddOrUpdateAll(st, existing, hashes, cfg).value;
      && (forall k :: k in r.access <==> k in st.access && !PromotedOf(existing, cfg, st.access, k))
      && (forall k :: k in r.access ==> r.access[k] == st.access[k])
      && st.users.Keys <= r.users.Keys
  {
    if cfg != [] {
      var front, c := cfg[..|cfg| - 1], cfg[|cfg| - 1];
      NamesSnoc(cfg);
      RowsAfterAll(st, existing, hashes, front);
      RowsAfterOne(AddOrUpdateAll(st, existing, hashes, front).value, existing, hashes, c);
      forall n ensures Promoted(existing, cfg, n) <==>
        Promoted(existing, front, n)
        || (n == c.name && n != EVERYONE && n in existing && existing[n].role != AdminRole && c.role == AdminRole)
      {
        PromotedSnoc(existing, cfg, n);
      }
    }
  }

  /** No configured grant is for this pattern and this row's user, or its owner. */
  ghost predicate Undisplaced(t: Table, access: map<string, seq<Grant>>, k: Key)
    requires k in t
  {
    !IsGranted(access, k.0, k.1) && (t[k].owner.Some? ==> !IsGranted(access, t[k].owner.value, k.1))
  }

  ghost predicate IsGranted(access: map<string, seq<Grant>>, u: string, stored: string) {
    u in access && exists i :: 0 <= i < |access[u]| && ToSqlWildcard(access[u][i].pattern) == stored
  }

  /** The grant is the last one listed for its user and pattern. */
  ghost predicate LastListed(access: map<string, seq<Grant>>, u: string, i: int) {
    && u in access && 0 <= i < |access[u]|
    && forall j :: i < j < |access[u]| ==> ToSqlWildcard(access[u][j].pattern) != ToSqlWildcard(access[u][i].pattern)
  }

  ghost predicate RemovedOf(users: map<string, User>, cfg: seq<Listed>, t: Table, k: Key)
    requires k in t
  {
    IsStale(users, cfg, k.0) || (t[k].owner.Some? && IsStale(users, cfg, t[k].owner.value))
  }

  lemma StaleMeans(users: map<string, User>, cfg: seq<Listed>, n: string)
    ensures n in Stale(users, cfg) <==> IsStale(users, cfg, n)
  {
    if n !in Names(cfg) {
      forall i | 0 <= i < |cfg| ensures cfg[i].name != n { assert cfg[i].name in Names(cfg); }
    }
  }

  lemma GrantedMeans(access: map<string, seq<Grant>>, k: Key)
    ensures Granted(access, k) <==> IsGranted(access, k.0, k.1)
  {
    if k.0 in access { LastGrantWins(access[k.0], k.1); }
  }

  /** The last grant listed for a user and pattern is the row that the run leaves. */
  lemma GrantedRow(access: map<string, seq<Grant>>, u: string, i: int)
    requires LastListed(access, u, i)
    ensures LastGrant(access[u], ToSqlWildcard(access[u][i].pattern)) == Some(access[u][i].perm)
  {
    var stored := ToSqlWildcard(access[u][i].pattern);
    LastGrantWins(access[u], stored);
    var j :| 0 <= j < |access[u]| && ToSqlWildcard(access[u][j].pattern) == stored
      && LastGrant(access[u], stored).value == access[u][j].perm
      && forall l :: j < l < |access[u]| ==> ToSqlWildcard(access[u][l].pattern) != stored;
    assert i == j;
  }

  /** A successful run leaves the last grant listed for each user and pattern, as a provisioned row without an
      owner, and of the other rows exactly those that were there unprovisioned, that no grant displaces, and
      whose user and owner have neither been removed nor become admins. */
  ghost predicate RowsAsConfigured(users: map<string, User>, t: Table, cfg: Config, r: Table) {
    && (forall u, i :: LastListed(cfg.access, u, i) ==>
          var k := (u, ToSqlWildcard(cfg.access[u][i].pattern));
          k in r && r[k] == Row(cfg.access[u][i].perm, None, true))
    && (forall k: Key :: !IsGranted(cfg.access, k.0, k.1) ==>
          && (k in r <==> k in t && !t[k].provisioned && Undisplaced(t, cfg.access, k)
                          && !RemovedOf(users, cfg.users, t, k) && !PromotedOf(users, cfg.users, t, k))
          && (k in r ==> r[k] == t[k]))
  }

  lemma RowsAfterUsers(st: State, cfg: Config)
    requires ProvisionUsers(st, cfg).Some?
    ensures var r := ProvisionUsers(st, cfg).value.access;
      && (forall k :: k in r <==>
            k in st.access && !RemovedOf(st.users, cfg.users, st.access, k)
              && !PromotedOf(st.users, cfg.users, st.access, k))
      && (forall k :: k in r ==> r[k] == st.access[k])
  {
    var stale := Stale(st.users, cfg.users);
    var start := WithoutUsers(st, stale);
    RowsAfterAll(start, st.users, cfg.hashes, cfg.users);
    forall n ensures n in stale <==> IsStale(st.users, cfg.users, n) { StaleMeans(st.users, cfg.users, n); }
  }

  lemma RunRows(st: State, cfg: Config, next: State)
    requires Provisioned(st, cfg, next)
    ensures RowsAsConfigured(st.users, st.access, cfg, next.access)
  {
    var mid := ProvisionUsers(st, cfg).value.access;
    RowsAfterUsers(st, cfg);
    forall k: Key ensures Granted(cfg.access, k) <==> IsGranted(cfg.access, k.0, k.1) { GrantedMeans(cfg.access, k); }
    forall u, i | LastListed(cfg.access, u, i)
      ensures var k := (u, ToSqlWildcard(cfg.access[u][i].pattern));
        k in next.access && next.access[k] == Row(cfg.access[u][i].perm, None, true)
    {
      GrantedRow(cfg.access, u, i);
      assert Granted(cfg.access, (u, ToSqlWildcard(cfg.access[u][i].pattern)));
    }
    forall k: Key | !IsGranted(cfg.access, k.0, k.1)
      ensures k in next.access <==>
        k in st.access && !st.access[k].provisioned && Undisplaced(st.access, cfg.access, k)
        && !RemovedOf(st.users, cfg.users, st.access, k) && !PromotedOf(st.users, cfg.users, st.access, k)
      ensures k in next.access ==> next.access[k] == st.access[k]
    {
      assert k in next.access <==> Granted(cfg.access, k) || Survives(mid, cfg.access, k);
    }
  }

  /** A successful run keeps the tier of every user who stays, gives none to new ones, leaves users that are
      not listed alone, and has exactly the users of before and those listed, without the stale ones. */
  ghost predicate AccountsAsConfigured(users: map<string, User>, cfg: seq<Listed>, next: map<string, User>) {
    && (forall n :: n in next <==> (n in users && !IsStale(users, cfg, n)) || (n != EVERYONE && n in Names(cfg)))
    && (forall n :: n in next ==> next[n].tier == if n in users then users[n].tier else None)
    && (forall n :: n in next && n in users && (n == EVERYONE || n !in Names(cfg)) ==> next[n] == users[n])
  }

  lemma {:induction false} AccountsAfterAll(st: State, existing: map<string, User>, hashes: set<string>,
      cfg: seq<Listed>)
    requires AddOrUpdateAll(st, existing, hashes, cfg).Some?
    requires forall n :: n in Names(cfg) && n in existing ==> n in st.users
    ensures var r := AddOrUpdateAll(st, existing, hashes, cfg).value.users;
      && (forall n :: n in r <==> n in st.users || (n != EVERYONE && n in Names(cfg)))
      && (forall n :: n in r ==> r[n].tier == if n in st.users then st.users[n].tier else None)
      && (forall n :: n in r && n in st.users && (n == EVERYONE || n !in Names(cfg)) ==> r[n] == st.users[n])
  {
    if cfg != [] {
      NamesSnoc(cfg);
      AccountsAfterAll(st, existing, hashes, cfg[..|cfg| - 1]);
    }
  }

  lemma RunAccounts(st: State, cfg: Config, next: State)
    requires Provisioned(st, cfg, next)
    ensures AccountsAsConfigured(st.users, cfg.users, next.users) && next.tiers == st.tiers
  {
    var stale := Stale(st.users, cfg.users);
    AccountsAfterAll(WithoutUsers(st, stale), st.users, cfg.hashes, cfg.users);
    TiersStay(WithoutUsers(st, stale), st.users, cfg.hashes, cfg.users);
    forall n ensures n in stale <==> IsStale(st.users, cfg.users, n) { StaleMeans(st.users, cfg.users, n); }
  }

  lemma {:induction false} TiersStay(st: State, existing: map<string, User>, hashes: set<string>, cfg: seq<Listed>)
    requires AddOrUpdateAll(st, existing, hashes, cfg).Some?
    ensures AddOrUpdateAll(st, existing, hashes, cfg).value.tiers == st.tiers
  {
    if cfg != [] { TiersStay(st, existing, hashes, cfg[..|cfg| - 1]); }
  }

  /* ---- users listed with two roles or passwords ---- */

  const NEW := State(map[EVERYONE := User(AnonymousRole, false, None, "")], map[], map[])

  lemma {:induction false} FirstEntryWins(cfg: seq<Listed>, hashes: set<string>)
    requires Loadable(cfg, hashes)
    ensures AddOrUpdateAll(NEW, NEW.users, hashes, cfg).Some?
    ensures var next := AddOrUpdateAll(NEW, NEW.users, hashes, cfg).value.users;
      && (forall n :: n in next ==> n == EVERYONE || (n in Names(cfg) && next[n].provisioned))
      && (forall n, i :: ListedFor(cfg, n, i) ==> n in next)
  {
    if cfg != [] {
      var front := cfg[..|cfg| - 1];
      FirstEntryWins(front, hashes);
      NamesSnoc(cfg);
      var next := AddOrUpdateAll(NEW, NEW.users, hashes, cfg).value.users;
      forall n, i | ListedFor(cfg, n, i) ensures n in next {
        if i < |front| { assert ListedFor(front, n, i); }
      }
    }
  }

  predicate Same(user: User, c: Listed) { user.role == c.role && user.hash == c.hash }

  /** Some entry lists n otherwise than the user is. */
  ghost predicate ListedOtherwise(cfg: seq<Listed>, n: string, user: User) {
    exists i :: ListedFor(cfg, n, i) && !Same(user, cfg[i])
  }

  lemma ListedOtherwiseSnoc(cfg: seq<Listed>, n: string, user: User)
    requires cfg != []
    ensures var c := cfg[|cfg| - 1];
      ListedOtherwise(cfg, n, user) <==>
      ListedOtherwise(cfg[..|cfg| - 1], n, user) || (c.name == n && n != EVERYONE && !Same(user, c))
  {
    var front := cfg[..|cfg| - 1];
    if i :| ListedFor(cfg, n, i) && !Same(user, cfg[i]) {
      if i < |front| { assert ListedFor(front, n, i); }
    }
    if i :| ListedFor(front, n, i) && !Same(user, front[i]) { assert ListedFor(cfg, n, i); }
    if cfg[|cfg| - 1].name == n && n != EVERYONE { assert ListedFor(cfg, n, |cfg| - 1); }
  }

  predicate Differs(user: User, was: User) { user.role != was.role || user.hash != was.hash }

  /** In a second run a user's role or password differs from the first run's as soon as a listed one
      does. */
  lemma {:induction false} OtherEntryWins(st: State, hashes: set<string>, cfg: seq<Listed>)
    requires Loadable(cfg, hashes) && forall n, i :: ListedFor(cfg, n, i) ==> n in st.users
    ensures AddOrUpdateAll(st, st.users, hashes, cfg).Some?
    ensures AddOrUpdateAll(st, st.users, hashes, cfg).value.users.Keys == st.users.Keys
    ensures forall n :: n in st.users ==>
      (Differs(AddOrUpdateAll(st, st.users, hashes, cfg).value.users[n], st.users[n]) <==>
       ListedOtherwise(cfg, n, st.users[n]))
  {
    if cfg != [] {
      var front, c := cfg[..|cfg| - 1], cfg[|cfg| - 1];
      assert forall n, i :: ListedFor(front, n, i) ==> ListedFor(cfg, n, i);
      OtherEntryWins(st, hashes, front);
      assert ListedFor(cfg, c.name, |cfg| - 1) || c.name == EVERYONE;
      forall n | n in st.users
        ensures Differs(AddOrUpdateAll(st, st.users, hashes, cfg).value.users[n], st.users[n])
          <==> ListedOtherwise(cfg, n, st.users[n])
      {
        ListedOtherwiseSnoc(cfg, n, st.users[n]);
      }
    }
  }

  /** A second run changes nothing, from every state, if and only if no user is listed with two roles or two
      passwords; otherwise the user changes with each run. */
  lemma ProvisionStableExactly(cfg: Config)
    requires Loadable(cfg.users, cfg.hashes)
    ensures (forall st: State :: ProvisionUsers(st, cfg).Some? ==>
               ProvisionUsers(ProvisionUsers(st, cfg).value, cfg) == ProvisionUsers(st, cfg))
       <==> EntriesAgree(cfg.users)
  {
    if EntriesAgree(cfg.users) {
      forall st: State | ProvisionUsers(st, cfg).Some?
        ensures ProvisionUsers(ProvisionUsers(st, cfg).value, cfg) == ProvisionUsers(st, cfg)
      {
        ProvisionSettles(st, cfg);
        SettledRun(ProvisionUsers(st, cfg).value, cfg);
      }
    } else {
      var n, i, j :| ListedFor(cfg.users, n, i) && ListedFor(cfg.users, n, j) && cfg.users[i] != cfg.users[j];
      FirstRun(cfg);
      var first := ProvisionUsers(NEW, cfg).value;
      assert n in first.users;
      SecondRun(first, cfg);
      var second := ProvisionUsers(first, cfg).value;
      assert !Same(first.users[n], cfg.users[i]) || !Same(first.users[n], cfg.users[j]);
      assert ListedOtherwise(cfg.users, n, first.users[n]);
      assert Differs(second.users[n], first.users[n]);
      assert ProvisionUsers(NEW, cfg).Some?;
    }
  }

  lemma FirstRun(cfg: Config)
    requires Loadable(cfg.users, cfg.hashes)
    ensures ProvisionUsers(NEW, cfg).Some? && Stale(ProvisionUsers(NEW, cfg).value.users, cfg.users) == {}
    ensures forall n, i :: ListedFor(cfg.users, n, i) ==> n in ProvisionUsers(NEW, cfg).value.users
  {
    assert Stale(NEW.users, cfg.users) == {};
    NobodyStale(NEW);
    FirstEntryWins(cfg.users, cfg.hashes);
  }

  lemma SecondRun(st: State, cfg: Config)
    requires Loadable(cfg.users, cfg.hashes) && Stale(st.users, cfg.users) == {}
    requires forall n, i :: ListedFor(cfg.users, n, i) ==> n in st.users
    ensures ProvisionUsers(st, cfg).Some? && ProvisionUsers(st, cfg).value.users.Keys == st.users.Keys
    ensures forall n :: n in st.users ==>
      (Differs(ProvisionUsers(st, cfg).value.users[n], st.users[n]) <==> ListedOtherwise(cfg.users, n, st.users[n]))
  {
    NobodyStale(st);
    OtherEntryWins(st, cfg.hashes, cfg.users);
  }

  lemma NobodyStale(st: State)
    ensures WithoutUsers(st, {}) == st
  {
    assert st.users - {} == st.users;
    assert DropUsers(st.access, {}) == st.access;
  }
}
