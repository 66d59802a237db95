/** The access control table (user/manager.go): which row answers an authorization request, and what
    the statements that grant, reset, reserve and release do to it. */
module AccessTable {
  import opened Text
  import opened Wildcards
  import opened Ordering

  const EVERYONE := "*"

  datatype Permission = Permission(read: bool, write: bool)
  const READ := Permission(true, false)
  const WRITE := Permission(false, true)

  /** owner is the user who reserved the topic, None for a row set by the system. */
  datatype Row = Row(perm: Permission, owner: Option<string>, provisioned: bool)

  /** The primary key: the user and the pattern in its stored (SQL) form. */
  type Key = (string, string)
  type Table = map<Key, Row>

  predicate IsTopicChar(c: char) {
    c == '-' || c == '_' || 'A' <= c <= 'Z' || 'a' <= c <= 'z' || '0' <= c <= '9'
  }

  predicate AllowedUsername(s: string) {
    s != "" && forall i :: 0 <= i < |s| ==> IsTopicChar(s[i]) || s[i] == '.' || s[i] == '+' || s[i] == '@'
  }

  predicate AllowedTopic(s: string) {
    1 <= |s| <= 64 && forall i :: 0 <= i < |s| ==> IsTopicChar(s[i])
  }

  predicate AllowedTopicPattern(s: string) {
    1 <= |s| <= 64 && forall i :: 0 <= i < |s| ==> IsTopicChar(s[i]) || s[i] == '*'
  }

  lemma AllowedPatternIsPlain(p: string)
    requires AllowedTopicPattern(p)
    ensures Plain(p)
  {}

  lemma TopicHasNoStar(t: string)
    requires AllowedTopic(t)
    ensures ToSqlWildcard(t) == EscapeUnderscore(t)
  {
    ReplaceCharAbsent(t, '*', "%");
  }

  predicate IsStoredPattern(s: string) {
    AllowedTopicPattern(FromSqlWildcard(s)) && ToSqlWildcard(FromSqlWildcard(s)) == s
  }

  predicate IsStoredTopic(s: string) {
    AllowedTopic(UnescapeUnderscore(s)) && EscapeUnderscore(UnescapeUnderscore(s)) == s
  }

  lemma StoredPattern(p: string)
    requires AllowedTopicPattern(p)
    ensures IsStoredPattern(ToSqlWildcard(p))
  {
    WildcardRoundTrip(p);
  }

  lemma StoredTopic(t: string)
    requires AllowedTopic(t)
    ensures IsStoredTopic(EscapeUnderscore(t)) && IsStoredPattern(EscapeUnderscore(t))
    ensures UnescapeUnderscore(EscapeUnderscore(t)) == t
  {
    UnescapeUndoesEscape(t, '_');
    TopicHasNoStar(t);
    StoredPattern(t);
  }

  /* ---- authorization ---- */

  /** The WHERE clause of selectTopicPermsQuery. */
  predicate Candidate(t: Table, u: string, topic: string, k: Key) {
    k in t && (k.0 == EVERYONE || k.0 == u) && Like(topic, k.1)
  }

  /** The ORDER BY clause: user, length of the stored pattern, write flag, each descending. */
  predicate Precedes(t: Table, a: Key, b: Key)
    requires a in t && b in t
  {
    Less(b.0, a.0) ||
    (a.0 == b.0 && (|a.1| > |b.1| || (|a.1| == |b.1| && t[a].perm.write && !t[b].perm.write)))
  }

  /** k may come first in the result; rows equal in all three columns come in any order. */
  predicate FirstRow(t: Table, u: string, topic: string, k: Key) {
    Candidate(t, u, topic, k) && forall j :: j in t && Candidate(t, u, topic, j) ==> !Precedes(t, j, k)
  }

  predicate Grants(base: Permission, perm: Permission) {
    (perm == READ && base.read) || (perm == WRITE && base.write)
  }

  /* The policy, stated on patterns instead of SQL. */

  ghost predicate Covers(t: Table, u: string, topic: string, k: Key) {
    k in t && k.0 == u && Glob(topic, FromSqlWildcard(k.1))
  }

  ghost function Weight(k: Key): nat {
    var p := FromSqlWildcard(k.1);
    |p| + Count('_', p)
  }

  /** Of u's patterns that cover the topic, k's is the weightiest, and grants write if any of that
      weight does. */
  ghost predicate Decides(t: Table, u: string, topic: string, k: Key) {
    Covers(t, u, topic, k) &&
    forall j :: j in t && Covers(t, u, topic, j) ==>
      Weight(j) < Weight(k) || (Weight(j) == Weight(k) && (t[j].perm.write ==> t[k].perm.write))
  }

  /** u's own patterns decide; without one that covers the topic, everyone's do; without any, the
      default does. */
  ghost predicate Answer(t: Table, default: Permission, u: string, topic: string, perm: Permission, allowed: bool) {
    if exists k :: Covers(t, u, topic, k) then
      exists k :: Decides(t, u, topic, k) && allowed == Grants(t[k].perm, perm)
    else if exists k :: Covers(t, EVERYONE, topic, k) then
      exists k :: Decides(t, EVERYONE, topic, k) && allowed == Grants(t[k].perm, perm)
    else allowed == Grants(default, perm)
  }

  ghost predicate StoredPatterns(t: Table) {
    forall k :: k in t ==> IsStoredPattern(k.1)
  }

  /** '*' is below every allowed username, so descending user order puts a user's own rows before
      the rows of everyone. */
  lemma EveryoneSortsLast(u: string)
    requires AllowedUsername(u)
    ensures Less(EVERYONE, u) && !Less(u, EVERYONE) && u != EVERYONE
  {
    assert u[0] > '*';
  }

  lemma RowMeaning(topic: string, k: Key)
    requires IsStoredPattern(k.1)
    ensures Like(topic, k.1) <==> Glob(topic, FromSqlWildcard(k.1))
    ensures |k.1| == Weight(k)
  {
    AllowedPatternIsPlain(FromSqlWildcard(k.1));
    LikeIsGlob(topic, FromSqlWildcard(k.1));
    StoredLength(FromSqlWildcard(k.1));
  }

  /** The rows that may come first are exactly the rows that decide: own rows if any covers the
      topic, else rows of everyone. */
  lemma FirstRowDecides(t: Table, u: string, topic: string, k: Key)
    requires StoredPatterns(t) && (AllowedUsername(u) || u == EVERYONE)
    ensures FirstRow(t, u, topic, k) <==>
            if exists j :: Covers(t, u, topic, j) then Decides(t, u, topic, k)
            else Decides(t, EVERYONE, topic, k)
  {
    forall j | j in t
      ensures Candidate(t, u, topic, j) <==> Covers(t, u, topic, j) || Covers(t, EVERYONE, topic, j)
    {
      RowMeaning(topic, j);
    }
    forall i, j | i in t && j in t && Candidate(t, u, topic, i) && Candidate(t, u, topic, j)
      ensures Precedes(t, i, j) <==> (i.0 == u && j.0 != u) || (i.0 == j.0 && Heavier(t, i, j))
    {
      CandidateOrder(t, u, topic, i, j);
    }
  }

  ghost predicate Heavier(t: Table, a: Key, b: Key)
    requires a in t && b in t
  {
    Weight(a) > Weight(b) || (Weight(a) == Weight(b) && t[a].perm.write && !t[b].perm.write)
  }

  lemma CandidateOrder(t: Table, u: string, topic: string, a: Key, b: Key)
    requires StoredPatterns(t) && (AllowedUsername(u) || u == EVERYONE)
    requires Candidate(t, u, topic, a) && Candidate(t, u, topic, b)
    ensures Precedes(t, a, b) <==> (a.0 == u && b.0 != u) || (a.0 == b.0 && Heavier(t, a, b))
  {
    RowMeaning(topic, a);
    RowMeaning(topic, b);
    LessIrreflexive(EVERYONE);
    LessIrreflexive(u);
    if u != EVERYONE { EveryoneSortsLast(u); }
  }

  lemma FirstRowAnswers(t: Table, default: Permission, u: string, topic: string, perm: Permission, k: Key)
    requires StoredPatterns(t) && (AllowedUsername(u) || u == EVERYONE) && FirstRow(t, u, topic, k)
    ensures Answer(t, default, u, topic, perm, Grants(t[k].perm, perm))
  {
    FirstRowDecides(t, u, topic, k);
  }

  lemma NoRowAnswers(t: Table, default: Permission, u: string, topic: string, perm: Permission)
    requires StoredPatterns(t) && forall k :: k in t ==> !Candidate(t, u, topic, k)
    ensures Answer(t, default, u, topic, perm, Grants(default, perm))
  {
    forall k ensures !Covers(t, u, topic, k) && !Covers(t, EVERYONE, topic, k) {
      if k in t { RowMeaning(topic, k); }
    }
  }

  /** Some row comes first as soon as any row qualifies. */
  lemma {:induction false} FirstRowExists(t: Table, c: set<Key>)
    requires c != {} && c <= t.Keys
    ensures exists k :: k in c && forall j :: j in c ==> !Precedes(t, j, k)
  {
    var z :| z in c;
    LessIrreflexive(z.0);
    if c == {z} {
      assert forall j :: j in c ==> !Precedes(t, j, z);
    } else {
      FirstRowExists(t, c - {z});
      var m :| m in c - {z} && forall j :: j in c - {z} ==> !Precedes(t, j, m);
      if Precedes(t, z, m) {
        forall j | j in c ensures !Precedes(t, j, z) {
          if j != z && Precedes(t, j, z) { PrecedesTransitive(t, j, z, m); }
        }
      } else {
        assert forall j :: j in c ==> !Precedes(t, j, m);
      }
    }
  }

  lemma PrecedesTransitive(t: Table, a: Key, b: Key, c: Key)
    requires a in t && b in t && c in t && Precedes(t, a, b) && Precedes(t, b, c)
    ensures Precedes(t, a, c)
  {
    if Less(b.0, a.0) && Less(c.0, b.0) { LessTransitive(c.0, b.0, a.0); }
  }

  /** Whether a write is allowed never depends on how ties are ordered. */
  lemma WriteAnswerUnique(t: Table, default: Permission, u: string, topic: string, a: bool, b: bool)
    requires Answer(t, default, u, topic, WRITE, a) && Answer(t, default, u, topic, WRITE, b)
    ensures a == b
  {}

  /** The rows that answer a request of u, if any. */
  ghost predicate Answering(t: Table, u: string, topic: string, k: Key) {
    if exists j :: Covers(t, u, topic, j) then Decides(t, u, topic, k) else Decides(t, EVERYONE, topic, k)
  }

  /** Whether a read is allowed is independent of the order of ties exactly when the answering rows
      agree on the read flag. */
  lemma ReadAnswerUnique(t: Table, default: Permission, u: string, topic: string)
    ensures (forall a, b :: Answer(t, default, u, topic, READ, a) && Answer(t, default, u, topic, READ, b) ==> a == b)
       <==> (forall j, k :: Answering(t, u, topic, j) && Answering(t, u, topic, k) ==> t[j].perm.read == t[k].perm.read)
  {
    forall k | Answering(t, u, topic, k) ensures Answer(t, default, u, topic, READ, t[k].perm.read) {
      assert t[k].perm.read == Grants(t[k].perm, READ);
    }
    if forall j, k :: Answering(t, u, topic, j) && Answering(t, u, topic, k) ==> t[j].perm.read == t[k].perm.read {
      forall a, b | Answer(t, default, u, topic, READ, a) && Answer(t, default, u, topic, READ, b) ensures a == b {
      }
    }
  }

  /* ---- statements ---- */

  /** deleteTopicAccessQuery: u's row for the stored topic and the rows u owns there. */
  function DropTopic(t: Table, u: string, s: string): Table {
    map k | k in t && !((k.0 == u || t[k].owner == Some(u)) && k.1 == s) :: t[k]
  }

  /** deleteUserAccessQuery: u's rows and the rows u owns. */
  function DropUser(t: Table, u: string): Table {
    map k | k in t && !(k.0 == u || t[k].owner == Some(u)) :: t[k]
  }

  /** The two upserts of AddReservation. */
  function Reserve(t: Table, u: string, s: string, everyone: Permission): Table {
    t[(u, s) := Row(Permission(true, true), Some(u), false)][(EVERYONE, s) := Row(everyone, Some(u), false)]
  }

  /** The two deletes of RemoveReservations for one topic. */
  function Release(t: Table, u: string, s: string): Table {
    DropTopic(DropTopic(t, u, s), EVERYONE, s)
  }

  function ReleaseAll(t: Table, u: string, stored: seq<string>): Table {
    if stored == [] then t else ReleaseAll(Release(t, u, stored[0]), u, stored[1..])
  }

  /** selectOtherAccessCountQuery, for a user that exists: the rows that stand in the way of a
      reservation. The escaped topic itself is what LIKE is given. */
  predicate Blocks(t: Table, u: string, s: string, k: Key) {
    k in t && (k.1 == s || Like(s, k.1)) && t[k].owner != Some(u)
  }

  predicate Free(t: Table, u: string, s: string) {
    forall k :: k in t ==> !Blocks(t, u, s, k)
  }

  /** The same for a user that does not exist: no row is someone else's, but rows without an owner count. */
  predicate BlocksUnowned(t: Table, s: string, k: Key) {
    k in t && (k.1 == s || Like(s, k.1)) && t[k].owner.None?
  }

  predicate FreeOfUnowned(t: Table, s: string) {
    forall k :: k in t ==> !BlocksUnowned(t, s, k)
  }

  function Reserved(t: Table, u: string): set<string> {
    set k | k in t && k.0 == u && t[k].owner == Some(u) :: k.1
  }

  /** The user has reserved the stored topic. */
  predicate OwnedBy(t: Table, u: string, stored: string) { (u, stored) in t && t[(u, stored)].owner == Some(u) }

  /** The topics are those that the user has reserved. */
  ghost predicate ListsOwned(t: Table, u: string, topics: seq<string>) {
    && (forall i :: 0 <= i < |topics| ==> exists s :: OwnedBy(t, u, s) && topics[i] == UnescapeUnderscore(s))
    && (forall s :: OwnedBy(t, u, s) ==> UnescapeUnderscore(s) in topics)
  }

  /** Ownership: an owned row is its owner's, with full access, or everyone's; it is for a topic, and
      shares its owner with every other owned row of that topic. */
  ghost predicate Owned(t: Table) {
    && (forall k :: k in t && t[k].owner.Some? ==>
          && (k.0 == t[k].owner.value || k.0 == EVERYONE)
          && (k.0 == t[k].owner.value ==> t[k].perm == Permission(true, true))
          && t[k].owner.value != EVERYONE
          && IsStoredTopic(k.1) && !t[k].provisioned)
    && (forall j, k :: j in t && k in t && j.1 == k.1 && t[j].owner.Some? && t[k].owner.Some? ==>
      t[j].owner == t[k].owner)
  }

  /** Writing a reservation keeps ownership if and only if no other user has the topic reserved at that
      moment; the check that the topic is free, which implies it, is a statement of its own. */
  lemma ReserveKeepsOwnedExactly(t: Table, u: string, s: string, everyone: Permission)
    requires Owned(t) && u != EVERYONE && IsStoredTopic(s)
    ensures Owned(Reserve(t, u, s, everyone)) <==> forall v :: v != u ==> s !in Reserved(t, v)
  {
    var r := Reserve(t, u, s, everyone);
    if v :| v != u && s in Reserved(t, v) {
      assert (v, s) in r && r[(v, s)].owner == Some(v) && r[(u, s)].owner == Some(u);
    } else {
      forall k | k in r && k.1 == s && r[k].owner.Some? ensures r[k].owner == Some(u) {
        assert k in t && t[k].owner == Some(k.0) ==> s in Reserved(t, k.0);
      }
      forall j, k | j in r && k in r && j.1 == k.1 && r[j].owner.Some? && r[k].owner.Some?
        ensures r[j].owner == r[k].owner
      {
        if j.1 != s { assert j in t && k in t; }
      }
    }
  }

  /** A topic that is free for two users can be reserved by one of them, and when the other one's
      reservation is written as well, ownership is lost. */
  lemma BothReserve(t: Table, u: string, v: string, s: string, forAll: Permission, forNone: Permission)
    requires Owned(t) && IsStoredTopic(s) && u != v && u != EVERYONE && v != EVERYONE && Free(t, u, s) && Free(t, v, s)
    ensures Owned(Reserve(t, v, s, forAll)) && !Owned(Reserve(Reserve(t, v, s, forAll), u, s, forNone))
  {
    ReserveKeepsOwned(t, v, s, forAll);
    assert (v, s) in Reserve(t, v, s, forAll);
    assert s in Reserved(Reserve(t, v, s, forAll), v);
    ReserveKeepsOwnedExactly(Reserve(t, v, s, forAll), u, s, forNone);
  }

  /** Nobody else has reserved a topic that is free. */
  lemma FreeIsUnreserved(t: Table, u: string, s: string)
    requires Free(t, u, s)
    ensures forall v :: v != u ==> s !in Reserved(t, v)
  {
    forall v | v != u ensures s !in Reserved(t, v) {
      assert s in Reserved(t, v) ==> Blocks(t, u, s, (v, s));
    }
  }

  lemma ReserveKeepsOwned(t: Table, u: string, s: string, everyone: Permission)
    requires Owned(t) && u != EVERYONE && IsStoredTopic(s) && Free(t, u, s)
    ensures Owned(Reserve(t, u, s, everyone))
  {
    FreeIsUnreserved(t, u, s);
    ReserveKeepsOwnedExactly(t, u, s, everyone);
  }

  /** In a table that keeps ownership, no topic is reserved by two users. */
  lemma OneReservationPerTopic(t: Table, u: string, v: string, s: string)
    requires Owned(t) && s in Reserved(t, u) && s in Reserved(t, v)
    ensures u == v
  {
    assert (u, s) in t && (v, s) in t;
  }

  /** Releasing a topic right after reserving it restores the table exactly when neither of the two
      reserved rows was there before. */
  lemma ReserveThenRelease(t: Table, u: string, s: string, everyone: Permission)
    requires Owned(t) && u != EVERYONE
    ensures Release(Reserve(t, u, s, everyone), u, s) == t <==> (u, s) !in t && (EVERYONE, s) !in t
  {
    var r := Reserve(t, u, s, everyone);
    var back := Release(r, u, s);
    assert (u, s) !in back && (EVERYONE, s) !in back;
    if (u, s) !in t && (EVERYONE, s) !in t {
      assert back.Keys == t.Keys by {
        forall k ensures k in back <==> k in t {
          if k in t { assert t[k].owner.Some? ==> k.0 == t[k].owner.value || k.0 == EVERYONE; }
        }
      }
      assert back == t;
    }
  }

  /** Which it never does for a topic that the user has reserved already. */
  lemma ReserveAgainThenRelease(t: Table, u: string, s: string, before: Permission, everyone: Permission)
    requires Owned(t) && u != EVERYONE && IsStoredTopic(s) && Free(t, u, s)
    ensures var reserved := Reserve(t, u, s, before);
      Owned(reserved) && Free(reserved, u, s) && Release(Reserve(reserved, u, s, everyone), u, s) != reserved
  {
    var reserved := Reserve(t, u, s, before);
    ReserveKeepsOwned(t, u, s, before);
    forall k | k in reserved ensures !Blocks(reserved, u, s, k) {
      assert k in t ==> !Blocks(t, u, s, k);
    }
    ReserveThenRelease(reserved, u, s, everyone);
    assert (u, s) in reserved;
  }

  /** The overlap check of AllowReservation is exact on every table, for any user, if and only if the
      topic has no underscore: then a topic is refused exactly when a row that the user does not own
      covers it. With an underscore, some foreign wildcard that covers the topic is overlooked. */
  lemma OverlapCheckExact(u: string, topic: string)
    requires AllowedTopic(topic)
    ensures (forall t: Table :: StoredPatterns(t) ==> (Free(t, u, EscapeUnderscore(topic)) <==> Uncovered(t, u, topic)))
       <==> '_' !in topic
  {
    var s := EscapeUnderscore(topic);
    if '_' !in topic {
      ReplaceCharAbsent(topic, '_', "\\_");
      forall t: Table | StoredPatterns(t) ensures Free(t, u, s) <==> Uncovered(t, u, topic) {
        forall k | k in t ensures Blocks(t, u, s, k) <==> Obstructs(t, u, topic, k) {
          RowMeaning(topic, k);
          if k.1 == s { GlobSelf(topic); StoredTopic(topic); TopicHasNoStar(topic); WildcardRoundTrip(topic); }
        }
      }
    } else {
      var p := OverlookedPattern(topic);
      StoredPattern(p);
      WildcardRoundTrip(p);
      var k := (EVERYONE, ToSqlWildcard(p));
      var t: Table := map[k := Row(READ, None, false)];
      AllowedPatternIsPlain(p);
      LikeIsGlob(s, p);
      assert k.1 != s by { TopicHasNoStar(topic); if k.1 == s { StoredPatternsDistinct(p, topic); } }
      assert Free(t, u, s);
      assert k in t && Obstructs(t, u, topic, k);
      assert StoredPatterns(t) && !Uncovered(t, u, topic);
    }
  }

  ghost predicate Obstructs(t: Table, u: string, topic: string, k: Key) {
    k in t && t[k].owner != Some(u) && Glob(topic, FromSqlWildcard(k.1))
  }

  /** No row that u does not own covers the topic. */
  ghost predicate Uncovered(t: Table, u: string, topic: string) {
    forall k :: k in t ==> !Obstructs(t, u, topic, k)
  }

  lemma {:induction false} GlobSelf(t: string)
    ensures Glob(t, t)
  {
    if t == "" {
      assert Expands(t, []);
    } else {
      GlobSelf(t[1..]);
      var rest :| Expands(t[1..], rest) && Concat(rest) == t[1..];
      var parts := [[t[0]]] + rest;
      assert parts[1..] == rest && Expands(t, parts) && Concat(parts) == t;
    }
  }

  lemma {:induction false} EscapedUnderscores(t: string, j: nat)
    requires '\\' !in t && j < |EscapeUnderscore(t)| && EscapeUnderscore(t)[j] == '_'
    ensures j > 0 && EscapeUnderscore(t)[j - 1] == '\\'
  {
    var first := if t[0] == '_' then "\\_" else [t[0]];
    var rest := EscapeUnderscore(t[1..]);
    assert EscapeUnderscore(t) == first + rest;
    if j >= |first| {
      assert rest[j - |first|] == '_';
      EscapedUnderscores(t[1..], j - |first|);
    }
  }

  /** A pattern that covers the topic but not the escaped topic: it has the first underscore next to
      a character from which escaping separates it. */
  lemma OverlookedPattern(topic: string) returns (p: string)
    requires AllowedTopic(topic) && '_' in topic
    ensures AllowedTopicPattern(p) && '*' in p
    ensures Glob(topic, p) && !Glob(EscapeUnderscore(topic), p)
  {
    if topic[0] == '_' {
      p := "_*";
      LeadingUnderscore(topic);
    } else {
      var i := 1;
      while topic[i] != '_'
        invariant 1 <= i < |topic| && '_' !in topic[..i]
        decreases |topic| - i
      {
        assert topic[..i + 1] == topic[..i] + [topic[i]];
        assert topic == topic[..i + 1] + topic[i + 1..];
        i := i + 1;
      }
      assert topic[i - 1] in topic[..i];
      p := "*" + [topic[i - 1], '_'] + "*";
      InnerUnderscore(topic, i);
    }
  }

  lemma LeadingUnderscore(topic: string)
    requires AllowedTopic(topic) && topic[0] == '_'
    ensures Glob(topic, "_*") && !Glob(EscapeUnderscore(topic), "_*")
  {
    var s := EscapeUnderscore(topic);
    assert ToSqlWildcard("_*") == "\\_%" by {
      ToSqlWildcardUnfold("_*");
      ToSqlWildcardUnfold("*");
      assert "_*"[1..] == "*" && "*"[1..] == "";
    }
    assert "\\_%"[2..] == "%";
    PercentMatchesAll(topic[1..]);
    assert s[0] == '\\';
    LikeIsGlob(topic, "_*");
    LikeIsGlob(s, "_*");
  }

  lemma InnerUnderscore(topic: string, i: int)
    requires AllowedTopic(topic) && 1 <= i < |topic| && topic[i] == '_' && topic[i - 1] != '_'
    ensures var p := "*" + [topic[i - 1], '_'] + "*"; Glob(topic, p) && !Glob(EscapeUnderscore(topic), p)
  {
    var s, c := EscapeUnderscore(topic), topic[i - 1];
    var q := [c, '_'];
    var p := "*" + q + "*";
    BetweenStars(c);
    assert topic[i - 1..i - 1 + |q|] == q;
    assert OccursAt(q, topic, i - 1);
    SearchFindsSubstrings(topic, q);
    LikeIsGlob(topic, p);
    forall j ensures !OccursAt(q, s, j) { NoOccurrence(topic, c, j); }
    SearchFindsSubstrings(s, q);
    LikeIsGlob(s, p);
  }

  lemma NoOccurrence(topic: string, c: char, j: int)
    requires AllowedTopic(topic) && IsTopicChar(c)
    ensures !OccursAt([c, '_'], EscapeUnderscore(topic), j)
  {
    var s, q := EscapeUnderscore(topic), [c, '_'];
    if OccursAt(q, s, j) {
      assert FoldAll(s[j..j + 2])[1] == FoldAll(q)[1] && FoldAll(s[j..j + 2])[0] == FoldAll(q)[0];
      EscapedUnderscores(topic, j + 1);
    }
  }

  lemma BetweenStars(c: char)
    requires IsTopicChar(c) && c != '_'
    ensures ToSqlWildcard("*" + [c, '_'] + "*") == "%" + EscapeLike([c, '_']) + "%"
  {
    var p, q := "*" + [c, '_'] + "*", [c, '_'];
    ToSqlWildcardUnfold(p);
    ToSqlWildcardUnfold(p[1..]);
    ToSqlWildcardUnfold(p[2..]);
    ToSqlWildcardUnfold(p[3..]);
    assert p[4..] == "" && p[1..][1..] == p[2..] && p[2..][1..] == p[3..] && p[3..][1..] == p[4..];
    EscapeLikeUnfold(q);
    EscapeLikeUnfold(q[1..]);
    assert q[1..][1..] == "";
  }
}
