/** What grants and reservations mean for the requests that follow (user/manager.go): the authorization
    query run on the tables that the other operations leave. */
module AccessEffects {
  import opened Text
  import opened Wildcards
  import opened AccessTable
  import opened AccessSteps

  /* ---- longer patterns first ---- */

  lemma {:induction false} CountConcat(c: char, a: string, b: string)
    ensures Count(c, a + b) == Count(c, a) + Count(c, b)
  {
    if a == "" {
      assert a + b == b;
    } else {
      assert (a + b)[1..] == a[1..] + b;
      CountConcat(c, a[1..], b);
    }
  }

  lemma {:induction false} CountAbsent(c: char, s: string)
    ensures Count(c, s) == 0 <==> c !in s
  {
    if s != "" { CountAbsent(c, s[1..]); }
  }

  /** Every underscore of a pattern stands for one of the text. */
  lemma {:induction false} UnderscoresOfGlob(topic: string, p: string, parts: seq<string>)
    requires Expands(p, parts) && Concat(parts) == topic
    ensures Count('_', p) <= Count('_', topic)
    decreases |p|
  {
    if p != "" {
      CountConcat('_', parts[0], Concat(parts[1..]));
      UnderscoresOfGlob(Concat(parts[1..]), p[1..], parts[1..]);
      if p[0] == '_' { assert parts[0] == [parts[0][0]] && Fold(parts[0][0]) == '_'; }
    }
  }

  lemma UnderscoresCovered(topic: string, p: string)
    requires Glob(topic, p)
    ensures Count('_', p) <= Count('_', topic)
  {
    var parts :| Expands(p, parts) && Concat(parts) == topic;
    UnderscoresOfGlob(topic, p, parts);
  }

  /** Of u's patterns that cover the topic, k's is the longest. */
  ghost predicate Longest(t: Table, u: string, topic: string, k: Key) {
    Covers(t, u, topic, k) &&
    forall j :: j in t && Covers(t, u, topic, j) ==> |FromSqlWildcard(j.1)| <= |FromSqlWildcard(k.1)|
  }

  ghost predicate LongerFirst(t: Table, u: string, topic: string) {
    forall k :: Decides(t, u, topic, k) ==> Longest(t, u, topic, k)
  }

  /** The longest pattern decides, in every table, if and only if the topic has no underscore. */
  lemma LongerFirstExactly(u: string, topic: string)
    ensures (forall t: Table :: StoredPatterns(t) ==> LongerFirst(t, u, topic)) <==> '_' !in topic
  {
    if '_' !in topic {
      CountAbsent('_', topic);
      forall t: Table, k | StoredPatterns(t) && Decides(t, u, topic, k) ensures Longest(t, u, topic, k) {
        forall j | Covers(t, u, topic, j) ensures Weight(j) == |FromSqlWildcard(j.1)| {
          UnderscoresCovered(topic, FromSqlWildcard(j.1));
        }
      }
    } else {
      StarredUnderscore(topic);
      FourEach();
      ShorterDecides(u, topic, "*_*", "****");
    }
  }

  lemma StarredUnderscore(topic: string)
    requires '_' in topic
    ensures Glob(topic, "*_*") && Glob(topic, "****")
  {
    var i :| 0 <= i < |topic| && topic[i] == '_';
    var parts := [topic[..i], [topic[i]], topic[i + 1..]];
    assert parts[1..] == [[topic[i]], topic[i + 1..]] && parts[1..][1..] == [topic[i + 1..]]
      && parts[1..][1..][1..] == [];
    assert Concat([topic[i + 1..]]) == topic[i + 1..] + Concat([]);
    assert Concat(parts) == topic[..i] + ([topic[i]] + topic[i + 1..]) == topic;
    assert Expands("*_*", parts);
    var whole := [topic, "", "", ""];
    assert whole[1..] == ["", "", ""] && whole[1..][1..] == ["", ""] && whole[1..][1..][1..] == [""]
      && whole[1..][1..][1..][1..] == [];
    assert Concat([""]) == "" && Concat(["", ""]) == "" && Concat(["", "", ""]) == "";
    assert Expands("****", whole) && Concat(whole) == topic + "";
  }

  lemma FourEach()
    ensures |"*_*"| + Count('_', "*_*") == 4 == |"****"| + Count('_', "****")
  {
    assert "*_*"[1..] == "_*" && "_*"[1..] == "*" && "*"[1..] == "";
    CountAbsent('_', "****");
  }

  /** Of two patterns that weigh the same, one that grants write decides over a longer one that does
      not. */
  lemma HeavierDecides(t: Table, u: string, topic: string, short: Key, long: Key)
    requires t.Keys == {short, long} && Covers(t, u, topic, short) && Covers(t, u, topic, long)
    requires t[short].perm.write && Weight(short) == Weight(long)
      && |FromSqlWildcard(short.1)| < |FromSqlWildcard(long.1)|
    ensures !LongerFirst(t, u, topic)
  {
    assert Decides(t, u, topic, short) && !Longest(t, u, topic, short);
  }

  lemma CoversByPattern(t: Table, u: string, topic: string, p: string)
    requires AllowedTopicPattern(p) && Glob(topic, p) && (u, ToSqlWildcard(p)) in t
    ensures Covers(t, u, topic, (u, ToSqlWildcard(p))) && IsStoredPattern(ToSqlWildcard(p))
    ensures FromSqlWildcard(ToSqlWildcard(p)) == p && Weight((u, ToSqlWildcard(p))) == |p| + Count('_', p)
  {
    StoredPattern(p);
    WildcardRoundTrip(p);
  }

  lemma ShorterDecides(u: string, topic: string, p: string, q: string)
    requires AllowedTopicPattern(p) && AllowedTopicPattern(q) && Glob(topic, p) && Glob(topic, q)
    requires |p| < |q| && |p| + Count('_', p) == |q| + Count('_', q)
    ensures exists t: Table :: StoredPatterns(t) && !LongerFirst(t, u, topic)
  {
    var short, long := (u, ToSqlWildcard(p)), (u, ToSqlWildcard(q));
    var t := TwoRows(short, Permission(true, true), long, READ);
    CoversByPattern(t, u, topic, p);
    CoversByPattern(t, u, topic, q);
    HeavierDecides(t, u, topic, short, long);
    assert StoredPatterns(t) && !LongerFirst(t, u, topic);
  }

  function TwoRows(a: Key, forA: Permission, b: Key, forB: Permission): (t: Table)
    ensures t.Keys == {a, b} && t[b].perm == forB && (a != b ==> t[a].perm == forA)
  {
    map[a := Row(forA, None, false)][b := Row(forB, None, false)]
  }

  /* ---- grants and resets ---- */

  lemma RowTakesEffect(t: Table, default: Permission, u: string, p: string, perm: Permission, topic: string,
      asked: Permission, allowed: bool)
    requires AllowedTopicPattern(p) && Glob(topic, p)
    requires forall k :: k in t && Covers(t, u, topic, k) && k.1 != ToSqlWildcard(p) ==> Weight(k) < |p| + Count('_', p)
    requires Answer(t[(u, ToSqlWildcard(p)) := Row(perm, None, false)], default, u, topic, asked, allowed)
    ensures allowed == Grants(perm, asked)
  {
    var key := (u, ToSqlWildcard(p));
    var r := t[key := Row(perm, None, false)];
    WildcardRoundTrip(p);
    assert Covers(r, u, topic, key) && Weight(key) == |p| + Count('_', p);
    forall k | Decides(r, u, topic, k) ensures k == key {
      if k != key { assert k in t && Covers(t, u, topic, k); }
    }
  }

  /** After a grant, its permission decides the user's requests wherever the pattern outweighs the user's
      other ones. */
  lemma GrantTakesEffect(st: State, default: Permission, u: string, p: string, perm: Permission, topic: string,
      asked: Permission, allowed: bool)
    requires Step(st, AllowAccess(u, p, perm)).1 == Done && Glob(topic, p)
    requires forall k :: k in st.access && Covers(st.access, u, topic, k) && k.1 != ToSqlWildcard(p) ==>
      Weight(k) < |p| + Count('_', p)
    requires Answer(Step(st, AllowAccess(u, p, perm)).0.access, default, u, topic, asked, allowed)
    ensures allowed == Grants(perm, asked)
  {
    GrantStores(st, u, p, perm);
    RowTakesEffect(st.access, default, u, p, perm, topic, asked, allowed);
  }

  /** Neither a row of the user for the stored pattern, nor one that the user owns. */
  ghost predicate Untouched(t: Table, u: string, s: string) {
    forall k :: k in t && k.1 == s ==> k.0 != u && t[k].owner != Some(u)
  }

  lemma PutThenDrop(t: Table, u: string, s: string, row: Row)
    ensures DropTopic(t[(u, s) := row], u, s) == t <==> Untouched(t, u, s)
  {
    var back := DropTopic(t[(u, s) := row], u, s);
    if Untouched(t, u, s) {
      assert (u, s) !in t;
      assert back == t;
    } else {
      var k :| k in t && k.1 == s && (k.0 == u || t[k].owner == Some(u));
      assert k !in back;
    }
  }

  /** Granting and then resetting a pattern restores the state exactly if neither the user's row for it
      nor one that the user owns was there before. */
  lemma GrantThenReset(st: State, u: string, p: string, perm: Permission)
    requires Step(st, AllowAccess(u, p, perm)).1 == Done
    ensures Step(Step(st, AllowAccess(u, p, perm)).0, ResetAccess(u, p)) == (st, Done)
      <==> Untouched(st.access, u, ToSqlWildcard(p))
  {
    PutThenDrop(st.access, u, ToSqlWildcard(p), Row(perm, None, false));
    assert p != "" && u != "";
  }

  /** Once all access of a user is reset, the user is answered as an anonymous visitor is. */
  lemma ResetFallsBack(st: State, u: string, default: Permission, topic: string, asked: Permission, allowed: bool)
    requires AllowedUsername(u)
    ensures var r := Step(st, ResetAccess(u, "")).0.access;
      Answer(r, default, u, topic, asked, allowed) <==> Answer(r, default, EVERYONE, topic, asked, allowed)
  {
    var r := Step(st, ResetAccess(u, "")).0.access;
    assert r == DropUser(st.access, u);
    assert forall k :: !Covers(r, u, topic, k);
  }

  /* ---- reservations ---- */

  /** Without an underscore in the topic, a reservation goes through only if every row that covers the
      topic is the user's own reservation. */
  lemma FreeMeansOwn(t: Table, u: string, topic: string, k: Key)
    requires StoredPatterns(t) && AllowedTopic(topic) && '_' !in topic && Free(t, u, EscapeUnderscore(topic))
    requires k in t && Glob(topic, FromSqlWildcard(k.1))
    ensures t[k].owner == Some(u)
  {
    ReplaceCharAbsent(topic, '_', "\\_");
    RowMeaning(topic, k);
    assert !Blocks(t, u, topic, k);
  }

  lemma ReservedKeyCovers(topic: string)
    requires AllowedTopic(topic)
    ensures FromSqlWildcard(EscapeUnderscore(topic)) == topic && Glob(topic, topic)
  {
    TopicHasNoStar(topic);
    WildcardRoundTrip(topic);
    GlobSelf(topic);
  }

  /** Once a topic without underscores is reserved, its owner may read and write it, whatever other
      rows, ties and defaults there are. */
  lemma OwnerHasFullAccess(t: Table, u: string, topic: string, everyone: Permission, default: Permission,
      asked: Permission, allowed: bool)
    requires StoredPatterns(t) && Owned(t) && u != EVERYONE
    requires AllowedTopic(topic) && '_' !in topic && Free(t, u, EscapeUnderscore(topic))
    requires asked == READ || asked == WRITE
    requires Answer(Reserve(t, u, EscapeUnderscore(topic), everyone), default, u, topic, asked, allowed)
    ensures allowed
  {
    var s := EscapeUnderscore(topic);
    var r := Reserve(t, u, s, everyone);
    ReservedKeyCovers(topic);
    assert Covers(r, u, topic, (u, s));
    forall k | Covers(r, u, topic, k) ensures r[k].perm == Permission(true, true) {
      if k != (u, s) { FreeMeansOwn(t, u, topic, k); }
    }
  }

  /** Everybody else, anonymous visitors included, is then answered by the rows of everyone that the
      owner's reservations hold. */
  lemma OthersFollowEveryone(t: Table, u: string, v: string, topic: string, everyone: Permission, k: Key)
    requires StoredPatterns(t) && Owned(t) && u != EVERYONE && v != u
    requires AllowedTopic(topic) && '_' !in topic && Free(t, u, EscapeUnderscore(topic))
    ensures var r := Reserve(t, u, EscapeUnderscore(topic), everyone);
      && (Covers(r, v, topic, k) ==> v == EVERYONE)
      && (Covers(r, EVERYONE, topic, k) ==> r[k].owner == Some(u))
      && Covers(r, EVERYONE, topic, (EVERYONE, EscapeUnderscore(topic)))
  {
    var s := EscapeUnderscore(topic);
    ReservedKeyCovers(topic);
    if k in t && Glob(topic, FromSqlWildcard(k.1)) { FreeMeansOwn(t, u, topic, k); }
  }

  lemma {:induction false} LiteralCovers(topic: string, p: string, parts: seq<string>)
    requires '*' !in p && Expands(p, parts) && Concat(parts) == topic
    ensures |p| == |topic| && Count('_', p) == Count('_', topic)
  {
    if p != "" {
      assert parts[0] == [parts[0][0]] && topic[1..] == Concat(parts[1..]);
      LiteralCovers(topic[1..], p[1..], parts[1..]);
      assert Fold(p[0]) == Fold(topic[0]);
    }
  }

  /** The patterns of reservations that cover a topic differ from it at most in the case of letters, so
      they weigh the same. */
  lemma ReservationWeight(t: Table, topic: string, k: Key)
    requires Owned(t) && k in t && t[k].owner.Some? && Glob(topic, FromSqlWildcard(k.1))
    ensures Weight(k) == |topic| + Count('_', topic)
  {
    var p := UnescapeUnderscore(k.1);
    TopicHasNoStar(p);
    WildcardRoundTrip(p);
    var parts :| Expands(p, parts) && Concat(parts) == topic;
    LiteralCovers(topic, p, parts);
  }

  lemma {:induction false} Singletons(s: string)
    ensures Concat(seq(|s|, i requires 0 <= i < |s| => [s[i]])) == s
  {
    var parts := seq(|s|, i requires 0 <= i < |s| => [s[i]]);
    if s != "" {
      Singletons(s[1..]);
      assert parts[1..] == seq(|s[1..]|, i requires 0 <= i < |s[1..]| => [s[1..][i]]);
    }
  }

  lemma {:induction false} LiteralParts(topic: string, p: string, parts: seq<string>)
    requires '*' !in p && Expands(p, parts) && Concat(parts) == topic
    ensures FoldAll(topic) == FoldAll(p)
  {
    if p != "" {
      assert parts[0] == [parts[0][0]] && topic[1..] == Concat(parts[1..]);
      LiteralParts(topic[1..], p[1..], parts[1..]);
      assert FoldAll(topic) == [Fold(topic[0])] + FoldAll(topic[1..]);
      assert FoldAll(p) == [Fold(p[0])] + FoldAll(p[1..]);
    }
  }

  /** A pattern without a wildcard covers exactly the texts that differ from it in case only. */
  lemma LiteralGlob(topic: string, p: string)
    requires '*' !in p
    ensures Glob(topic, p) <==> FoldAll(topic) == FoldAll(p)
  {
    if Glob(topic, p) {
      var parts :| Expands(p, parts) && Concat(parts) == topic;
      LiteralParts(topic, p, parts);
    }
    if FoldAll(topic) == FoldAll(p) {
      var parts := seq(|topic|, i requires 0 <= i < |topic| => [topic[i]]);
      Singletons(topic);
      forall i | 0 <= i < |p| ensures |parts[i]| == 1 && Fold(parts[i][0]) == Fold(p[i]) {
        assert FoldAll(topic)[i] == FoldAll(p)[i];
      }
      assert Expands(p, parts);
    }
  }

  /** One of everyone's rows that u owns, for the topic or one that differs from it in case only. */
  ghost predicate Variant(t: Table, u: string, topic: string, k: Key) {
    k in t && k.0 == EVERYONE && t[k].owner == Some(u) && FoldAll(topic) == FoldAll(UnescapeUnderscore(k.1))
  }

  lemma OwnedCovers(t: Table, u: string, topic: string, k: Key)
    requires Owned(t) && k in t && k.0 == EVERYONE && t[k].owner == Some(u)
    ensures Covers(t, EVERYONE, topic, k) <==> Variant(t, u, topic, k)
  {
    var p := UnescapeUnderscore(k.1);
    TopicHasNoStar(p);
    WildcardRoundTrip(p);
    LiteralGlob(topic, p);
  }

  /** u may reserve the topic, and it has no underscore. */
  ghost predicate Reservable(t: Table, u: string, topic: string) {
    && StoredPatterns(t) && Owned(t) && u != EVERYONE
    && AllowedTopic(topic) && '_' !in topic && Free(t, u, EscapeUnderscore(topic))
  }

  /** Once the topic is reserved, the rows that may answer others are exactly the owner's rows of everyone
      for the topic and its variants; all of them weigh the same. */
  lemma OthersRows(t: Table, u: string, v: string, topic: string, everyone: Permission)
    requires Reservable(t, u, topic) && v != u
    ensures var r := Reserve(t, u, EscapeUnderscore(topic), everyone);
      && (forall k :: Covers(r, v, topic, k) ==> v == EVERYONE)
      && (forall k :: Covers(r, EVERYONE, topic, k) <==> Variant(r, u, topic, k))
      && (forall k :: Variant(r, u, topic, k) ==> Weight(k) == |topic| + Count('_', topic))
      && Variant(r, u, topic, (EVERYONE, EscapeUnderscore(topic)))
  {
    var s := EscapeUnderscore(topic);
    var r := Reserve(t, u, s, everyone);
    StoredTopic(topic);
    ReserveKeepsOwned(t, u, s, everyone);
    forall k
      ensures Covers(r, v, topic, k) ==> v == EVERYONE
      ensures Covers(r, EVERYONE, topic, k) <==> Variant(r, u, topic, k)
      ensures Variant(r, u, topic, k) ==> Weight(k) == |topic| + Count('_', topic)
    {
      OthersFollowEveryone(t, u, v, topic, everyone, k);
      if k in r && k.0 == EVERYONE && r[k].owner == Some(u) {
        OwnedCovers(r, u, topic, k);
        if Variant(r, u, topic, k) { ReservationWeight(r, topic, k); }
      }
    }
  }

  /** A variant that grants write, or any if none does. */
  ghost predicate Preferred(t: Table, u: string, topic: string, k: Key) {
    Variant(t, u, topic, k) && (t[k].perm.write || forall j :: Variant(t, u, topic, j) ==> !t[j].perm.write)
  }

  /** Others are answered by the preferred ones among the owner's variants, whatever is asked, and whatever
      other rows and defaults there are. */
  lemma OthersAnswerExactly(t: Table, u: string, v: string, topic: string, everyone: Permission, default: Permission,
      asked: Permission, allowed: bool)
    requires Reservable(t, u, topic) && v != u
    ensures var r := Reserve(t, u, EscapeUnderscore(topic), everyone);
      Answer(r, default, v, topic, asked, allowed) <==>
      exists k :: Preferred(r, u, topic, k) && allowed == Grants(r[k].perm, asked)
  {
    var r := Reserve(t, u, EscapeUnderscore(topic), everyone);
    OthersRows(t, u, v, topic, everyone);
    assert Covers(r, EVERYONE, topic, (EVERYONE, EscapeUnderscore(topic)));
    assert forall k :: Decides(r, EVERYONE, topic, k) <==> Preferred(r, u, topic, k);
  }

  /** Others may write if and only if one of the owner's variants lets everyone write. */
  lemma OthersWriteExactly(t: Table, u: string, v: string, topic: string, everyone: Permission, default: Permission,
      allowed: bool)
    requires Reservable(t, u, topic) && v != u
    requires Answer(Reserve(t, u, EscapeUnderscore(topic), everyone), default, v, topic, WRITE, allowed)
    ensures var r := Reserve(t, u, EscapeUnderscore(topic), everyone);
      allowed <==> exists k :: Variant(r, u, topic, k) && r[k].perm.write
  {
    var r := Reserve(t, u, EscapeUnderscore(topic), everyone);
    OthersAnswerExactly(t, u, v, topic, everyone, default, WRITE, allowed);
    assert forall k :: Preferred(r, u, topic, k) ==> Variant(r, u, topic, k);
  }

  /** The answers that others get are those of the given permission. */
  ghost predicate OthersGet(r: Table, default: Permission, v: string, topic: string, perm: Permission) {
    forall allowed ::
      (Answer(r, default, v, topic, READ, allowed) ==> allowed == perm.read) &&
      (Answer(r, default, v, topic, WRITE, allowed) ==> allowed == perm.write)
  }

  /** No variant stands in the way of the reservation: each says the same, or is outranked by it. */
  ghost predicate VariantsAgree(r: Table, u: string, topic: string, everyone: Permission) {
    forall k :: Variant(r, u, topic, k) ==> r[k].perm == everyone || (everyone.write && !r[k].perm.write)
  }

  /** Others may read and write exactly as the reservation lets everyone if and only if the owner's
      reservations of topics that differ in case only say the same or are outranked; in particular if
      there are none. */
  lemma OthersGetEveryoneExactly(t: Table, u: string, v: string, topic: string, everyone: Permission,
      default: Permission)
    requires Reservable(t, u, topic) && v != u
    ensures var r := Reserve(t, u, EscapeUnderscore(topic), everyone);
      OthersGet(r, default, v, topic, everyone) <==> VariantsAgree(r, u, topic, everyone)
  {
    var s := EscapeUnderscore(topic);
    var r := Reserve(t, u, s, everyone);
    OthersRows(t, u, v, topic, everyone);
    forall asked, allowed
      ensures Answer(r, default, v, topic, asked, allowed)
        <==> exists k :: Preferred(r, u, topic, k) && allowed == Grants(r[k].perm, asked)
    {
      OthersAnswerExactly(t, u, v, topic, everyone, default, asked, allowed);
    }
    assert Variant(r, u, topic, (EVERYONE, s)) && r[(EVERYONE, s)].perm == everyone;
    if OthersGet(r, default, v, topic, everyone) {
      forall k | Preferred(r, u, topic, k) ensures r[k].perm == everyone {
        assert Answer(r, default, v, topic, READ, Grants(r[k].perm, READ));
        assert Answer(r, default, v, topic, WRITE, Grants(r[k].perm, WRITE));
      }
      assert everyone.write || forall k :: Variant(r, u, topic, k) ==> !r[k].perm.write;
    }
  }

  /** For every such topic there is a failing case: its owner has reserved another one that differs in case
      only for everyone to read and write, and so the reservation for nobody does not keep others out. */
  lemma VariantLetsIn(u: string, v: string, topic: string, other: string, default: Permission) returns (t: Table)
    requires AllowedUsername(u) && v != u && AllowedTopic(topic) && AllowedTopic(other) && '_' !in topic
    requires other != topic && FoldAll(topic) == FoldAll(other)
    ensures Reservable(t, u, topic)
    ensures !OthersGet(Reserve(t, u, EscapeUnderscore(topic), Permission(false, false)), default, v, topic,
      Permission(false, false))
  {
    EveryoneSortsLast(u);
    StoredTopic(other);
    StoredTopic(topic);
    var s := EscapeUnderscore(other);
    var open := Permission(true, true);
    ReserveKeepsOwned(map[], u, s, open);
    t := Reserve(map[], u, s, open);
    var r := Reserve(t, u, EscapeUnderscore(topic), Permission(false, false));
    assert s != EscapeUnderscore(topic);
    assert Variant(r, u, topic, (EVERYONE, s)) && r[(EVERYONE, s)].perm == open;
    OthersGetEveryoneExactly(t, u, v, topic, Permission(false, false), default);
  }

  ghost predicate ForeignRow(t: Table, u: string, v: string, topic: string, k: Key) {
    && StoredPatterns(t) && Owned(t) && Free(t, u, EscapeUnderscore(topic))
    && Covers(Reserve(t, u, EscapeUnderscore(topic), Permission(false, false)), v, topic, k)
  }

  /** No other user keeps a row that covers a reserved topic, in any table, if and only if the topic has
      no underscore. */
  lemma NoForeignRowExactly(u: string, v: string, topic: string)
    requires AllowedTopic(topic) && u != EVERYONE && v != EVERYONE && u != v
    ensures (forall t, k :: !ForeignRow(t, u, v, topic, k)) <==> '_' !in topic
  {
    if '_' !in topic {
      forall t, k ensures !ForeignRow(t, u, v, topic, k) {
        if ForeignRow(t, u, v, topic, k) {
          OthersFollowEveryone(t, u, v, topic, Permission(false, false), k);
        }
      }
    } else {
      var t, k := ForeignGrantSurvives(u, v, topic, Permission(false, false));
      assert ForeignRow(t, u, v, topic, k);
    }
  }

  /** With an underscore, for each topic there is a table in which the reservation goes through and
      another user keeps a grant of old. */
  lemma ForeignGrantSurvives(u: string, v: string, topic: string, default: Permission) returns (t: Table, k: Key)
    requires AllowedTopic(topic) && '_' in topic && u != v && v != EVERYONE
    ensures StoredPatterns(t) && Owned(t) && Free(t, u, EscapeUnderscore(topic))
    ensures Covers(Reserve(t, u, EscapeUnderscore(topic), Permission(false, false)), v, topic, k)
    ensures Answer(Reserve(t, u, EscapeUnderscore(topic), Permission(false, false)), default, v, topic, WRITE, true)
  {
    var s := EscapeUnderscore(topic);
    var p := OverlookedPattern(topic);
    StoredPattern(p);
    WildcardRoundTrip(p);
    AllowedPatternIsPlain(p);
    LikeIsGlob(s, p);
    TopicHasNoStar(topic);
    if ToSqlWildcard(p) == s { StoredPatternsDistinct(p, topic); }
    k := (v, ToSqlWildcard(p));
    t := map[k := Row(WRITE, None, false)];
    var r := Reserve(t, u, s, Permission(false, false));
    assert Decides(r, v, topic, k);
    assert true == Grants(r[k].perm, WRITE);
  }
}
