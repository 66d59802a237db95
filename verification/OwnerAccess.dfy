/** When the owner of a reservation is served in full (user/manager.go): for topics with an underscore, a
    grant of old to the owner may outrank the reservation, which the overlap check did not see. */
module OwnerAccess {
  import opened Text
  import opened Wildcards
  import opened AccessTable
  import opened AccessEffects

  /** If the reservation goes through, the owner's request is granted. */
  ghost predicate OwnerServed(u: string, topic: string, t: Table, everyone: Permission, default: Permission,
      asked: Permission, allowed: bool) {
    (Admits(t, u, topic) && (asked == READ || asked == WRITE)
     && Answer(Reserve(t, u, EscapeUnderscore(topic), everyone), default, u, topic, asked, allowed)) ==> allowed
  }

  ghost predicate Admits(t: Table, u: string, topic: string) {
    StoredPatterns(t) && Owned(t) && Free(t, u, EscapeUnderscore(topic))
  }

  predicate AllUnderscores(s: string) { forall i :: 0 <= i < |s| ==> s[i] == '_' }

  /** There is no longer pattern than the topic, and no other one with as many underscores. */
  predicate Heaviest(topic: string) { |topic| == 64 && AllUnderscores(topic) }

  /** The owner may read and write a reserved topic, in every table, if and only if the topic has no
      underscore, or consists of 64 of them. */
  lemma OwnerServedExactly(u: string, topic: string)
    requires AllowedTopic(topic) && u != EVERYONE
    ensures (forall t, everyone, default, asked, allowed :: OwnerServed(u, topic, t, everyone, default, asked, allowed))
       <==> '_' !in topic || Heaviest(topic)
  {
    if '_' !in topic || Heaviest(topic) {
      forall t, everyone, default, asked, allowed ensures OwnerServed(u, topic, t, everyone, default, asked, allowed) {
        if '_' !in topic {
          ServedWithoutUnderscore(u, topic, t, everyone, default, asked, allowed);
        } else {
          ServedIfHeaviest(u, topic, t, everyone, default, asked, allowed);
        }
      }
    } else {
      var p := OutrankingPattern(topic);
      var t := DeniedTable(u, topic, p);
      assert !OwnerServed(u, topic, t, READ, READ, READ, false);
    }
  }

  lemma ServedWithoutUnderscore(u: string, topic: string, t: Table, everyone: Permission, default: Permission,
      asked: Permission, allowed: bool)
    requires AllowedTopic(topic) && u != EVERYONE && '_' !in topic
    ensures OwnerServed(u, topic, t, everyone, default, asked, allowed)
  {
    if Admits(t, u, topic) && (asked == READ || asked == WRITE)
       && Answer(Reserve(t, u, EscapeUnderscore(topic), everyone), default, u, topic, asked, allowed) {
      OwnerHasFullAccess(t, u, topic, everyone, default, asked, allowed);
    }
  }

  /* ---- 64 underscores ---- */

  lemma {:induction false} CountBounds(c: char, s: string)
    ensures Count(c, s) <= |s|
    ensures Count(c, s) == |s| <==> forall i :: 0 <= i < |s| ==> s[i] == c
  {
    if s != "" {
      CountBounds(c, s[1..]);
      assert s == [s[0]] + s[1..];
    }
  }

  lemma OnlyHeaviest(topic: string, k: Key)
    requires AllowedTopic(topic) && Heaviest(topic) && IsStoredPattern(k.1) && Weight(k) >= 128
    ensures k.1 == EscapeUnderscore(topic)
  {
    var p := FromSqlWildcard(k.1);
    CountBounds('_', p);
    assert p == topic;
    TopicHasNoStar(topic);
  }

  lemma ServedIfHeaviest(u: string, topic: string, t: Table, everyone: Permission, default: Permission,
      asked: Permission, allowed: bool)
    requires AllowedTopic(topic) && u != EVERYONE && Heaviest(topic)
    ensures OwnerServed(u, topic, t, everyone, default, asked, allowed)
  {
    var s := EscapeUnderscore(topic);
    var r := Reserve(t, u, s, everyone);
    ReservedKeyCovers(topic);
    ReservationWeighs(u, topic);
    CountBounds('_', topic);
    assert Covers(r, u, topic, (u, s));
    if StoredPatterns(t) {
      StoredTopic(topic);
      forall k | Decides(r, u, topic, k) ensures k == (u, s) {
        OnlyHeaviest(topic, k);
      }
    }
  }

  /* ---- a pattern that the check overlooks and that outranks the reservation ---- */

  lemma {:induction false} ConcatParts(a: seq<string>, b: seq<string>)
    ensures Concat(a + b) == Concat(a) + Concat(b)
  {
    if a == [] {
      assert a + b == b;
    } else {
      assert (a + b)[1..] == a[1..] + b;
      ConcatParts(a[1..], b);
    }
  }

  predicate StarAt(p: string, i: int) {
    0 <= i < |p| && p[i] == '*' && forall j :: 0 <= j < |p| && j != i ==> p[j] != '*'
  }

  /** A text that a pattern with one wildcard covers starts and ends as the pattern does. */
  lemma {:induction false} GlobOneStar(s: string, p: string, i: int, parts: seq<string>)
    requires StarAt(p, i) && Expands(p, parts) && Concat(parts) == s
    ensures |s| >= |p| - 1
    ensures forall j :: 0 <= j < i ==> Fold(s[j]) == Fold(p[j])
    ensures forall j :: i < j < |p| ==> Fold(s[|s| - |p| + j]) == Fold(p[j])
    decreases |p|
  {
    var rest := Concat(parts[1..]);
    if i == 0 {
      LiteralParts(rest, p[1..], parts[1..]);
      forall j | 0 < j < |p| ensures Fold(s[|s| - |p| + j]) == Fold(p[j]) {
        assert FoldAll(rest)[j - 1] == FoldAll(p[1..])[j - 1];
      }
    } else {
      assert parts[0] == [parts[0][0]];
      GlobOneStar(rest, p[1..], i - 1, parts[1..]);
    }
  }

  lemma OneStarEnds(s: string, p: string, i: int)
    requires StarAt(p, i) && Glob(s, p)
    ensures |s| >= |p| - 1
    ensures forall j :: 0 <= j < i ==> Fold(s[j]) == Fold(p[j])
    ensures forall j :: i < j < |p| ==> Fold(s[|s| - |p| + j]) == Fold(p[j])
  {
    var parts :| Expands(p, parts) && Concat(parts) == s;
    GlobOneStar(s, p, i, parts);
  }

  lemma EscapedAt(topic: string, m: int)
    requires 0 <= m < |topic| && topic[m] == '_'
    ensures EscapeUnderscore(topic) == EscapeUnderscore(topic[..m]) + "\\_" + EscapeUnderscore(topic[m + 1..])
  {
    assert topic == topic[..m] + (['_'] + topic[m + 1..]);
    ReplaceCharConcat(topic[..m], ['_'] + topic[m + 1..], '_', "\\_");
    assert (['_'] + topic[m + 1..])[1..] == topic[m + 1..];
  }

  /** Escaping puts a backslash where the first underscore was, counted from the front. */
  lemma FirstEscape(topic: string, m: int) returns (first: int)
    requires 0 <= m < |topic| && topic[m] == '_'
    ensures 0 <= first <= m && topic[first] == '_' && first < |EscapeUnderscore(topic)|
      && EscapeUnderscore(topic)[first] == '\\'
  {
    first := 0;
    while topic[first] != '_'
      invariant 0 <= first <= m && '_' !in topic[..first]
      decreases m - first
    {
      assert topic[..first + 1] == topic[..first] + [topic[first]];
      first := first + 1;
    }
    EscapedAt(topic, first);
    ReplaceCharAbsent(topic[..first], '_', "\\_");
  }

  /** And one in front of the last underscore, counted from the end. */
  lemma LastEscape(topic: string, m: int) returns (last: int)
    requires 0 <= m < |topic| && topic[m] == '_'
    ensures m <= last < |topic| && topic[last] == '_'
    ensures var s := EscapeUnderscore(topic); |s| - |topic| + last >= 1 && s[|s| - |topic| + last - 1] == '\\'
  {
    last := |topic| - 1;
    while topic[last] != '_'
      invariant m <= last < |topic| && '_' !in topic[last + 1..]
      decreases last
    {
      assert topic[last..] == [topic[last]] + topic[last + 1..];
      last := last - 1;
    }
    EscapedAt(topic, last);
    ReplaceCharAbsent(topic[last + 1..], '_', "\\_");
  }

  /** A pattern that agrees with the topic up to its wildcard, behind an underscore, overlooks the escaped
      topic. */
  lemma OverlooksBehind(topic: string, p: string, i: int, m: int)
    requires AllowedTopic(topic) && StarAt(p, i) && i <= |topic| && p[..i] == topic[..i]
    requires 0 <= m < i && topic[m] == '_'
    ensures !Glob(EscapeUnderscore(topic), p)
  {
    var s := EscapeUnderscore(topic);
    var first := FirstEscape(topic, m);
    assert p[first] == p[..i][first] == topic[first];
    if Glob(s, p) { OneStarEnds(s, p, i); }
  }

  /** So does one that agrees with the topic from its wildcard on, with an underscore further behind. */
  lemma OverlooksAhead(topic: string, p: string, i: int, m: int)
    requires AllowedTopic(topic) && StarAt(p, i) && |p| == |topic| && p[i + 1..] == topic[i + 1..]
    requires i + 2 <= m < |topic| && topic[m] == '_'
    ensures !Glob(EscapeUnderscore(topic), p)
  {
    var s := EscapeUnderscore(topic);
    var last := LastEscape(topic, m);
    var j := last - 1;
    assert p[j] == p[i + 1..][j - i - 1] == topic[j] && IsTopicChar(topic[j]);
    assert s[|s| - |p| + j] == '\\';
    if Glob(s, p) { OneStarEnds(s, p, i); }
  }

  /** The check overlooks p, and p weighs at least as much as the topic. */
  ghost predicate Outranks(topic: string, p: string) {
    && AllowedTopicPattern(p) && '*' in p && Glob(topic, p) && !Glob(EscapeUnderscore(topic), p)
    && |p| + Count('_', p) >= |topic| + Count('_', topic)
  }

  lemma LongerOutranks(topic: string, m: int)
    requires AllowedTopic(topic) && |topic| < 64 && 0 <= m < |topic| && topic[m] == '_'
    ensures Outranks(topic, topic + "*")
  {
    var p := topic + "*";
    var parts := seq(|topic|, i requires 0 <= i < |topic| => [topic[i]]);
    Singletons(topic);
    ConcatParts(parts, [""]);
    assert Concat(parts + [""]) == topic && Expands(p, parts + [""]);
    CountConcat('_', topic, "*");
    assert p[|topic|] == '*';
    OverlooksBehind(topic, p, |topic|, m);
  }

  function WithStar(topic: string, i: nat): string
    requires i < |topic|
  {
    topic[i := '*']
  }

  lemma {:induction false} CountUpdate(c: char, s: string, i: nat, x: char)
    requires i < |s| && s[i] != c && x != c
    ensures Count(c, s[i := x]) == Count(c, s)
  {
    if i == 0 {
      assert s[0 := x][1..] == s[1..];
    } else {
      assert s[i := x][1..] == s[1..][i - 1 := x];
      CountUpdate(c, s[1..], i - 1, x);
    }
  }

  lemma StarCovers(topic: string, i: nat)
    requires AllowedTopic(topic) && i < |topic| && topic[i] != '_'
    ensures var p := WithStar(topic, i);
      AllowedTopicPattern(p) && StarAt(p, i) && Glob(topic, p) && |p| + Count('_', p) == |topic| + Count('_', topic)
  {
    CountUpdate('_', topic, i, '*');
    StarGlob(topic, i);
  }

  lemma StarGlob(topic: string, i: nat)
    requires i < |topic|
    ensures Glob(topic, WithStar(topic, i))
  {
    var parts := seq(|topic|, j requires 0 <= j < |topic| => [topic[j]]);
    Singletons(topic);
    assert Expands(WithStar(topic, i), parts);
  }

  lemma StarOutranks(topic: string, i: nat, m: nat)
    requires AllowedTopic(topic) && i < |topic| && topic[i] != '_'
    requires m < |topic| && topic[m] == '_' && (m < i || m >= i + 2)
    ensures Outranks(topic, WithStar(topic, i))
  {
    var p := WithStar(topic, i);
    StarCovers(topic, i);
    if m < i {
      assert p[..i] == topic[..i];
      OverlooksBehind(topic, p, i, m);
    } else {
      assert p[i + 1..] == topic[i + 1..];
      OverlooksAhead(topic, p, i, m);
    }
  }

  /** Every topic with an underscore is outranked, unless it consists of 64 of them. */
  lemma OutrankingPattern(topic: string) returns (p: string)
    requires AllowedTopic(topic) && '_' in topic && !Heaviest(topic)
    ensures Outranks(topic, p)
  {
    var m :| 0 <= m < |topic| && topic[m] == '_';
    if |topic| < 64 {
      LongerOutranks(topic, m);
      p := topic + "*";
    } else {
      var n :| 0 <= n < |topic| && topic[n] != '_';
      if m != n + 1 {
        StarOutranks(topic, n, m);
        p := WithStar(topic, n);
      } else {
        var x := if n + 2 < 64 then n + 2 else 0;
        var (i, other) := if topic[x] == '_' then (n, x) else (x, m);
        StarOutranks(topic, i, other);
        p := WithStar(topic, i);
      }
    }
  }

  /** With a grant of it to write only, the reservation goes through and its owner is refused reading, at
      least when ties come in that order. */
  lemma DeniedTable(u: string, topic: string, p: string) returns (t: Table)
    requires AllowedTopic(topic) && u != EVERYONE && Outranks(topic, p)
    ensures !OwnerServed(u, topic, t, READ, READ, READ, false)
  {
    var s := EscapeUnderscore(topic);
    StoredPattern(p);
    WildcardRoundTrip(p);
    AllowedPatternIsPlain(p);
    LikeIsGlob(s, p);
    TopicHasNoStar(topic);
    ReservedKeyCovers(topic);
    if ToSqlWildcard(p) == s { StoredPatternsDistinct(p, topic); }
    var k := (u, ToSqlWildcard(p));
    t := map[k := Row(WRITE, None, false)];
    OutrankedTable(t, u, topic, k);
  }

  lemma OutrankedTable(t: Table, u: string, topic: string, k: Key)
    requires AllowedTopic(topic) && u != EVERYONE && t.Keys == {k} && t[k] == Row(WRITE, None, false)
    requires k.0 == u && k.1 != EscapeUnderscore(topic) && !Like(EscapeUnderscore(topic), k.1)
    requires IsStoredPattern(k.1) && Glob(topic, FromSqlWildcard(k.1)) && Weight(k) >= |topic| + Count('_', topic)
    ensures !OwnerServed(u, topic, t, READ, READ, READ, false)
  {
    AdmitsOverlooked(t, u, topic, k);
    OwnRows(t, u, EscapeUnderscore(topic), k);
    ReservationWeighs(u, topic);
    OutrankedDecides(Reserve(t, u, EscapeUnderscore(topic), READ), u, topic, k, (u, EscapeUnderscore(topic)));
  }

  lemma OwnRows(t: Table, u: string, s: string, k: Key)
    requires u != EVERYONE && k.0 == u && k.1 != s && t.Keys == {k}
    ensures var r := Reserve(t, u, s, READ);
      k in r && r[k] == t[k] && forall j :: j in r && j.0 == u ==> j == k || j == (u, s)
  {}

  lemma ReservationWeighs(u: string, topic: string)
    requires AllowedTopic(topic)
    ensures Weight((u, EscapeUnderscore(topic))) == |topic| + Count('_', topic)
  {
    ReservedKeyCovers(topic);
  }

  lemma AdmitsOverlooked(t: Table, u: string, topic: string, k: Key)
    requires t.Keys == {k} && t[k] == Row(WRITE, None, false)
    requires k.1 != EscapeUnderscore(topic) && !Like(EscapeUnderscore(topic), k.1) && IsStoredPattern(k.1)
    ensures Admits(t, u, topic)
  {}

  lemma OutrankedDecides(r: Table, u: string, topic: string, k: Key, reserved: Key)
    requires k in r && k.0 == u && r[k].perm == WRITE && forall j :: j in r && j.0 == u ==> j == k || j == reserved
    requires Glob(topic, FromSqlWildcard(k.1)) && Weight(k) >= Weight(reserved)
    ensures Answer(r, READ, u, topic, READ, false)
  {
    assert Covers(r, u, topic, k) && Decides(r, u, topic, k);
    assert false == Grants(r[k].perm, READ);
  }

  /* ---- ties ---- */

  /** Two patterns of the same weight that cover the topic. */
  ghost predicate Tied(topic: string, p: string, q: string) {
    && AllowedTopicPattern(p) && AllowedTopicPattern(q) && p != q && Glob(topic, p) && Glob(topic, q)
    && |p| + Count('_', p) == |q| + Count('_', q)
  }

  lemma TiedPatterns(topic: string) returns (p: string, q: string)
    requires AllowedTopic(topic)
    ensures Tied(topic, p, q)
  {
    if i :| 0 <= i < |topic| && topic[i] != '_' {
      GlobSelf(topic);
      StarCovers(topic, i);
      assert WithStar(topic, i)[i] == '*';
      p, q := topic, WithStar(topic, i);
    } else {
      assert topic[0] == '_';
      StarredUnderscore(topic);
      FourEach();
      p, q := "*_*", "****";
    }
  }

  /** For every topic there is a table in which a read may be answered either way. */
  lemma ReadOpen(u: string, topic: string, default: Permission) returns (t: Table)
    requires AllowedTopic(topic)
    ensures StoredPatterns(t) && Answer(t, default, u, topic, READ, true) && Answer(t, default, u, topic, READ, false)
  {
    var p, q := TiedPatterns(topic);
    var both, write := (u, ToSqlWildcard(p)), (u, ToSqlWildcard(q));
    AllowedPatternIsPlain(p);
    AllowedPatternIsPlain(q);
    if both == write { StoredPatternsDistinct(p, q); }
    t := TwoRows(both, Permission(true, true), write, WRITE);
    CoversByPattern(t, u, topic, p);
    CoversByPattern(t, u, topic, q);
    TiedDecide(t, u, topic, both, write);
    assert true == Grants(t[both].perm, READ) && false == Grants(t[write].perm, READ);
  }

  lemma TiedDecide(t: Table, u: string, topic: string, a: Key, b: Key)
    requires t.Keys == {a, b} && Covers(t, u, topic, a) && Covers(t, u, topic, b)
    requires Weight(a) == Weight(b) && t[a].perm.write && t[b].perm.write
    ensures Decides(t, u, topic, a) && Decides(t, u, topic, b)
  {}
}
