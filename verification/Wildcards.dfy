/** SQLite's LIKE ... ESCAPE '\' and the string functions that build its patterns
    (user/manager.go). */
module Wildcards {
  import opened Text

  /** SQLite's pattern comparison with '\' as the escape character: '%' stands for any run, '_' for
      any one character, and ASCII case is ignored. A pattern that ends in the escape character
      matches nothing. */
  predicate Like(s: string, p: string)
    decreases |p|, |s|
  {
    if p == "" then s == ""
    else if p[0] == '%' then Like(s, p[1..]) || (s != "" && Like(s[1..], p))
    else if s == "" then false
    else if p[0] == '_' then Like(s[1..], p[1..])
    else if p[0] == '\\' then |p| > 1 && Fold(s[0]) == Fold(p[1]) && Like(s[1..], p[2..])
    else Fold(s[0]) == Fold(p[0]) && Like(s[1..], p[1..])
  }

  function EscapeUnderscore(s: string): string { ReplaceChar(s, '_', "\\_") }

  function UnescapeUnderscore(s: string): string { ReplacePair(s, '\\', '_', "_") }

  function ToSqlWildcard(s: string): string { EscapeUnderscore(ReplaceChar(s, '*', "%")) }

  function FromSqlWildcard(s: string): string { ReplaceChar(UnescapeUnderscore(s), '%', "*") }

  function EscapeLike(s: string): string {
    ReplaceChar(ReplaceChar(ReplaceChar(s, '\\', "\\\\"), '%', "\\%"), '_', "\\_")
  }

  /* ---- what the patterns are meant to say ---- */

  /** One piece of text per pattern character: any text for '*', the same letter (ASCII case
      ignored) for everything else. */
  ghost predicate Expands(p: string, parts: seq<string>) {
    |parts| == |p| &&
    forall i :: 0 <= i < |p| && p[i] != '*' ==> |parts[i]| == 1 && Fold(parts[i][0]) == Fold(p[i])
  }

  /** t is an instance of the pattern p, in which '*' is the only wildcard. */
  ghost predicate Glob(t: string, p: string) {
    exists parts :: Expands(p, parts) && Concat(parts) == t
  }

  ghost predicate OccursAt(q: string, s: string, i: int) {
    0 <= i <= |s| - |q| && FoldAll(s[i..i + |q|]) == FoldAll(q)
  }

  ghost predicate OccursIn(q: string, s: string) {
    exists i :: OccursAt(q, s, i)
  }

  /* ---- wildcard patterns ---- */

  predicate Plain(p: string) { '%' !in p && '\\' !in p }

  function Token(c: char): string { if c == '*' then "%" else if c == '_' then "\\_" else [c] }

  lemma ToSqlWildcardUnfold(p: string)
    requires p != ""
    ensures ToSqlWildcard(p) == Token(p[0]) + ToSqlWildcard(p[1..])
  {
    ReplaceCharConcat(if p[0] == '*' then "%" else [p[0]], ReplaceChar(p[1..], '*', "%"), '_', "\\_");
  }

  /** One step of LIKE on a stored pattern. */
  lemma LikeUnfold(t: string, p: string)
    requires Plain(p) && p != ""
    ensures Like(t, ToSqlWildcard(p)) <==>
      if p[0] == '*' then Like(t, ToSqlWildcard(p[1..])) || (t != "" && Like(t[1..], ToSqlWildcard(p)))
      else t != "" && Fold(t[0]) == Fold(p[0]) && Like(t[1..], ToSqlWildcard(p[1..]))
  {
    ToSqlWildcardUnfold(p);
    assert ToSqlWildcard(p)[|Token(p[0])|..] == ToSqlWildcard(p[1..]);
  }

  lemma {:induction false} GlobIfLike(t: string, p: string) returns (parts: seq<string>)
    requires Plain(p) && Like(t, ToSqlWildcard(p))
    ensures Expands(p, parts) && Concat(parts) == t
    decreases |p|, |t|
  {
    if p == "" {
      parts := [];
    } else {
      LikeUnfold(t, p);
      if p[0] == '*' && !Like(t, ToSqlWildcard(p[1..])) {
        parts := GlobIfLike(t[1..], p);
        parts := parts[0 := [t[0]] + parts[0]];
      } else if p[0] == '*' {
        parts := GlobIfLike(t, p[1..]);
        parts := [""] + parts;
      } else {
        parts := GlobIfLike(t[1..], p[1..]);
        parts := [[t[0]]] + parts;
      }
      assert t == parts[0] + Concat(parts[1..]);
    }
  }

  lemma {:induction false} LikeIfGlob(t: string, p: string, parts: seq<string>)
    requires Plain(p) && Expands(p, parts) && Concat(parts) == t
    ensures Like(t, ToSqlWildcard(p))
    decreases |p|, |t|
  {
    if p != "" {
      LikeUnfold(t, p);
      if p[0] == '*' && parts[0] != "" {
        assert Concat(parts[0 := parts[0][1..]]) == t[1..];
        LikeIfGlob(t[1..], p, parts[0 := parts[0][1..]]);
      } else if p[0] == '*' {
        LikeIfGlob(t, p[1..], parts[1..]);
      } else {
        assert t[1..] == Concat(parts[1..]);
        LikeIfGlob(t[1..], p[1..], parts[1..]);
      }
    }
  }

  /** The stored form of a pattern matches, under LIKE, exactly the instances of the pattern. It
      holds for every text, in particular for topics that are themselves escaped. */
  lemma LikeIsGlob(t: string, p: string)
    requires Plain(p)
    ensures Like(t, ToSqlWildcard(p)) <==> Glob(t, p)
  {
    if Like(t, ToSqlWildcard(p)) {
      var parts := GlobIfLike(t, p);
    }
    if Glob(t, p) {
      var parts :| Expands(p, parts) && Concat(parts) == t;
      LikeIfGlob(t, p, parts);
    }
  }

  lemma {:induction false} StarThereAndBack(p: string)
    ensures ReplaceChar(ReplaceChar(p, '*', "%"), '%', "*") == p <==> '%' !in p
  {
    if p != "" {
      StarThereAndBack(p[1..]);
      var r := ReplaceChar(p[1..], '*', "%");
      ReplaceCharConcat(if p[0] == '*' then "%" else [p[0]], r, '%', "*");
      var back := ReplaceChar(ReplaceChar(p, '*', "%"), '%', "*");
      assert back[1..] == ReplaceChar(r, '%', "*");
      assert p == [p[0]] + p[1..] && back == [back[0]] + back[1..];
    }
  }

  /** Reading a stored pattern back gives the pattern that was stored, exactly for the strings
      without '%'. */
  lemma WildcardRoundTrip(p: string)
    ensures FromSqlWildcard(ToSqlWildcard(p)) == p <==> '%' !in p
  {
    UnescapeUndoesEscape(ReplaceChar(p, '*', "%"), '_');
    StarThereAndBack(p);
  }

  /** Distinct patterns are stored under distinct keys. */
  lemma StoredPatternsDistinct(p: string, q: string)
    requires '%' !in p && '%' !in q && ToSqlWildcard(p) == ToSqlWildcard(q)
    ensures p == q
  {
    WildcardRoundTrip(p);
    WildcardRoundTrip(q);
  }

  function Count(c: char, s: string): nat {
    if s == "" then 0 else (if s[0] == c then 1 else 0) + Count(c, s[1..])
  }

  /** LENGTH of a stored pattern, by which rows are ordered, counts every '_' twice. */
  lemma {:induction false} StoredLength(p: string)
    ensures |ToSqlWildcard(p)| == |p| + Count('_', p)
  {
    if p != "" {
      ToSqlWildcardUnfold(p);
      StoredLength(p[1..]);
    }
  }

  /* ---- search queries ---- */

  function LikeToken(c: char): string { if c == '\\' || c == '%' || c == '_' then ['\\', c] else [c] }

  /** The three successive replacements escape each character once, none of them twice. */
  lemma EscapeLikeUnfold(q: string)
    requires q != ""
    ensures EscapeLike(q) == LikeToken(q[0]) + EscapeLike(q[1..])
  {
    var c := q[0];
    var a0, a := if c == '\\' then "\\\\" else [c], ReplaceChar(q[1..], '\\', "\\\\");
    ReplaceCharConcat(a0, a, '%', "\\%");
    var b0, b := ReplaceChar(a0, '%', "\\%"), ReplaceChar(a, '%', "\\%");
    ReplaceCharConcat(b0, b, '_', "\\_");
    if c == '\\' {
      ReplaceCharAbsent(a0, '%', "\\%");
      ReplaceCharAbsent(a0, '_', "\\_");
    } else if c == '%' {
      assert b0 == "\\%" + "";
      ReplaceCharAbsent(b0, '_', "\\_");
    } else {
      ReplaceCharAbsent(a0, '%', "\\%");
      assert c != '_' ==> ReplaceChar(b0, '_', "\\_") == [c] by {
        if c != '_' { ReplaceCharAbsent(b0, '_', "\\_"); }
      }
      assert c == '_' ==> ReplaceChar("_", '_', "\\_") == "\\_" + "";
    }
  }

  lemma {:induction false} PercentMatchesAll(s: string)
    ensures Like(s, "%")
  {
    if s != "" {
      PercentMatchesAll(s[1..]);
    }
  }

  lemma {:induction false} LikeLiteralPrefix(s: string, q: string)
    ensures Like(s, EscapeLike(q) + "%") <==> OccursAt(q, s, 0)
  {
    if q == "" {
      assert EscapeLike(q) + "%" == "%";
      PercentMatchesAll(s);
    } else {
      EscapeLikeUnfold(q);
      var rest := EscapeLike(q[1..]) + "%";
      assert EscapeLike(q) + "%" == LikeToken(q[0]) + rest;
      LikeTokenUnfold(s, q[0], rest);
      if s != "" {
        LikeLiteralPrefix(s[1..], q[1..]);
        PrefixUnfold(s, q);
      }
    }
  }

  lemma LikeTokenUnfold(s: string, c: char, rest: string)
    ensures Like(s, LikeToken(c) + rest) <==> s != "" && Fold(s[0]) == Fold(c) && Like(s[1..], rest)
  {
    assert (LikeToken(c) + rest)[|LikeToken(c)|..] == rest;
  }

  lemma PrefixUnfold(s: string, q: string)
    requires s != "" && q != ""
    ensures OccursAt(q, s, 0) <==> Fold(s[0]) == Fold(q[0]) && OccursAt(q[1..], s[1..], 0)
  {
    if |q| <= |s| {
      var a, b := FoldAll(s[..|q|]), FoldAll(q);
      var a1, b1 := FoldAll(s[1..][..|q| - 1]), FoldAll(q[1..]);
      assert s[0..0 + |q|] == s[..|q|] && s[1..][0..0 + |q[1..]|] == s[1..][..|q| - 1];
      assert a == [Fold(s[0])] + a1 && a[1..] == a1;
      assert b == [Fold(q[0])] + b1 && b[1..] == b1;
      assert a == b <==> a[0] == b[0] && a1 == b1;
    }
  }

  /** An occurrence is at the front or further on. */
  lemma OccursUnfold(q: string, s: string)
    requires s != ""
    ensures OccursIn(q, s) <==> OccursAt(q, s, 0) || OccursIn(q, s[1..])
  {
    if i :| OccursAt(q, s[1..], i) {
      assert s[1..][i..i + |q|] == s[i + 1..i + 1 + |q|];
      assert OccursAt(q, s, i + 1);
    }
    if i :| OccursAt(q, s, i) && i > 0 {
      assert s[1..][i - 1..i - 1 + |q|] == s[i..i + |q|];
      assert OccursAt(q, s[1..], i - 1);
    }
  }

  lemma PercentUnfold(s: string, rest: string)
    ensures Like(s, "%" + rest) <==> Like(s, rest) || (s != "" && Like(s[1..], "%" + rest))
  {
    assert ("%" + rest)[1..] == rest;
  }

  /** A user search finds exactly the strings in which the query occurs, ASCII case ignored,
      whatever wildcard or escape characters the query holds. */
  lemma {:induction false} SearchFindsSubstrings(s: string, q: string)
    ensures Like(s, "%" + EscapeLike(q) + "%") <==> OccursIn(q, s)
  {
    var rest := EscapeLike(q) + "%";
    assert "%" + EscapeLike(q) + "%" == "%" + rest;
    PercentUnfold(s, rest);
    LikeLiteralPrefix(s, q);
    if s == "" {
      assert OccursIn(q, s) <==> OccursAt(q, s, 0);
    } else {
      SearchFindsSubstrings(s[1..], q);
      OccursUnfold(q, s);
    }
  }
}
