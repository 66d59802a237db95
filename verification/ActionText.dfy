/** Printing actions in the simple format, with all the white space it allows, and reading the text back
    (server/actions.go). What counts as white space, as a key and as a separator is stated here on its own,
    character by character. */
module ActionText {
  import opened Text
  import opened ActionSyntax

  /** How a value is written: bare, or in quotes of either kind. */
  datatype Style = Bare | Quoted(quote: char)

  /** One section; the key is "" if the section goes by its position. */
  datatype Pair = Pair(key: string, value: string, style: Style)

  /** White space in front of the section, on either side of the equals sign, and on either side of the
      value. */
  datatype Layout = Layout(gap: string, before: string, after: string, lead: string, trail: string)

  /** A section as it is written out. */
  datatype Piece = Piece(pair: Pair, layout: Layout)

  predicate Blank(c: char) { c == ' ' || c == '\t' || c == '\r' || c == '\n' }
  predicate KeyBlank(c: char) { Blank(c) || c == '\U{0C}' }
  predicate WideBlank(c: char) {
    KeyBlank(c) || c == '\U{0B}' || c == '\U{85}' || c == '\U{A0}' || c == '\U{1680}' || '\U{2000}' <= c <= '\U{200A}'
    || c == '\U{2028}' || c == '\U{2029}' || c == '\U{202F}' || c == '\U{205F}' || c == '\U{3000}'
  }
  predicate KeyLetter(c: char) {
    'a' <= c <= 'z' || 'A' <= c <= 'Z' || '0' <= c <= '9' || c == '_' || c == '-' || c == '.'
  }
  predicate Separator(c: char) { c == ',' || c == ';' }
  predicate QuoteMark(c: char) { c == '"' || c == '\'' }

  predicate Blanks(s: string) { forall i :: 0 <= i < |s| ==> Blank(s[i]) }
  predicate KeyBlanks(s: string) { forall i :: 0 <= i < |s| ==> KeyBlank(s[i]) }
  predicate WideBlanks(s: string) { forall i :: 0 <= i < |s| ==> WideBlank(s[i]) }

  predicate LegalKey(key: string) { key != "" && forall i :: 0 <= i < |key| ==> KeyLetter(key[i]) }

  predicate IsQuoted(style: Style) { style.Quoted? && QuoteMark(style.quote) }

  /** The values that quoting can carry. */
  predicate Clean(value: string) { '\0' !in value && (value != "" ==> value[|value| - 1] != '\\') }

  /** The values that need no quotes. */
  predicate BareClean(value: string) {
    && value != "" && !WideBlank(value[0]) && !WideBlank(value[|value| - 1]) && !QuoteMark(value[0])
    && forall i :: 0 <= i < |value| ==> !Separator(value[i]) && value[i] != '\0'
  }

  /** The value begins as a key would: with letters, white space and an equals sign. */
  ghost predicate LooksKeyed(value: string) {
    exists i, j :: 0 < i <= j < |value| && LegalKey(value[..i]) && KeyBlanks(value[i..j]) && value[j] == '='
  }

  /** The sections that can be written in the given way. A bare positional value must not read as a key. */
  ghost predicate CleanPair(p: Pair) {
    && (p.key == "" || LegalKey(p.key))
    && match p.style
       case Quoted(quote) => QuoteMark(quote) && Clean(p.value)
       case Bare => BareClean(p.value) && (p.key == "" ==> !LooksKeyed(p.value))
  }

  predicate CleanLayout(x: Piece) {
    var l := x.layout;
    && Blanks(l.gap) && KeyBlanks(l.before) && KeyBlanks(l.after)
    && (x.pair.key == "" ==> l.before == "" && l.after == "")
    && if x.pair.style.Bare? then WideBlanks(l.lead) && WideBlanks(l.trail) else l.lead == "" && Blanks(l.trail)
  }

  ghost predicate CleanPiece(x: Piece) { CleanPair(x.pair) && CleanLayout(x) }

  ghost predicate CleanAction(pieces: seq<Piece>) {
    pieces != [] && forall i :: 0 <= i < |pieces| ==> CleanPiece(pieces[i])
  }

  ghost predicate CleanActions(actions: seq<seq<Piece>>) {
    forall i :: 0 <= i < |actions| ==> CleanAction(actions[i])
  }

  /* ---- printing ---- */

  function Escaped(value: string, quote: char): string { ReplaceChar(value, quote, ['\\', quote]) }

  function PrintValue(p: Pair): string {
    match p.style
    case Bare => p.value
    case Quoted(quote) => [quote] + (Escaped(p.value, quote) + [quote])
  }

  function PrintKey(x: Piece): string {
    if x.pair.key == "" then "" else x.pair.key + (x.layout.before + ("=" + x.layout.after))
  }

  function Print(x: Piece): string {
    x.layout.gap + (PrintKey(x) + (x.layout.lead + (PrintValue(x.pair) + x.layout.trail)))
  }

  /** Sections joined by a comma. */
  function PrintAction(pieces: seq<Piece>): string {
    if pieces == [] then ""
    else if |pieces| == 1 then Print(pieces[0])
    else Print(pieces[0]) + ("," + PrintAction(pieces[1..]))
  }

  /** Actions joined by a semicolon. */
  function PrintActions(actions: seq<seq<Piece>>): string {
    if actions == [] then ""
    else if |actions| == 1 then PrintAction(actions[0])
    else PrintAction(actions[0]) + (";" + PrintActions(actions[1..]))
  }

  /* ---- scanning ---- */

  lemma SameCharacters()
    ensures forall c :: IsSpace(c) <==> Blank(c)
    ensures forall c :: IsRegexSpace(c) <==> KeyBlank(c)
    ensures forall c :: IsUnicodeSpace(c) <==> WideBlank(c)
    ensures forall c :: IsKeyChar(c) <==> KeyLetter(c)
    ensures forall c :: IsQuote(c) <==> QuoteMark(c)
    ensures forall c :: IsSectionEnd(c) <==> Separator(c) || c == '\0'
    ensures forall c :: IsLastSection(c) <==> c == ';' || c == '\0'
  {}

  lemma {:induction false} SkipBlanks(gap: string, r: string)
    requires Blanks(gap) && (r == "" || !Blank(r[0]))
    ensures SkipSpaces(gap + r) == r
  {
    if gap == "" {
      assert gap + r == r;
    } else {
      assert (gap + r)[1..] == gap[1..] + r;
      SkipBlanks(gap[1..], r);
    }
  }

  lemma {:induction false} SkipTwice(r: string)
    ensures SkipSpaces(SkipSpaces(r)) == SkipSpaces(r)
  {
    if r != "" && IsSpace(r[0]) { SkipTwice(r[1..]); }
  }

  lemma {:induction false} KeyRunIs(key: string, r: string)
    requires (forall i :: 0 <= i < |key| ==> KeyLetter(key[i])) && (r == "" || !KeyLetter(r[0]))
    ensures KeyRun(key + r) == |key|
  {
    if key == "" {
      assert key + r == r;
    } else {
      assert (key + r)[1..] == key[1..] + r;
      KeyRunIs(key[1..], r);
    }
  }

  lemma {:induction false} SpaceRunIs(blanks: string, r: string)
    requires KeyBlanks(blanks) && (r == "" || !KeyBlank(r[0]))
    ensures SpaceRun(blanks + r) == |blanks|
  {
    if blanks == "" {
      assert blanks + r == r;
    } else {
      assert (blanks + r)[1..] == blanks[1..] + r;
      SpaceRunIs(blanks[1..], r);
    }
  }

  lemma {:induction false} KeyRunLetters(r: string)
    ensures forall i :: 0 <= i < KeyRun(r) ==> KeyLetter(r[i])
    ensures KeyRun(r) < |r| ==> !KeyLetter(r[KeyRun(r)])
  {
    if r != "" && IsKeyChar(r[0]) {
      KeyRunLetters(r[1..]);
      assert forall i :: 0 < i < KeyRun(r) ==> r[i] == r[1..][i - 1];
    }
  }

  lemma {:induction false} SpaceRunBlanks(r: string)
    ensures forall i :: 0 <= i < SpaceRun(r) ==> KeyBlank(r[i])
    ensures SpaceRun(r) < |r| ==> !KeyBlank(r[SpaceRun(r)])
  {
    if r != "" && IsRegexSpace(r[0]) {
      SpaceRunBlanks(r[1..]);
      assert forall i :: 0 < i < SpaceRun(r) ==> r[i] == r[1..][i - 1];
    }
  }

  /** A key is found with any white space on either side of the equals sign. */
  lemma TakesKey(key: string, before: string, after: string, v: string)
    requires LegalKey(key) && KeyBlanks(before) && KeyBlanks(after) && (v == "" || !KeyBlank(v[0]))
    ensures TakeKey(key + (before + ("=" + (after + v)))) == (key, v)
  {
    var behind := "=" + (after + v);
    var text := key + (before + behind);
    KeyRunIs(key, before + behind);
    SpaceRunIs(before, behind);
    assert text[..|key|] == key && text[|key|..] == before + behind;
    var e := |key| + |before|;
    assert text[e] == behind[0] && text[e + 1..] == after + v;
    SpaceRunIs(after, v);
    assert (after + v)[|after|..] == v;
  }

  /** No key is found unless the text begins as one. */
  lemma TakesNoKey(r: string)
    ensures TakeKey(r) == ("", r) || LooksKeyed(r)
  {
    var k := KeyRun(r);
    var e := k + SpaceRun(r[k..]);
    KeyRunLetters(r);
    SpaceRunBlanks(r[k..]);
    if k > 0 && e < |r| && r[e] == '=' {
      assert LegalKey(r[..k]);
      forall i | 0 <= i < e - k ensures KeyBlank(r[k..e][i]) { assert r[k..e][i] == r[k..][i]; }
      assert KeyBlanks(r[k..e]);
    }
  }

  lemma KeyParts(r: string, i: int, j: int)
    requires 0 < i <= j < |r| && LegalKey(r[..i]) && KeyBlanks(r[i..j])
    ensures forall m :: 0 <= m < i ==> KeyLetter(r[m])
    ensures forall m :: i <= m < j ==> KeyBlank(r[m])
  {
    forall m | 0 <= m < i ensures KeyLetter(r[m]) { assert r[..i][m] == r[m]; }
    forall m | i <= m < j ensures KeyBlank(r[m]) { assert r[i..j][m - i] == r[m]; }
  }

  lemma TextParts(value: string, trail: string, tail: string)
    requires BareClean(value) && WideBlanks(trail) && Tail(tail)
    ensures var r, n, t := value + (trail + tail), |value|, |value| + |trail|;
      && !WideBlank(r[n - 1])
      && (forall m :: n <= m < t ==> WideBlank(r[m]))
      && (t < |r| ==> Separator(r[t]))
  {
    var r, n := value + (trail + tail), |value|;
    assert r[n - 1] == value[n - 1];
    forall m | n <= m < n + |trail| ensures WideBlank(r[m]) { assert r[m] == trail[m - n]; }
    if tail != "" { assert r[n + |trail|] == tail[0]; }
  }

  lemma NothingBehind(value: string, trail: string, tail: string, i: int, j: int)
    requires BareClean(value) && WideBlanks(trail) && Tail(tail)
    requires var r := value + (trail + tail); 0 < i <= j < |r| && LegalKey(r[..i]) && KeyBlanks(r[i..j]) && r[j] == '='
    ensures j < |value|
  {
    KeyParts(value + (trail + tail), i, j);
    TextParts(value, trail, tail);
  }

  lemma KeyInValue(value: string, trail: string, tail: string)
    requires BareClean(value) && WideBlanks(trail) && Tail(tail)
    ensures LooksKeyed(value + (trail + tail)) ==> LooksKeyed(value)
  {
    var r := value + (trail + tail);
    if i, j :| 0 < i <= j < |r| && LegalKey(r[..i]) && KeyBlanks(r[i..j]) && r[j] == '=' {
      NothingBehind(value, trail, tail, i, j);
      assert r[..i] == value[..i] && r[i..j] == value[i..j] && value[j] == '=';
    }
  }

  lemma StartsAsKey(r: string)
    ensures LooksKeyed(r) ==> r != "" && KeyLetter(r[0])
  {
    if i, j :| 0 < i <= j < |r| && LegalKey(r[..i]) && KeyBlanks(r[i..j]) && r[j] == '=' { KeyParts(r, i, j); }
  }

  lemma SplitBlanks(s: string) returns (n: nat)
    ensures n <= |s| && Blanks(s[..n]) && (n < |s| ==> !Blank(s[n]))
  {
    n := 0;
    while n < |s| && Blank(s[n])
      invariant n <= |s| && Blanks(s[..n])
    {
      n := n + 1;
    }
  }

  lemma SplitKeyBlanks(s: string) returns (n: nat)
    ensures n <= |s| && KeyBlanks(s[..n]) && (n < |s| ==> !KeyBlank(s[n]))
  {
    n := 0;
    while n < |s| && KeyBlank(s[n])
      invariant n <= |s| && KeyBlanks(s[..n])
    {
      n := n + 1;
    }
  }

  lemma {:induction false} TrimLeftBlanks(l: string, r: string)
    requires WideBlanks(l) && (r == "" || !WideBlank(r[0]))
    ensures TrimLeft(l + r) == r
  {
    if l == "" {
      assert l + r == r;
    } else {
      assert (l + r)[1..] == l[1..] + r;
      TrimLeftBlanks(l[1..], r);
    }
  }

  lemma {:induction false} TrimRightBlanks(r: string, t: string)
    requires WideBlanks(t) && (r == "" || !WideBlank(r[|r| - 1]))
    ensures TrimRight(r + t) == r
  {
    if t == "" {
      assert r + t == r;
    } else {
      assert (r + t)[..|r + t| - 1] == r + t[..|t| - 1];
      assert (r + t)[|r + t| - 1] == t[|t| - 1];
      TrimRightBlanks(r, t[..|t| - 1]);
    }
  }

  /** White space around a text that neither begins nor ends with any is trimmed off. */
  lemma TrimAround(l: string, v: string, t: string)
    requires WideBlanks(l) && WideBlanks(t) && v != "" && !WideBlank(v[0]) && !WideBlank(v[|v| - 1])
    ensures TrimSpace(l + (v + t)) == v
  {
    TrimLeftBlanks(l, v + t);
    TrimRightBlanks(v, t);
  }

  /** What follows a printed section: nothing, or a separator. */
  predicate Tail(r: string) { r == "" || Separator(r[0]) }

  /* ---- quoted values ---- */

  function Shift(n: Option<nat>, k: nat): Option<nat> { if n.None? then None else Some(n.value + k) }

  lemma ScanPlain(c: char, r: string, prev: char, quote: char)
    requires c != NUL && (c == quote ==> prev == '\\')
    ensures ClosingQuote([c] + r, prev, quote) == Shift(ClosingQuote(r, c, quote), 1)
  {
    assert ([c] + r)[1..] == r;
  }

  lemma ScanEscapedQuote(r: string, prev: char, quote: char)
    requires QuoteMark(quote)
    ensures ClosingQuote(['\\'] + ([quote] + r), prev, quote) == Shift(ClosingQuote(r, quote, quote), 2)
  {
    ScanPlain('\\', [quote] + r, prev, quote);
    ScanPlain(quote, r, '\\', quote);
  }

  lemma ScanFirst(value: string, prev: char, quote: char, r: string)
    requires QuoteMark(quote) && value != "" && value[0] != NUL
    ensures var first := if value[0] == quote then 2 else 1;
      && |Escaped(value, quote)| == first + |Escaped(value[1..], quote)|
      && ClosingQuote(Escaped(value, quote) + r, prev, quote)
        == Shift(ClosingQuote(Escaped(value[1..], quote) + r, value[0], quote), first)
  {
    var rest := Escaped(value[1..], quote);
    if value[0] == quote {
      assert Escaped(value, quote) + r == ['\\'] + ([quote] + (rest + r));
      ScanEscapedQuote(rest + r, prev, quote);
    } else {
      assert Escaped(value, quote) + r == [value[0]] + (rest + r);
      ScanPlain(value[0], rest + r, prev, quote);
    }
  }

  /** Inside an escaped value no quote closes, unless a NUL or the end comes first; the scan goes on
      behind it with the value's last character as the previous one. */
  lemma {:induction false} ScanEscaped(value: string, prev: char, quote: char, r: string)
    requires QuoteMark(quote) && NUL !in value
    ensures ClosingQuote(Escaped(value, quote) + r, prev, quote) ==
      Shift(ClosingQuote(r, if value == "" then prev else value[|value| - 1], quote), |Escaped(value, quote)|)
  {
    if value == "" {
      assert Escaped(value, quote) + r == r;
    } else {
      ScanFirst(value, prev, quote, r);
      ScanEscaped(value[1..], value[0], quote, r);
    }
  }

  lemma {:induction false} NulEndsScan(value: string, prev: char, quote: char, r: string)
    requires QuoteMark(quote) && NUL in value
    ensures ClosingQuote(Escaped(value, quote) + r, prev, quote) == None
  {
    if value[0] == NUL {
      assert (Escaped(value, quote) + r)[0] == NUL;
    } else {
      ScanFirst(value, prev, quote, r);
      NulEndsScan(value[1..], value[0], quote, r);
    }
  }

  /** Over white space the scan goes on without closing. */
  lemma {:induction false} ScanBlanks(blanks: string, prev: char, quote: char, r: string)
    requires QuoteMark(quote) && Blanks(blanks) && Tail(r)
    ensures var n := ClosingQuote(blanks + r, prev, quote); n.Some? ==> n.value > |blanks|
    decreases |blanks|
  {
    if blanks == "" {
      assert blanks + r == r;
    } else {
      assert blanks + r == [blanks[0]] + (blanks[1..] + r);
      ScanPlain(blanks[0], blanks[1..] + r, prev, quote);
      ScanBlanks(blanks[1..], blanks[0], quote, r);
    }
  }

  function QuotedText(value: string, quote: char, behind: string): string {
    [quote] + (Escaped(value, quote) + ([quote] + behind))
  }

  lemma QuotedPieces(e: string, quote: char, behind: string)
    ensures var v := [quote] + (e + ([quote] + behind));
      v[1..] == e + ([quote] + behind) && v[1..|e| + 1] == e && v[|e| + 2..] == behind
  {
    var v, w := [quote] + (e + ([quote] + behind)), ([quote] + e) + [quote];
    assert v == w + behind && |w| == |e| + 2;
    assert v[|e| + 2..] == behind;
  }

  function ReadBack(p: Pair, tail: string): Section {
    Section(p.key, p.value, tail == "" || tail[0] == ';', AfterEnd(tail))
  }

  lemma CleanValueReadsBack(p: Pair, quote: char, trail: string, tail: string)
    requires QuoteMark(quote) && Blanks(trail) && Tail(tail) && Clean(p.value)
    ensures TakeQuoted(p.key, QuotedText(p.value, quote, trail + tail)) == Ok(ReadBack(p, tail))
  {
    var e, behind := Escaped(p.value, quote), trail + tail;
    ScanEscaped(p.value, NUL, quote, [quote] + behind);
    QuotedPieces(e, quote, behind);
    UnescapeUndoesEscape(p.value, quote);
    SkipBlanks(trail, tail);
  }

  lemma BackslashSwallowsQuote(p: Pair, quote: char, trail: string, tail: string)
    requires QuoteMark(quote) && Blanks(trail) && Tail(tail)
    requires NUL !in p.value && p.value != "" && p.value[|p.value| - 1] == '\\'
    ensures TakeQuoted(p.key, QuotedText(p.value, quote, trail + tail)) != Ok(ReadBack(p, tail))
  {
    var e, behind := Escaped(p.value, quote), trail + tail;
    var v := QuotedText(p.value, quote, behind);
    assert v[1..] == e + ([quote] + behind);
    ScanEscaped(p.value, NUL, quote, [quote] + behind);
    ScanPlain(quote, behind, '\\', quote);
    ScanBlanks(trail, quote, quote, tail);
    var closing := ClosingQuote(behind, quote, quote);
    if closing.Some? {
      assert |SkipSpaces(v[closing.value + |e| + 3..])| <= |tail| - 2;
    }
  }

  lemma QuotedReadsBackExactly(p: Pair, quote: char, trail: string, tail: string)
    requires QuoteMark(quote) && Blanks(trail) && Tail(tail)
    ensures TakeQuoted(p.key, QuotedText(p.value, quote, trail + tail)) == Ok(ReadBack(p, tail)) <==> Clean(p.value)
  {
    if NUL in p.value {
      NulEndsScan(p.value, NUL, quote, [quote] + (trail + tail));
      QuotedPieces(Escaped(p.value, quote), quote, trail + tail);
    } else if Clean(p.value) {
      CleanValueReadsBack(p, quote, trail, tail);
    } else {
      BackslashSwallowsQuote(p, quote, trail, tail);
    }
  }

  /** A quoted value that is not closed is refused, and so is other text behind one. */
  lemma BadQuotesRefused(key: string, value: string, quote: char, trail: string, rest: string)
    requires QuoteMark(quote) && Blanks(trail) && Clean(value)
    ensures TakeQuoted(key, [quote] + Escaped(value, quote)) == Err(UnexpectedEnd)
    ensures rest != "" && !Blank(rest[0]) && !Separator(rest[0]) && rest[0] != '\0' ==>
      TakeQuoted(key, QuotedText(value, quote, trail + rest)) == Err(UnexpectedCharacter(rest[0]))
  {
    ScanEscaped(value, NUL, quote, "");
    assert Escaped(value, quote) + "" == Escaped(value, quote);
    assert ([quote] + Escaped(value, quote))[1..] == Escaped(value, quote);
    ScanEscaped(value, NUL, quote, [quote] + (trail + rest));
    QuotedPieces(Escaped(value, quote), quote, trail + rest);
    if rest != "" && !Blank(rest[0]) { SkipBlanks(trail, rest); }
  }

  /* ---- one section ---- */

  lemma JoinedPrint(x: Piece, tail: string)
    ensures Print(x) + tail ==
      x.layout.gap + (PrintKey(x) + (x.layout.lead + (PrintValue(x.pair) + (x.layout.trail + tail))))
  {}

  lemma JoinedKey(key: string, before: string, after: string, v: string)
    ensures (key + (before + ("=" + after))) + v == key + (before + ("=" + (after + v)))
  {}

  lemma TakesQuotedSection(r: string, key: string, v: string)
    requires TakeKey(SkipSpaces(r)) == (key, v) && v != "" && QuoteMark(v[0])
    ensures TakeSection(r) == TakeQuoted(key, v)
  {}

  lemma QuotedStarts(x: Piece, tail: string)
    requires (x.pair.key == "" || LegalKey(x.pair.key)) && IsQuoted(x.pair.style) && CleanLayout(x)
    ensures TakeSection(Print(x) + tail) ==
      TakeQuoted(x.pair.key, QuotedText(x.pair.value, x.pair.style.quote, x.layout.trail + tail))
  {
    var l, p := x.layout, x.pair;
    var v := QuotedText(p.value, p.style.quote, l.trail + tail);
    JoinedPrint(x, tail);
    assert l.lead + (PrintValue(p) + (l.trail + tail)) == v;
    SkipBlanks(l.gap, PrintKey(x) + v);
    if p.key == "" {
      assert PrintKey(x) + v == v;
      StartsAsKey(v);
      TakesNoKey(v);
    } else {
      JoinedKey(p.key, l.before, l.after, v);
      TakesKey(p.key, l.before, l.after, v);
    }
    TakesQuotedSection(Print(x) + tail, p.key, v);
  }

  /** A section printed in quotes, with or without a key, and with white space wherever it may stand, reads
      back as its key and value and leaves the text behind its separator, if and only if the value holds no
      NUL and does not end in a backslash. */
  lemma QuotedSectionRoundTrip(x: Piece, tail: string)
    requires (x.pair.key == "" || LegalKey(x.pair.key)) && IsQuoted(x.pair.style) && CleanLayout(x) && Tail(tail)
    ensures TakeSection(Print(x) + tail) == Ok(ReadBack(x.pair, tail)) <==> Clean(x.pair.value)
  {
    QuotedStarts(x, tail);
    QuotedReadsBackExactly(x.pair, x.pair.style.quote, x.layout.trail, tail);
  }

  lemma {:induction false} ValueRunIs(v: string, tail: string)
    requires Tail(tail) && forall i :: 0 <= i < |v| ==> !Separator(v[i]) && v[i] != '\0'
    ensures ValueRun(v + tail) == |v|
  {
    if v == "" {
      assert v + tail == tail;
    } else {
      assert (v + tail)[1..] == v[1..] + tail;
      ValueRunIs(v[1..], tail);
    }
  }

  lemma TakesBare(r: string, key: string, v: string, n: nat)
    requires TakeKey(SkipSpaces(r)) == (key, v) && !IsSectionEnd(Peek(v)) && !IsQuote(Peek(v)) && ValueRun(v) == n
    ensures TakeSection(r) == Ok(Section(key, TrimSpace(v[..n]), IsLastSection(Peek(v[n..])), AfterEnd(v[n..])))
  {}

  lemma BareText(value: string, lead: string, trail: string, tail: string)
    requires BareClean(value) && WideBlanks(lead) && WideBlanks(trail) && Tail(tail)
    ensures var text, v := lead + (value + trail), lead + (value + (trail + tail));
      && v == text + tail && v[..|text|] == text && v[|text|..] == tail && ValueRun(v) == |text|
      && v != "" && !Separator(v[0]) && v[0] != '\0' && !QuoteMark(v[0])
  {
    var text := lead + (value + trail);
    assert lead + (value + (trail + tail)) == text + tail;
    forall i | 0 <= i < |text| ensures !Separator(text[i]) && text[i] != '\0' {
      if |lead| <= i < |lead| + |value| { assert text[i] == value[i - |lead|]; }
    }
    ValueRunIs(text, tail);
    assert text[0] == if lead == "" then value[0] else lead[0];
  }

  /** What is left of a bare section when its key has been taken off. */
  lemma BareRest(r: string, p: Pair, lead: string, trail: string, tail: string)
    requires BareClean(p.value) && WideBlanks(lead) && WideBlanks(trail) && Tail(tail)
    requires TakeKey(SkipSpaces(r)) == (p.key, lead + (p.value + (trail + tail)))
    ensures TakeSection(r) == Ok(ReadBack(p, tail))
  {
    BareText(p.value, lead, trail, tail);
    TrimAround(lead, p.value, trail);
    TakesBare(r, p.key, lead + (p.value + (trail + tail)), |lead + (p.value + trail)|);
  }

  lemma KeyedText(x: Piece, behind: string, n: nat)
    requires x.pair.key != "" && n <= |x.layout.lead|
    ensures var l := x.layout;
      PrintKey(x) + (l.lead + behind) ==
      x.pair.key + (l.before + ("=" + ((l.after + l.lead[..n]) + (l.lead[n..] + behind))))
  {
    var l := x.layout;
    JoinedKey(x.pair.key, l.before, l.after, l.lead + behind);
    assert l.after + (l.lead + behind) == (l.after + l.lead[..n]) + (l.lead[n..] + behind);
  }

  lemma BareKeyed(x: Piece, tail: string)
    requires CleanPiece(x) && x.pair.style.Bare? && x.pair.key != "" && Tail(tail)
    ensures TakeSection(Print(x) + tail) == Ok(ReadBack(x.pair, tail))
  {
    var l, p := x.layout, x.pair;
    var behind := p.value + (l.trail + tail);
    JoinedPrint(x, tail);
    var n := SplitKeyBlanks(l.lead);
    var v := l.lead[n..] + behind;
    KeyedText(x, behind, n);
    SkipBlanks(l.gap, p.key + (l.before + ("=" + ((l.after + l.lead[..n]) + v))));
    assert v[0] == if n < |l.lead| then l.lead[n] else p.value[0];
    TakesKey(p.key, l.before, l.after + l.lead[..n], v);
    BareRest(Print(x) + tail, p, l.lead[n..], l.trail, tail);
  }

  lemma BarePositional(x: Piece, tail: string)
    requires CleanPiece(x) && x.pair.style.Bare? && x.pair.key == "" && Tail(tail)
    ensures TakeSection(Print(x) + tail) == Ok(ReadBack(x.pair, tail))
  {
    var l, p := x.layout, x.pair;
    var behind := p.value + (l.trail + tail);
    JoinedPrint(x, tail);
    var n := SplitBlanks(l.lead);
    var v := l.lead[n..] + behind;
    var gap := l.gap + l.lead[..n];
    assert Print(x) + tail == gap + v;
    assert v[0] == if n < |l.lead| then l.lead[n] else p.value[0];
    SkipBlanks(gap, v);
    if n == |l.lead| {
      assert v == behind;
      KeyInValue(p.value, l.trail, tail);
    } else {
      StartsAsKey(v);
    }
    TakesNoKey(v);
    BareRest(Print(x) + tail, p, l.lead[n..], l.trail, tail);
  }

  /** Every section that can be written in its way reads back, with white space wherever it may stand. */
  lemma SectionRoundTrip(x: Piece, tail: string)
    requires CleanPiece(x) && Tail(tail)
    ensures TakeSection(Print(x) + tail) == Ok(ReadBack(x.pair, tail))
  {
    if x.pair.style.Quoted? {
      QuotedSectionRoundTrip(x, tail);
    } else if x.pair.key == "" {
      BarePositional(x, tail);
    } else {
      BareKeyed(x, tail);
    }
  }
}
