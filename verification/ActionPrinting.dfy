/** What printed actions mean, and that parsing the print gives it back (server/actions.go). */
module ActionPrinting {
  import opened Text
  import opened ActionSyntax
  import opened ActionText

  /* ---- actions ---- */

  /** What the sections of an action mean, from a given section on. */
  function Interpret(a: Action, section: nat, pairs: seq<Pair>): Result<Action>
    decreases |pairs|
  {
    if pairs == [] then Ok(a)
    else
      match Populate(a, section, pairs[0].key, pairs[0].value)
      case Err(e) => Err(e)
      case Ok(b) => Interpret(b, section + 1, pairs[1..])
  }

  function InterpretAll(actions: seq<seq<Pair>>): Result<seq<Action>> {
    if actions == [] then Ok([])
    else
      match Interpret(NEW_ACTION, 0, actions[0])
      case Err(e) => Err(e)
      case Ok(a) =>
        match InterpretAll(actions[1..])
        case Err(e) => Err(e)
        case Ok(more) => Ok([a] + more)
  }

  lemma SectionStep(a: Action, section: nat, r: string, s: Section)
    requires TakeSection(r) == Ok(s)
    ensures TakeAction(a, section, r) ==
      match Populate(a, section, s.key, s.value)
      case Err(e) => Err(e)
      case Ok(b) => if s.last then Ok((b, SkipSpaces(s.rest))) else TakeAction(b, section + 1, SkipSpaces(s.rest))
  {}

  lemma InterpretStep(a: Action, section: nat, pairs: seq<Pair>, b: Action)
    requires pairs != [] && Populate(a, section, pairs[0].key, pairs[0].value) == Ok(b)
    ensures Interpret(a, section, pairs) == Interpret(b, section + 1, pairs[1..])
  {}

  /** Reading the first printed section of an action. */
  lemma FirstSection(a: Action, section: nat, x: Piece, behind: string)
    requires CleanPiece(x) && Tail(behind)
    ensures TakeAction(a, section, Print(x) + behind) ==
      match Populate(a, section, x.pair.key, x.pair.value)
      case Err(e) => Err(e)
      case Ok(b) =>
        if behind == "" || behind[0] == ';' then Ok((b, SkipSpaces(AfterEnd(behind))))
        else TakeAction(b, section + 1, SkipSpaces(AfterEnd(behind)))
  {
    SectionRoundTrip(x, behind);
    SectionStep(a, section, Print(x) + behind, ReadBack(x.pair, behind));
  }

  /** White space in front of an action does not matter. */
  lemma SkipsFirst(a: Action, section: nat, r: string)
    ensures TakeAction(a, section, SkipSpaces(r)) == TakeAction(a, section, r)
  {
    SkipTwice(r);
    assert TakeSection(SkipSpaces(r)) == TakeSection(r);
    if TakeSection(r).Ok? {
      SectionStep(a, section, r, TakeSection(r).value);
      SectionStep(a, section, SkipSpaces(r), TakeSection(r).value);
    }
  }

  /** Reading text gives what the sections mean and leaves rest. */
  ghost predicate ReadsAs(a: Action, section: nat, text: string, pairs: seq<Pair>, rest: string) {
    TakeAction(a, section, text) ==
      match Interpret(a, section, pairs)
      case Err(e) => Err(e)
      case Ok(b) => Ok((b, rest))
  }

  ghost predicate AlwaysReadsAs(text: string, pairs: seq<Pair>, rest: string) {
    forall a, section: nat :: ReadsAs(a, section, text, pairs, rest)
  }

  function PairsOf(pieces: seq<Piece>): seq<Pair> { seq(|pieces|, i requires 0 <= i < |pieces| => pieces[i].pair) }

  function AllPairs(actions: seq<seq<Piece>>): seq<seq<Pair>> {
    seq(|actions|, i requires 0 <= i < |actions| => PairsOf(actions[i]))
  }

  lemma CleanRest(pieces: seq<Piece>)
    requires CleanAction(pieces) && |pieces| > 1
    ensures CleanAction(pieces[1..])
  {
    forall i | 0 <= i < |pieces| - 1 ensures CleanPiece(pieces[1..][i]) { assert CleanPiece(pieces[i + 1]); }
  }

  lemma ReadsLast(x: Piece, tail: string)
    requires CleanPiece(x) && (tail == "" || tail[0] == ';')
    ensures AlwaysReadsAs(Print(x) + tail, [x.pair], SkipSpaces(AfterEnd(tail)))
  {
    forall a, section: nat ensures ReadsAs(a, section, Print(x) + tail, [x.pair], SkipSpaces(AfterEnd(tail))) {
      FirstSection(a, section, x, tail);
      assert [x.pair][1..] == [];
    }
  }

  lemma ReadsOn(x: Piece, pairs: seq<Pair>, text: string, rest: string)
    requires CleanPiece(x) && AlwaysReadsAs(text, pairs, rest)
    ensures AlwaysReadsAs(Print(x) + ("," + text), [x.pair] + pairs, rest)
  {
    assert AfterEnd("," + text) == text;
    forall a, section: nat ensures ReadsAs(a, section, Print(x) + ("," + text), [x.pair] + pairs, rest) {
      FirstSection(a, section, x, "," + text);
      var populated := Populate(a, section, x.pair.key, x.pair.value);
      if populated.Ok? {
        assert ([x.pair] + pairs)[1..] == pairs;
        InterpretStep(a, section, [x.pair] + pairs, populated.value);
        SkipsFirst(populated.value, section + 1, text);
        assert ReadsAs(populated.value, section + 1, text, pairs, rest);
      }
    }
  }

  /** What is printed behind the first section. */
  function Behind(pieces: seq<Piece>, tail: string): string {
    if |pieces| <= 1 then tail else "," + (PrintAction(pieces[1..]) + tail)
  }

  lemma PrintSplit(pieces: seq<Piece>, tail: string)
    requires pieces != []
    ensures PrintAction(pieces) + tail == Print(pieces[0]) + Behind(pieces, tail)
  {}

  lemma PairsSplit(pieces: seq<Piece>)
    requires pieces != []
    ensures PairsOf(pieces) == [pieces[0].pair] + PairsOf(pieces[1..])
  {}

  lemma {:induction false} ActionRoundTrip(pieces: seq<Piece>, tail: string)
    requires CleanAction(pieces) && (tail == "" || tail[0] == ';')
    ensures AlwaysReadsAs(PrintAction(pieces) + tail, PairsOf(pieces), SkipSpaces(AfterEnd(tail)))
    decreases |pieces|
  {
    assert CleanPiece(pieces[0]);
    PrintSplit(pieces, tail);
    PairsSplit(pieces);
    if |pieces| == 1 {
      ReadsLast(pieces[0], tail);
      assert PairsOf(pieces) == [pieces[0].pair];
    } else {
      CleanRest(pieces);
      ActionRoundTrip(pieces[1..], tail);
      ReadsOn(pieces[0], PairsOf(pieces[1..]), PrintAction(pieces[1..]) + tail, SkipSpaces(AfterEnd(tail)));
    }
  }

  lemma CleanActionsRest(actions: seq<seq<Piece>>)
    requires CleanActions(actions) && actions != []
    ensures CleanAction(actions[0]) && CleanActions(actions[1..])
  {
    forall i | 0 <= i < |actions| - 1 ensures CleanAction(actions[1..][i]) { assert CleanAction(actions[i + 1]); }
  }

  /** A printed section is more than white space. */
  lemma PieceShows(x: Piece, behind: string)
    requires CleanPiece(x)
    ensures SkipSpaces(Print(x) + behind) != ""
  {
    var v := PrintValue(x.pair);
    var before := x.layout.gap + (PrintKey(x) + x.layout.lead);
    var text := Print(x) + behind;
    assert text == before + (v + (x.layout.trail + behind));
    assert v != "" && !IsSpace(v[0]);
    assert text[|before|] == v[0];
    ShowsAt(text, |before|);
  }

  lemma {:induction false} ShowsAt(r: string, i: nat)
    requires i < |r| && !IsSpace(r[i])
    ensures SkipSpaces(r) != ""
  {
    if IsSpace(r[0]) {
      assert i > 0 && r[1..][i - 1] == r[i];
      ShowsAt(r[1..], i - 1);
    }
  }

  lemma ActionShows(pieces: seq<Piece>, behind: string)
    requires CleanAction(pieces)
    ensures PrintAction(pieces) + behind != "" && SkipSpaces(PrintAction(pieces) + behind) != ""
  {
    assert CleanPiece(pieces[0]);
    PrintSplit(pieces, behind);
    PieceShows(pieces[0], Behind(pieces, behind));
  }

  lemma SkipsBeforeActions(r: string)
    requires SkipSpaces(r) != ""
    ensures TakeActions(SkipSpaces(r)) == TakeActions(r)
  {
    SkipsFirst(NEW_ACTION, 0, r);
  }

  /** Printed lists of sections parse to what the sections mean, errors included: bare or quoted, by key
      or by position, with white space wherever it may stand. */
  lemma {:induction false} ActionsRoundTrip(actions: seq<seq<Piece>>)
    requires CleanActions(actions)
    ensures TakeActions(PrintActions(actions)) == InterpretAll(AllPairs(actions))
  {
    if actions != [] {
      CleanActionsRest(actions);
      ActionsRoundTrip(actions[1..]);
      AllPairsSplit(actions);
      var tail := if |actions| == 1 then "" else ";" + PrintActions(actions[1..]);
      assert PrintActions(actions) == PrintAction(actions[0]) + tail;
      ActionRoundTrip(actions[0], tail);
      assert ReadsAs(NEW_ACTION, 0, PrintActions(actions), PairsOf(actions[0]), SkipSpaces(AfterEnd(tail)));
      ActionShows(actions[0], tail);
      MoreActions(actions, tail);
    }
  }

  lemma AllPairsSplit(actions: seq<seq<Piece>>)
    requires actions != []
    ensures AllPairs(actions) != [] && AllPairs(actions)[0] == PairsOf(actions[0])
    ensures AllPairs(actions)[1..] == AllPairs(actions[1..])
  {}

  lemma MoreActions(actions: seq<seq<Piece>>, tail: string)
    requires CleanActions(actions) && actions != []
    requires tail == if |actions| == 1 then "" else ";" + PrintActions(actions[1..])
    ensures TakeActions(SkipSpaces(AfterEnd(tail))) == TakeActions(PrintActions(actions[1..]))
  {
    if |actions| > 1 {
      CleanActionsRest(actions);
      assert CleanAction(actions[1..][0]);
      var more := if |actions| == 2 then "" else ";" + PrintActions(actions[1..][1..]);
      assert PrintActions(actions[1..]) == PrintAction(actions[1..][0]) + more;
      ActionShows(actions[1..][0], more);
      assert AfterEnd(tail) == PrintActions(actions[1..]);
      SkipsBeforeActions(PrintActions(actions[1..]));
    }
  }

  /** The first sections of an action may leave out their keys: action and label always, then url or
      value where the action has one. */
  lemma PositionalAsNamed(action: string, name: string, target: string, style: Style, more: seq<Pair>)
    ensures Interpret(NEW_ACTION, 0, [Pair("", action, style), Pair("", name, style)] + more)
         == Interpret(NEW_ACTION, 0, [Pair("action", action, style), Pair("label", name, style)] + more)
    ensures action == "view" || action == "http" ==>
      Interpret(NEW_ACTION, 0, [Pair("", action, style), Pair("", name, style)] + ([Pair("", target, style)] + more))
      == Interpret(NEW_ACTION, 0,
        [Pair("action", action, style), Pair("label", name, style)] + ([Pair("url", target, style)] + more))
    ensures action == "copy" ==>
      Interpret(NEW_ACTION, 0, [Pair("", action, style), Pair("", name, style)] + ([Pair("", target, style)] + more))
      == Interpret(NEW_ACTION, 0,
        [Pair("action", action, style), Pair("label", name, style)] + ([Pair("value", target, style)] + more))
  {
    FirstTwo("", "", action, name, style, more);
    FirstTwo("action", "label", action, name, style, more);
    var b := NEW_ACTION.(action := action, labelText := name);
    var bare := [Pair("", target, style)] + more;
    FirstTwo("", "", action, name, style, bare);
    if NeedsUrl(action) {
      FirstTwo("action", "label", action, name, style, [Pair("url", target, style)] + more);
      ThirdIs(b, "url", target, style, more);
    }
    if NeedsValue(action) {
      FirstTwo("action", "label", action, name, style, [Pair("value", target, style)] + more);
      ThirdIs(b, "value", target, style, more);
    }
  }

  lemma FirstTwo(k0: string, k1: string, action: string, name: string, style: Style, more: seq<Pair>)
    requires (k0 == "" || k0 == "action") && (k1 == "" || k1 == "label")
    ensures Interpret(NEW_ACTION, 0, [Pair(k0, action, style), Pair(k1, name, style)] + more)
         == Interpret(NEW_ACTION.(action := action, labelText := name), 2, more)
  {
    var pairs := [Pair(k0, action, style), Pair(k1, name, style)] + more;
    var a := NEW_ACTION.(action := action);
    FieldNames(NEW_ACTION, action);
    PopulateField(NEW_ACTION, 0, "action", action);
    InterpretStep(NEW_ACTION, 0, pairs, a);
    assert pairs[1..] == [Pair(k1, name, style)] + more;
    FieldNames(a, name);
    PopulateField(a, 1, "label", name);
    InterpretStep(a, 1, pairs[1..], a.(labelText := name));
    assert pairs[1..][1..] == more;
  }

  lemma ThirdIs(b: Action, key: string, target: string, style: Style, more: seq<Pair>)
    requires (NeedsUrl(b.action) && key == "url") || (NeedsValue(b.action) && key == "value")
    ensures Interpret(b, 2, [Pair("", target, style)] + more) == Interpret(b, 2, [Pair(key, target, style)] + more)
  {
    assert ExpandKey(b, 2, "") == key == ExpandKey(b, 2, key);
    assert ([Pair("", target, style)] + more)[1..] == more && ([Pair(key, target, style)] + more)[1..] == more;
  }

  /* ---- action records ---- */

  /** hs lists the keys of m, each once. */
  ghost predicate Lists(hs: seq<string>, m: map<string, string>) {
    (forall h :: h in hs <==> h in m) && forall i, j :: 0 <= i < j < |hs| ==> hs[i] != hs[j]
  }

  function Entries(prefix: string, hs: seq<string>, m: map<string, string>, style: Style): seq<Pair> {
    if hs == [] then []
    else [Pair(prefix + hs[0], if hs[0] in m then m[hs[0]] else "", style)] + Entries(prefix, hs[1..], m, style)
  }

  function Fields(a: Action, style: Style): seq<Pair> {
    [Pair("action", a.action, style)] + ([Pair("label", a.labelText, style)] + FieldsFromClear(a, style))
  }

  function FieldsFromClear(a: Action, style: Style): seq<Pair> {
    [Pair("clear", if a.clear then "true" else "false", style)]
      + ([Pair("url", a.url, style)] + FieldsFromMethod(a, style))
  }

  function FieldsFromMethod(a: Action, style: Style): seq<Pair> {
    [Pair("method", a.httpMethod, style)] + ([Pair("body", a.body, style)] + FieldsFromValue(a, style))
  }

  function FieldsFromValue(a: Action, style: Style): seq<Pair> {
    [Pair("value", a.value, style)] + [Pair("intent", a.intent, style)]
  }

  /** All fields, then the headers and the extras in a given order. */
  function Pairs(a: Action, hs: seq<string>, es: seq<string>, style: Style): seq<Pair> {
    Fields(a, style) + (Entries(HEADERS, hs, a.headers, style) + Entries(EXTRAS, es, a.extras, style))
  }

  lemma LowerFixed(s: string)
    requires forall i :: 0 <= i < |s| ==> 'a' <= s[i] <= 'z'
    ensures Lower(s) == s
  {}

  /** From the given section on, x turns a into b. */
  ghost predicate Leads(a: Action, section: nat, x: seq<Pair>, b: Action) {
    forall n: nat :: n == section ==> Interpret(a, n, x) == Ok(b)
  }

  ghost predicate Steps(a: Action, section: nat, p: Pair, b: Action) {
    forall n: nat :: n == section ==> Populate(a, n, p.key, p.value) == Ok(b)
  }

  lemma LeadsFirst(a: Action, section: nat, x: seq<Pair>, b: Action) returns (c: Action)
    requires x != [] && Leads(a, section, x, b)
    ensures Steps(a, section, x[0], c) && Leads(c, section + 1, x[1..], b)
  {
    assert Interpret(a, section, x) == Ok(b);
    c := Populate(a, section, x[0].key, x[0].value).value;
  }

  lemma LeadsOn(a: Action, section: nat, x: seq<Pair>, c: Action, b: Action)
    requires x != [] && Steps(a, section, x[0], c) && Leads(c, section + 1, x[1..], b)
    ensures Leads(a, section, x, b)
  {
    assert Populate(a, section, x[0].key, x[0].value) == Ok(c);
    InterpretStep(a, section, x, c);
    assert Interpret(c, section + 1, x[1..]) == Ok(b);
  }

  lemma LeadsNowhere(a: Action, section: nat, b: Action)
    requires Leads(a, section, [], b)
    ensures a == b
  {
    assert Interpret(a, section, []) == Ok(b);
  }

  lemma {:induction false} LeadsConcat(a: Action, section: nat, x: seq<Pair>, b: Action, y: seq<Pair>, c: Action)
    requires Leads(a, section, x, b) && Leads(b, section + |x|, y, c)
    ensures Leads(a, section, x + y, c)
    decreases |x|
  {
    if x == [] {
      LeadsNowhere(a, section, b);
      assert x + y == y;
    } else {
      var next := LeadsFirst(a, section, x, b);
      assert (x + y)[0] == x[0] && (x + y)[1..] == x[1..] + y;
      LeadsConcat(next, section + 1, x[1..], b, y, c);
      LeadsOn(a, section, x + y, next, c);
    }
  }

  /** SetField with its key already in lower case. */
  lemma PopulateField(a: Action, section: nat, key: string, value: string)
    requires key in {"action", "label", "clear", "url", "method", "body", "value", "intent"}
    ensures Populate(a, section, key, value) == SetField(a, key, value) && Lower(key) == key
  {
    LowerFixed(key);
    assert key[0] == 'h' ==> false;
    assert HEADERS[0] == 'h' && EXTRAS[0] == 'e';
  }

  lemma FieldNames(a: Action, v: string)
    ensures SetField(a, "action", v) == Ok(a.(action := v)) && SetField(a, "label", v) == Ok(a.(labelText := v))
    ensures SetField(a, "url", v) == Ok(a.(url := v)) && SetField(a, "method", v) == Ok(a.(httpMethod := v))
  {
    LowerFixed("action"); LowerFixed("label"); LowerFixed("url"); LowerFixed("method");
    assert "label"[0] == 'l' && "clear"[0] == 'c' && "action"[0] == 'a' && "method"[0] == 'm';
  }

  lemma LaterFieldNames(a: Action, v: string)
    ensures SetField(a, "body", v) == Ok(a.(body := v)) && SetField(a, "value", v) == Ok(a.(value := v))
    ensures SetField(a, "intent", v) == Ok(a.(intent := v))
  {
    LowerFixed("body"); LowerFixed("value"); LowerFixed("intent");
    assert "label"[0] == 'l' && "value"[0] == 'v' && "clear"[0] == 'c';
    assert "action"[0] == 'a' && "method"[0] == 'm' && "intent"[0] == 'i';
  }

  lemma ClearField(a: Action, b: bool)
    ensures SetField(a, "clear", if b then "true" else "false") == Ok(a.(clear := b))
  {
    LowerFixed("clear"); LowerFixed("true"); LowerFixed("false");
    assert "label"[0] == 'l' && "clear"[0] == 'c';
  }

  /** The section sets a to b, wherever it stands. */
  ghost predicate Sets(a: Action, p: Pair, b: Action) {
    forall section: nat :: Populate(a, section, p.key, p.value) == Ok(b)
  }

  /** The sections turn a into b, wherever they begin. */
  ghost predicate Makes(a: Action, pairs: seq<Pair>, b: Action) {
    forall section: nat :: Interpret(a, section, pairs) == Ok(b)
  }

  lemma SetsField(a: Action, key: string, value: string, style: Style, b: Action)
    requires key in {"action", "label", "clear", "url", "method", "body", "value", "intent"}
      && SetField(a, key, value) == Ok(b)
    ensures Sets(a, Pair(key, value, style), b)
  {
    forall section: nat ensures Populate(a, section, key, value) == Ok(b) { PopulateField(a, section, key, value); }
  }

  lemma MakesOne(a: Action, p: Pair, b: Action)
    requires Sets(a, p, b)
    ensures Makes(a, [p], b)
  {
    forall section: nat ensures Interpret(a, section, [p]) == Ok(b) {
      assert Populate(a, section, p.key, p.value) == Ok(b);
      InterpretStep(a, section, [p], b);
    }
  }

  lemma MakesBoth(a: Action, x: seq<Pair>, b: Action, y: seq<Pair>, c: Action)
    requires Makes(a, x, b) && Makes(b, y, c)
    ensures Makes(a, x + y, c)
  {
    forall section: nat ensures Interpret(a, section, x + y) == Ok(c) {
      assert Leads(a, section, x, b) && Leads(b, section + |x|, y, c);
      LeadsConcat(a, section, x, b, y, c);
    }
  }

  lemma MakesTwo(a: Action, p: Pair, b: Action, q: Pair, c: Action, rest: seq<Pair>, d: Action)
    requires Sets(a, p, b) && Sets(b, q, c) && Makes(c, rest, d)
    ensures Makes(a, [p] + ([q] + rest), d)
  {
    MakesOne(b, q, c);
    MakesBoth(b, [q], c, rest, d);
    MakesOne(a, p, b);
    MakesBoth(a, [p], b, [q] + rest, d);
  }

  lemma MakesFromValue(a: Action, b: Action, style: Style)
    ensures Makes(b, FieldsFromValue(a, style), b.(value := a.value, intent := a.intent))
  {
    var c := b.(value := a.value);
    LaterFieldNames(b, a.value);
    SetsField(b, "value", a.value, style, c);
    MakesOne(b, Pair("value", a.value, style), c);
    LaterFieldNames(c, a.intent);
    SetsField(c, "intent", a.intent, style, c.(intent := a.intent));
    MakesOne(c, Pair("intent", a.intent, style), c.(intent := a.intent));
    MakesBoth(b, [Pair("value", a.value, style)], c, [Pair("intent", a.intent, style)], c.(intent := a.intent));
  }

  lemma MakesFromMethod(a: Action, b: Action, style: Style)
    ensures Makes(b, FieldsFromMethod(a, style),
      b.(httpMethod := a.httpMethod, body := a.body, value := a.value, intent := a.intent))
  {
    var c := b.(httpMethod := a.httpMethod);
    var d := c.(body := a.body);
    FieldNames(b, a.httpMethod);
    SetsField(b, "method", a.httpMethod, style, c);
    LaterFieldNames(c, a.body);
    SetsField(c, "body", a.body, style, d);
    MakesFromValue(a, d, style);
    MakesTwo(b, Pair("method", a.httpMethod, style), c, Pair("body", a.body, style), d, FieldsFromValue(a, style),
      d.(value := a.value, intent := a.intent));
  }

  lemma MakesFromClear(a: Action, b: Action, style: Style)
    ensures Makes(b, FieldsFromClear(a, style),
                  b.(clear := a.clear, url := a.url, httpMethod := a.httpMethod, body := a.body, value := a.value,
                    intent := a.intent))
  {
    var c := b.(clear := a.clear);
    var d := c.(url := a.url);
    ClearField(b, a.clear);
    SetsField(b, "clear", if a.clear then "true" else "false", style, c);
    FieldNames(c, a.url);
    SetsField(c, "url", a.url, style, d);
    MakesFromMethod(a, d, style);
    MakesTwo(b, Pair("clear", if a.clear then "true" else "false", style), c, Pair("url", a.url, style), d,
      FieldsFromMethod(a, style),
             d.(httpMethod := a.httpMethod, body := a.body, value := a.value, intent := a.intent));
  }

  lemma MakesFields(a: Action, style: Style)
    ensures Makes(NEW_ACTION, Fields(a, style), a.(headers := map[], extras := map[]))
  {
    var c := NEW_ACTION.(action := a.action);
    var d := c.(labelText := a.labelText);
    FieldNames(NEW_ACTION, a.action);
    SetsField(NEW_ACTION, "action", a.action, style, c);
    FieldNames(c, a.labelText);
    SetsField(c, "label", a.labelText, style, d);
    MakesFromClear(a, d, style);
    MakesTwo(NEW_ACTION, Pair("action", a.action, style), c, Pair("label", a.labelText, style), d,
      FieldsFromClear(a, style),
             a.(headers := map[], extras := map[]));
  }

  /** base with the entries of m listed in hs. */
  function AddAll(base: map<string, string>, hs: seq<string>, m: map<string, string>): map<string, string>
    decreases |hs|
  {
    if hs == [] then base else AddAll(base[hs[0] := if hs[0] in m then m[hs[0]] else ""], hs[1..], m)
  }

  lemma {:induction false} AddAllGives(base: map<string, string>, hs: seq<string>, m: map<string, string>)
    requires (forall h :: h in hs ==> h in m) && forall h :: h in base ==> h in m && base[h] == m[h]
    ensures forall h :: h in AddAll(base, hs, m) <==> h in base || h in hs
    ensures forall h :: h in AddAll(base, hs, m) ==> h in m && AddAll(base, hs, m)[h] == m[h]
    decreases |hs|
  {
    if hs != [] {
      AddAllGives(base[hs[0] := m[hs[0]]], hs[1..], m);
    }
  }

  lemma AddAllListed(hs: seq<string>, m: map<string, string>)
    requires Lists(hs, m)
    ensures AddAll(map[], hs, m) == m
  {
    AddAllGives(map[], hs, m);
    assert forall h :: h in AddAll(map[], hs, m) <==> h in m;
  }

  lemma PopulateHeader(a: Action, section: nat, h: string, v: string)
    ensures Populate(a, section, HEADERS + h, v) == Ok(a.(headers := a.headers[h := v]))
  {
    assert (HEADERS + h)[|HEADERS|..] == h;
  }

  lemma PopulateExtra(a: Action, section: nat, e: string, v: string)
    ensures Populate(a, section, EXTRAS + e, v) == Ok(a.(extras := a.extras[e := v]))
  {
    assert (EXTRAS + e)[|EXTRAS|..] == e;
    assert (EXTRAS + e)[0] == 'e' && HEADERS[0] == 'h';
  }

  lemma EntriesSplit(prefix: string, hs: seq<string>, m: map<string, string>, style: Style)
    requires hs != []
    ensures Entries(prefix, hs, m, style) != []
      && Entries(prefix, hs, m, style)[0] == Pair(prefix + hs[0], if hs[0] in m then m[hs[0]] else "", style)
    ensures Entries(prefix, hs, m, style)[1..] == Entries(prefix, hs[1..], m, style)
  {}

  lemma {:induction false} InterpretHeaders(a: Action, section: nat, hs: seq<string>, m: map<string, string>,
      style: Style)
    ensures Interpret(a, section, Entries(HEADERS, hs, m, style)) == Ok(a.(headers := AddAll(a.headers, hs, m)))
    decreases |hs|
  {
    if hs != [] {
      var v := if hs[0] in m then m[hs[0]] else "";
      var b := a.(headers := a.headers[hs[0] := v]);
      EntriesSplit(HEADERS, hs, m, style);
      PopulateHeader(a, section, hs[0], v);
      InterpretStep(a, section, Entries(HEADERS, hs, m, style), b);
      InterpretHeaders(b, section + 1, hs[1..], m, style);
    }
  }

  lemma {:induction false} InterpretExtras(a: Action, section: nat, es: seq<string>, m: map<string, string>,
      style: Style)
    ensures Interpret(a, section, Entries(EXTRAS, es, m, style)) == Ok(a.(extras := AddAll(a.extras, es, m)))
    decreases |es|
  {
    if es != [] {
      var v := if es[0] in m then m[es[0]] else "";
      var b := a.(extras := a.extras[es[0] := v]);
      EntriesSplit(EXTRAS, es, m, style);
      PopulateExtra(a, section, es[0], v);
      InterpretStep(a, section, Entries(EXTRAS, es, m, style), b);
      InterpretExtras(b, section + 1, es[1..], m, style);
    }
  }

  lemma MakesHeaders(a: Action, hs: seq<string>, m: map<string, string>, style: Style)
    requires Lists(hs, m) && a.headers == map[]
    ensures Makes(a, Entries(HEADERS, hs, m, style), a.(headers := m))
  {
    AddAllListed(hs, m);
    forall section: nat ensures Interpret(a, section, Entries(HEADERS, hs, m, style)) == Ok(a.(headers := m)) {
      InterpretHeaders(a, section, hs, m, style);
    }
  }

  lemma MakesExtras(a: Action, es: seq<string>, m: map<string, string>, style: Style)
    requires Lists(es, m) && a.extras == map[]
    ensures Makes(a, Entries(EXTRAS, es, m, style), a.(extras := m))
  {
    AddAllListed(es, m);
    forall section: nat ensures Interpret(a, section, Entries(EXTRAS, es, m, style)) == Ok(a.(extras := m)) {
      InterpretExtras(a, section, es, m, style);
    }
  }

  lemma MakesPairs(a: Action, hs: seq<string>, es: seq<string>, style: Style)
    requires Lists(hs, a.headers) && Lists(es, a.extras)
    ensures Makes(NEW_ACTION, Pairs(a, hs, es, style), a)
  {
    var plain := a.(headers := map[], extras := map[]);
    var withHeaders := plain.(headers := a.headers);
    MakesFields(a, style);
    MakesHeaders(plain, hs, a.headers, style);
    MakesExtras(withHeaders, es, a.extras, style);
    MakesBoth(plain, Entries(HEADERS, hs, a.headers, style), withHeaders, Entries(EXTRAS, es, a.extras, style), a);
    MakesBoth(NEW_ACTION, Fields(a, style), plain,
      Entries(HEADERS, hs, a.headers, style) + Entries(EXTRAS, es, a.extras, style), a);
  }

  /** The sections say what all fields, headers and extras of the action are, each in a style of its own. */
  ghost predicate WrittenAs(a: Action, pieces: seq<Piece>) {
    exists hs, es, style ::
      Lists(hs, a.headers) && Lists(es, a.extras) && SameTexts(PairsOf(pieces), Pairs(a, hs, es, style))
  }

  /** The same keys and values, in any style. */
  ghost predicate SameTexts(x: seq<Pair>, y: seq<Pair>) {
    |x| == |y| && forall i :: 0 <= i < |x| ==> x[i].key == y[i].key && x[i].value == y[i].value
  }

  lemma {:induction false} SameMeaning(a: Action, section: nat, x: seq<Pair>, y: seq<Pair>)
    requires SameTexts(x, y)
    ensures Interpret(a, section, x) == Interpret(a, section, y)
    decreases |x|
  {
    if x != [] {
      var populated := Populate(a, section, x[0].key, x[0].value);
      assert x[0].key == y[0].key && x[0].value == y[0].value;
      if populated.Ok? {
        SameMeaning(populated.value, section + 1, x[1..], y[1..]);
        InterpretStep(a, section, x, populated.value);
        InterpretStep(a, section, y, populated.value);
      }
    }
  }

  lemma WrittenMeans(a: Action, pieces: seq<Piece>)
    requires WrittenAs(a, pieces)
    ensures Interpret(NEW_ACTION, 0, PairsOf(pieces)) == Ok(a)
  {
    var hs, es, style :|
      Lists(hs, a.headers) && Lists(es, a.extras) && SameTexts(PairsOf(pieces), Pairs(a, hs, es, style));
    MakesPairs(a, hs, es, style);
    SameMeaning(NEW_ACTION, 0, PairsOf(pieces), Pairs(a, hs, es, style));
    assert Interpret(NEW_ACTION, 0, Pairs(a, hs, es, style)) == Ok(a);
  }

  lemma WrittenStarts(a: Action, pieces: seq<Piece>)
    requires WrittenAs(a, pieces)
    ensures pieces != [] && pieces[0].pair.key == "action"
  {
    var hs, es, style :|
      Lists(hs, a.headers) && Lists(es, a.extras) && SameTexts(PairsOf(pieces), Pairs(a, hs, es, style));
    assert Pairs(a, hs, es, style)[0] == Fields(a, style)[0];
    assert PairsOf(pieces)[0] == pieces[0].pair;
  }

  /** Actions and how they are written out. */
  ghost predicate Written(actions: seq<Action>, texts: seq<seq<Piece>>) {
    |texts| == |actions| && CleanActions(texts) && forall i :: 0 <= i < |actions| ==> WrittenAs(actions[i], texts[i])
  }

  lemma WrittenRest(actions: seq<Action>, texts: seq<seq<Piece>>)
    requires Written(actions, texts) && actions != []
    ensures WrittenAs(actions[0], texts[0]) && Written(actions[1..], texts[1..])
  {
    CleanActionsRest(texts);
    assert WrittenAs(actions[0], texts[0]);
    forall i | 0 <= i < |actions| - 1 ensures WrittenAs(actions[1..][i], texts[1..][i]) {
      assert WrittenAs(actions[i + 1], texts[i + 1]);
    }
  }

  lemma InterpretAllStep(texts: seq<seq<Piece>>, first: Action, more: seq<Action>)
    requires texts != [] && Interpret(NEW_ACTION, 0, PairsOf(texts[0])) == Ok(first)
    requires InterpretAll(AllPairs(texts[1..])) == Ok(more)
    ensures InterpretAll(AllPairs(texts)) == Ok([first] + more)
  {
    AllPairsSplit(texts);
  }

  lemma {:induction false} AllWrittenMean(actions: seq<Action>, texts: seq<seq<Piece>>)
    requires Written(actions, texts)
    ensures InterpretAll(AllPairs(texts)) == Ok(actions)
    decreases |actions|
  {
    if actions == [] {
      assert AllPairs(texts) == [];
    } else {
      WrittenRest(actions, texts);
      AllWrittenMean(actions[1..], texts[1..]);
      WrittenMeans(actions[0], texts[0]);
      InterpretAllStep(texts, actions[0], actions[1..]);
      assert actions == [actions[0]] + actions[1..];
    }
  }

  /** Actions parse back to themselves, however they are written out. */
  lemma WrittenRoundTrip(actions: seq<Action>, texts: seq<seq<Piece>>)
    requires Written(actions, texts)
    ensures TakeActions(PrintActions(texts)) == Ok(actions)
  {
    AllWrittenMean(actions, texts);
    ActionsRoundTrip(texts);
  }

  /* ---- actions that can be written ---- */

  ghost predicate CleanMap(m: map<string, string>) {
    forall h :: h in m ==> (forall i :: 0 <= i < |h| ==> KeyLetter(h[i])) && Clean(m[h])
  }

  /** The actions that can be written in quotes. */
  ghost predicate Printable(a: Action) {
    Clean(a.action) && Clean(a.labelText) && Clean(a.url) && Clean(a.httpMethod) && Clean(a.body) && Clean(a.value)
    && Clean(a.intent) && CleanMap(a.headers) && CleanMap(a.extras)
  }

  /** The sections in quotes and without white space. */
  function Plainly(pairs: seq<Pair>): seq<Piece> {
    seq(|pairs|, i requires 0 <= i < |pairs| => Piece(pairs[i], Layout("", "", "", "", "")))
  }

  predicate QuotedPair(p: Pair) { LegalKey(p.key) && IsQuoted(p.style) && Clean(p.value) }

  predicate AllQuoted(pairs: seq<Pair>) { forall i :: 0 <= i < |pairs| ==> QuotedPair(pairs[i]) }

  lemma {:induction false} QuotedEntries(prefix: string, hs: seq<string>, m: map<string, string>, style: Style)
    requires LegalKey(prefix) && CleanMap(m) && IsQuoted(style) && forall h :: h in hs ==> h in m
    ensures AllQuoted(Entries(prefix, hs, m, style))
  {
    if hs != [] {
      QuotedEntries(prefix, hs[1..], m, style);
      assert hs[0] in m;
      assert LegalKey(prefix + hs[0]);
    }
  }

  lemma LegalNames()
    ensures LegalKey("action") && LegalKey("label") && LegalKey("clear") && LegalKey("url")
    ensures LegalKey("method") && LegalKey("body") && LegalKey("value") && LegalKey("intent")
    ensures LegalKey(HEADERS) && LegalKey(EXTRAS)
  {}

  lemma QuotedConcat(x: seq<Pair>, y: seq<Pair>)
    requires AllQuoted(x) && AllQuoted(y)
    ensures AllQuoted(x + y)
  {}

  lemma QuotedTwo(p: Pair, q: Pair, rest: seq<Pair>)
    requires QuotedPair(p) && QuotedPair(q) && AllQuoted(rest)
    ensures AllQuoted([p] + ([q] + rest))
  {
    QuotedConcat([q], rest);
    QuotedConcat([p], [q] + rest);
  }

  lemma QuotedFields(a: Action, style: Style)
    requires Printable(a) && IsQuoted(style)
    ensures AllQuoted(Fields(a, style))
  {
    LegalNames();
    QuotedConcat([Pair("value", a.value, style)], [Pair("intent", a.intent, style)]);
    QuotedTwo(Pair("method", a.httpMethod, style), Pair("body", a.body, style), FieldsFromValue(a, style));
    QuotedTwo(Pair("clear", if a.clear then "true" else "false", style), Pair("url", a.url, style),
      FieldsFromMethod(a, style));
    QuotedTwo(Pair("action", a.action, style), Pair("label", a.labelText, style), FieldsFromClear(a, style));
  }

  /** Every printable action can be written out: in quotes of either kind, with its headers and extras in any
      order. */
  lemma PrintableIsWritten(a: Action, hs: seq<string>, es: seq<string>, style: Style)
    requires Printable(a) && IsQuoted(style) && Lists(hs, a.headers) && Lists(es, a.extras)
    ensures WrittenAs(a, Plainly(Pairs(a, hs, es, style))) && CleanAction(Plainly(Pairs(a, hs, es, style)))
  {
    var pairs := Pairs(a, hs, es, style);
    LegalNames();
    QuotedFields(a, style);
    QuotedEntries(HEADERS, hs, a.headers, style);
    QuotedEntries(EXTRAS, es, a.extras, style);
    QuotedConcat(Entries(HEADERS, hs, a.headers, style), Entries(EXTRAS, es, a.extras, style));
    QuotedConcat(Fields(a, style), Entries(HEADERS, hs, a.headers, style) + Entries(EXTRAS, es, a.extras, style));
    assert PairsOf(Plainly(pairs)) == pairs && SameTexts(PairsOf(Plainly(pairs)), pairs);
    forall i | 0 <= i < |pairs| ensures CleanPiece(Plainly(pairs)[i]) { assert QuotedPair(pairs[i]); }
  }

  /* ---- parseActions ---- */

  /** The last section is not followed by white space, which would be trimmed off the whole text. */
  ghost predicate EndsTight(texts: seq<seq<Piece>>) {
    texts == [] || (texts[|texts| - 1] != [] &&
      var last := texts[|texts| - 1]; last[|last| - 1].layout.trail == "")
  }

  /** The text does not end in white space. */
  predicate Tight(t: string) { t != "" && !WideBlank(t[|t| - 1]) }

  lemma TightBehind(a: string, separator: string, b: string)
    requires Tight(b)
    ensures Tight(a + (separator + b))
  {}

  lemma PieceEnds(x: Piece)
    requires CleanPiece(x) && x.layout.trail == ""
    ensures Tight(Print(x))
  {
    var v := PrintValue(x.pair);
    assert Print(x) == (x.layout.gap + (PrintKey(x) + x.layout.lead)) + v;
  }

  lemma {:induction false} ActionEnds(pieces: seq<Piece>)
    requires CleanAction(pieces) && pieces[|pieces| - 1].layout.trail == ""
    ensures Tight(PrintAction(pieces))
    decreases |pieces|
  {
    if |pieces| == 1 {
      assert CleanPiece(pieces[0]);
      PieceEnds(pieces[0]);
    } else {
      CleanRest(pieces);
      ActionEnds(pieces[1..]);
      TightBehind(Print(pieces[0]), ",", PrintAction(pieces[1..]));
    }
  }

  lemma {:induction false} ActionsEnd(texts: seq<seq<Piece>>)
    requires CleanActions(texts) && texts != [] && EndsTight(texts)
    ensures Tight(PrintActions(texts))
    decreases |texts|
  {
    CleanActionsRest(texts);
    if |texts| == 1 {
      ActionEnds(texts[0]);
    } else {
      assert texts[1..][|texts| - 2] == texts[|texts| - 1];
      ActionsEnd(texts[1..]);
      TightBehind(PrintAction(texts[0]), ";", PrintActions(texts[1..]));
    }
  }

  lemma StartsWithKey(texts: seq<seq<Piece>>)
    requires CleanActions(texts) && texts != [] && texts[0] != []
    requires texts[0][0].layout.gap == "" && texts[0][0].pair.key != ""
    ensures var t := PrintActions(texts); t != "" && KeyLetter(t[0])
  {
    CleanActionsRest(texts);
    var x := texts[0][0];
    assert CleanPiece(x);
    assert Print(x)[0] == x.pair.key[0];
    assert PrintAction(texts[0])[0] == Print(x)[0];
    assert PrintActions(texts)[0] == PrintAction(texts[0])[0];
  }

  lemma TrimmedWithKey(t: string, before: string, after: string)
    requires t != "" && KeyLetter(t[0]) && Tight(t) && WideBlanks(before) && WideBlanks(after)
    ensures TrimSpace(before + (t + after)) == t && !HasPrefix(t, "[")
  {
    TrimAround(before, t, after);
    assert "["[0] == '[';
  }

  /** Written out from a key on and up to a value, the text is what trimming leaves of it in the midst of white
      space, and is not taken for JSON. */
  lemma PrintIsTrimmed(texts: seq<seq<Piece>>, before: string, after: string)
    requires CleanActions(texts) && EndsTight(texts) && WideBlanks(before) && WideBlanks(after)
    requires texts != [] && texts[0] != [] && texts[0][0].layout.gap == "" && texts[0][0].pair.key != ""
    ensures var t := PrintActions(texts); TrimSpace(before + (t + after)) == t && !HasPrefix(t, "[")
  {
    ActionsEnd(texts);
    StartsWithKey(texts);
    TrimmedWithKey(PrintActions(texts), before, after);
  }

  lemma {:induction false} AllTrimmed(s: string)
    requires WideBlanks(s)
    ensures TrimSpace(s) == ""
  {
    TrimLeftBlanks(s, "");
    assert s + "" == s;
  }

  lemma {:induction false} NoComplaint(actions: seq<Action>)
    ensures FirstComplaint(actions).None? <==> forall i :: 0 <= i < |actions| ==> Complaint(actions[i]).None?
  {
    if actions != [] {
      NoComplaint(actions[1..]);
      if FirstComplaint(actions[1..]).None? && Complaint(actions[0]).None? {
        forall i | 0 <= i < |actions| ensures Complaint(actions[i]).None? {
          if i > 0 { assert Complaint(actions[1..][i - 1]).None?; }
        }
      } else if Complaint(actions[0]).None? {
        var i :| 0 <= i < |actions[1..]| && Complaint(actions[1..][i]).Some?;
        assert Complaint(actions[i + 1]).Some?;
      }
    }
  }

  predicate KnownAction(name: string) { name == "view" || name == "broadcast" || name == "http" || name == "copy" }

  /** What makes an action acceptable, field by field. */
  predicate WellFormed(a: Action) {
    && KnownAction(a.action)
    && a.labelText != ""
    && ((a.action == "view" || a.action == "http") ==> a.url != "")
    && (a.action == "copy" ==> a.value != "")
    && (a.action == "http" && (a.httpMethod == "GET" || a.httpMethod == "HEAD") ==> a.body == "")
  }

  /** Exactly the actions that are not well formed draw a complaint, and each kind is about its own fault. */
  lemma ComplaintExactly(a: Action)
    ensures Complaint(a).None? <==> WellFormed(a)
    ensures Complaint(a) == Some(InvalidAction(a.action)) <==> !KnownAction(a.action)
    ensures Complaint(a) == Some(LabelMissing) <==> KnownAction(a.action) && a.labelText == ""
    ensures Complaint(a) == Some(UrlMissing) <==>
      (a.action == "view" || a.action == "http") && a.labelText != "" && a.url == ""
    ensures Complaint(a) == Some(ValueMissing) <==> a.action == "copy" && a.labelText != "" && a.value == ""
    ensures Complaint(a) == Some(BodyNotAllowed) <==>
      a.action == "http" && a.labelText != "" && a.url != "" && (a.httpMethod == "GET" || a.httpMethod == "HEAD")
      && a.body != ""
  {}

  /** Normalization changes the case of the action's name and of the method, and nothing else. */
  lemma NormalizeExactly(a: Action)
    ensures var n := Normalize(a);
      && n.(action := a.action, httpMethod := a.httpMethod) == a
      && |n.action| == |a.action| && |n.httpMethod| == |a.httpMethod|
      && (forall i :: 0 <= i < |a.action| && a.action[i] < '\U{80}' ==>
            n.action[i] == if 'A' <= a.action[i] <= 'Z' then (a.action[i] as int + 32) as char else a.action[i])
      && (forall i :: 0 <= i < |a.httpMethod| && a.httpMethod[i] < '\U{80}' ==>
            n.httpMethod[i] ==
              if 'a' <= a.httpMethod[i] <= 'z' then (a.httpMethod[i] as int - 32) as char else a.httpMethod[i])
  {}

  /** What is accepted, in either format, is exactly what was read, normalized, if there are at most three
      actions and all are well formed. */
  lemma AcceptedExactly(s: string, json: Result<seq<Action>>)
    ensures var t := TrimSpace(s);
      var parsed := if t != "" && t[0] == '[' then json else TakeActions(t);
      if parsed.Ok? && |parsed.value| <= 3
         && forall i :: 0 <= i < |parsed.value| ==> WellFormed(Normalize(parsed.value[i]))
      then ParseActions(s, json) == Ok(NormalizeAll(parsed.value))
      else ParseActions(s, json).Err? && (parsed.Err? ==> ParseActions(s, json) == parsed)
  {
    var t := TrimSpace(s);
    assert HasPrefix(t, "[") <==> t != "" && t[0] == '[';
    var parsed := if HasPrefix(t, "[") then json else TakeActions(t);
    if parsed.Ok? {
      NoComplaint(NormalizeAll(parsed.value));
      forall i | 0 <= i < |parsed.value| ensures Complaint(NormalizeAll(parsed.value)[i]).None? <==>
        WellFormed(Normalize(parsed.value[i]))
      {
        ComplaintExactly(Normalize(parsed.value[i]));
      }
    }
  }

  lemma {:induction false} FirstDrawsComplaint(actions: seq<Action>, i: nat)
    requires i < |actions| && Complaint(actions[i]).Some?
    requires forall j :: 0 <= j < i ==> Complaint(actions[j]).None?
    ensures FirstComplaint(actions) == Complaint(actions[i])
  {
    if i > 0 {
      assert Complaint(actions[0]).None?;
      assert forall j :: 0 <= j < i - 1 ==> actions[1..][j] == actions[j + 1];
      FirstDrawsComplaint(actions[1..], i - 1);
    }
  }

  /** Too many actions are refused as such, before the first that is not well formed is complained about. */
  lemma RefusedExactly(s: string, json: Result<seq<Action>>, i: nat)
    ensures var t := TrimSpace(s);
      var parsed := if t != "" && t[0] == '[' then json else TakeActions(t);
      parsed.Ok? ==>
        && (ParseActions(s, json) == Err(TooManyActions) <==> |parsed.value| > 3)
        && (|parsed.value| <= 3 && FirstIllFormed(parsed.value, i) ==>
              ParseActions(s, json) == Err(Complaint(Normalize(parsed.value[i])).value))
  {
    var t := TrimSpace(s);
    assert HasPrefix(t, "[") <==> t != "" && t[0] == '[';
    var parsed := if HasPrefix(t, "[") then json else TakeActions(t);
    if parsed.Ok? {
      ComplaintsOnly(NormalizeAll(parsed.value));
      if FirstIllFormed(parsed.value, i) { FirstComplains(parsed.value, i); }
    }
  }

  /** The action at position i is the first that is not well formed. */
  ghost predicate FirstIllFormed(actions: seq<Action>, i: nat)
    ensures FirstIllFormed(actions, i) ==> i < |actions| && Complaint(Normalize(actions[i])).Some?
  {
    i < |actions| && !WellFormed(Normalize(actions[i])) && forall j :: 0 <= j < i ==> WellFormed(Normalize(actions[j]))
  }

  lemma FirstComplains(actions: seq<Action>, i: nat)
    requires FirstIllFormed(actions, i)
    ensures FirstComplaint(NormalizeAll(actions)) == Complaint(Normalize(actions[i]))
  {
    forall j | 0 <= j <= i ensures Complaint(NormalizeAll(actions)[j]).None? <==> WellFormed(Normalize(actions[j])) {
      ComplaintExactly(Normalize(actions[j]));
    }
    FirstDrawsComplaint(NormalizeAll(actions), i);
  }

  lemma {:induction false} ComplaintsOnly(actions: seq<Action>)
    ensures FirstComplaint(actions) != Some(TooManyActions)
  {
    if actions != [] { ComplaintsOnly(actions[1..]); }
  }

  lemma NormalizeTwice(a: Action)
    ensures Normalize(Normalize(a)) == Normalize(a)
  {}

  /** Whatever is accepted is at most three actions, in normal form and well formed. */
  lemma AcceptedIsValid(s: string, json: Result<seq<Action>>)
    ensures ParseActions(s, json).Ok? ==>
      var actions := ParseActions(s, json).value;
      |actions| <= 3 && forall i :: 0 <= i < |actions| ==> WellFormed(actions[i]) && Normalize(actions[i]) == actions[i]
  {
    AcceptedExactly(s, json);
    if ParseActions(s, json).Ok? {
      forall i | 0 <= i < |ParseActions(s, json).value|
        ensures Normalize(ParseActions(s, json).value[i]) == ParseActions(s, json).value[i]
      {
        var t := TrimSpace(s);
        var parsed := if t != "" && t[0] == '[' then json else TakeActions(t);
        NormalizeTwice(parsed.value[i]);
      }
    }
  }

  /** Actions that are well formed and in normal form go through trimming, parsing, normalization and
      validation unchanged, however they are written out. */
  lemma ParseActionsRoundTrip(actions: seq<Action>, texts: seq<seq<Piece>>, before: string, after: string,
      json: Result<seq<Action>>)
    requires Written(actions, texts) && EndsTight(texts)
    requires texts != [] && texts[0] != [] ==> texts[0][0].layout.gap == ""
    requires WideBlanks(before) && WideBlanks(after) && |actions| <= 3
    requires forall i :: 0 <= i < |actions| ==> WellFormed(actions[i]) && Normalize(actions[i]) == actions[i]
    ensures ParseActions(before + (PrintActions(texts) + after), json) == Ok(actions)
  {
    var s := before + (PrintActions(texts) + after);
    WrittenRoundTrip(actions, texts);
    if texts == [] {
      assert s == before + after;
      AllTrimmed(s);
    } else {
      assert WrittenAs(actions[0], texts[0]);
      WrittenStarts(actions[0], texts[0]);
      PrintIsTrimmed(texts, before, after);
    }
    AcceptedExactly(s, json);
    assert NormalizeAll(actions) == actions;
  }

  /* ---- sections that are refused, and keys in any case ---- */

  predicate IsField(k: string) {
    k == "action" || k == "label" || k == "clear" || k == "url" || k == "method" || k == "body" || k == "value"
    || k == "intent"
  }

  /** A section without a key is refused from the fourth one on, and as the third one of an action that has
      neither an address nor a value. */
  lemma UnnamedRefused(a: Action, section: nat, value: string)
    ensures Populate(a, section, "", value) == Err(UnknownTerm(value)) <==>
      section >= 3 || (section == 2 && a.action != "view" && a.action != "http" && a.action != "copy")
  {}

  /** A key is known if it is one of the eight fields, in any case, or begins as a header or an extra does. */
  lemma KnownKeysExactly(a: Action, section: nat, key: string, value: string)
    requires key != ""
    ensures Populate(a, section, key, value) == Err(UnknownKey(key)) <==>
      !HasPrefix(key, "headers.") && !HasPrefix(key, "extras.") && !IsField(Lower(key))
    ensures Populate(a, section, key, value).Ok? <==>
      HasPrefix(key, "headers.") || HasPrefix(key, "extras.") ||
      (IsField(Lower(key)) && (Lower(key) == "clear" ==> IsTruth(Lower(value)) || IsUntruth(Lower(value))))
  {}

  predicate IsTruth(v: string) { v == "true" || v == "yes" || v == "1" }
  predicate IsUntruth(v: string) { v == "false" || v == "no" || v == "0" }

  /** The switch is on for true, yes and 1, off for false, no and 0, in any case, and nothing else is taken. */
  lemma ClearExactly(a: Action, key: string, value: string)
    requires Lower(key) == "clear"
    ensures SetField(a, key, value) ==
      if IsTruth(Lower(value)) then Ok(a.(clear := true))
      else if IsUntruth(Lower(value)) then Ok(a.(clear := false)) else Err(InvalidClear(value))
  {}

  lemma LowerTwice(s: string)
    ensures Lower(Lower(s)) == Lower(s)
  {}

  /** A field is set under its name in any case. */
  lemma AnyCase(a: Action, key: string, value: string)
    requires IsField(Lower(key))
    ensures SetField(a, key, value) == SetField(a, Lower(key), value)
  {
    LowerTwice(key);
  }
}
