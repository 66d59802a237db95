/** The parser object (server/actions.go): a position that every parse method advances. */
module ActionParser {
  import opened Text
  import opened ActionSyntax

  class ActionParser {
    const input: string
    var pos: nat

    constructor (input: string)
      ensures this.input == input && pos == 0 && Valid() && Rest() == input
    {
      this.input := input;
      pos := 0;
    }

    ghost predicate Valid()
      reads this
    {
      pos <= |input|
    }

    /** The text still to come. */
    ghost function Rest(): string
      requires Valid()
      reads this
    {
      input[pos..]
    }

    predicate Eof()
      reads this
    {
      pos >= |input|
    }

    /** The next character and its width, NUL and 0 at the end. */
    function Next(): (r: (char, nat))
      requires Valid()
      reads this
      ensures r.0 == Peek(Rest()) && r.1 == (if Rest() == "" then 0 else 1)
    {
      if Eof() then (NUL, 0) else (input[pos], 1)
    }

    method SlurpSpaces()
      requires Valid()
      modifies this
      ensures Valid() && old(pos) <= pos && Rest() == SkipSpaces(old(Rest()))
    {
      while true
        invariant Valid() && old(pos) <= pos && SkipSpaces(Rest()) == SkipSpaces(old(Rest()))
        decreases |input| - pos
      {
        var (r, w) := Next();
        if r == NUL || !IsSpace(r) {
          return;
        }
        assert Rest()[1..] == input[pos + 1..];
        pos := pos + w;
      }
    }

    /** Matches the key's regular expression at the current position. */
    method ParseKey() returns (key: string)
      requires Valid()
      modifies this
      ensures Valid() && old(pos) <= pos && (key, Rest()) == TakeKey(old(Rest()))
    {
      var r := input[pos..];
      assert r == Rest();
      var k := KeyRun(r);
      var e := k + SpaceRun(r[k..]);
      if k == 0 || e >= |r| || r[e] != '=' {
        return "";
      }
      var width := e + 1 + SpaceRun(r[e + 1..]);
      assert r[width..] == r[e + 1..][SpaceRun(r[e + 1..])..];
      assert input[pos + width..] == r[width..];
      key := r[..k];
      pos := pos + width;
    }

    method ParseValue() returns (value: string, last: bool)
      requires Valid()
      modifies this
      ensures Valid() && old(pos) <= pos
      ensures var n := ValueRun(old(Rest()));
        value == TrimSpace(old(Rest())[..n]) && last == IsLastSection(Peek(old(Rest())[n..]))
          && Rest() == AfterEnd(old(Rest())[n..])
    {
      var start := pos;
      SkipValue();
      ghost var n := ValueRun(old(Rest()));
      assert old(Rest())[..n] == input[start..pos];
      assert old(Rest())[n..] == Rest();
      var (r, w) := Next();
      last := IsLastSection(r);
      value := TrimSpace(input[start..pos]);
      assert pos < |input| ==> input[pos + 1..] == input[pos..][1..];
      pos := pos + w;
    }

    /** Advances to the end of the section. */
    method SkipValue()
      requires Valid()
      modifies this
      ensures Valid() && pos == old(pos) + ValueRun(old(Rest()))
    {
      while true
        invariant Valid() && old(pos) <= pos
        invariant pos - old(pos) + ValueRun(Rest()) == ValueRun(old(Rest()))
        decreases |input| - pos
      {
        var (r, w) := Next();
        if IsSectionEnd(r) {
          return;
        }
        assert Rest()[1..] == input[pos + 1..];
        pos := pos + w;
      }
    }

    /** Advances to the closing quote. */
    method FindClosingQuote(quote: char) returns (found: bool)
      requires Valid()
      modifies this
      ensures Valid() && old(pos) <= pos
      ensures ClosingQuote(old(Rest()), NUL, quote) == if found then Some(pos - old(pos)) else None
    {
      var prev := NUL;
      while true
        invariant Valid() && old(pos) <= pos
        invariant ClosingQuote(old(Rest()), NUL, quote) ==
          (match ClosingQuote(Rest(), prev, quote) case None => None case Some(n) => Some(n + (pos - old(pos))))
        decreases |input| - pos
      {
        var (r, w) := Next();
        if r == NUL {
          return false;
        } else if r == quote && prev != '\\' {
          return true;
        }
        assert Rest()[1..] == input[pos + 1..];
        prev := r;
        pos := pos + w;
      }
    }

    method ParseQuotedValue(quote: char, ghost key: string) returns (res: Result<(string, bool)>)
      requires Valid() && Rest() != "" && Rest()[0] == quote && IsQuote(quote)
      modifies this
      ensures Valid() && old(pos) <= pos
      ensures match TakeQuoted(key, old(Rest()))
        case Err(e) => res == Err(e)
        case Ok(s) => res == Ok((s.value, s.last)) && Rest() == s.rest
    {
      ghost var text := Rest();
      pos := pos + 1;
      var start := pos;
      assert text[1..] == Rest();
      var found := FindClosingQuote(quote);
      if !found {
        return Err(UnexpectedEnd);
      }
      ghost var n := pos - start;
      var value := Unquote(input[start..pos], quote);
      assert text[1..n + 1] == input[start..pos];
      pos := pos + 1;
      assert text[n + 2..] == Rest();
      SlurpSpaces();
      TakesQuoted(key, text, n);
      var last := EndSection();
      if last.Err? {
        return Err(last.error);
      }
      res := Ok((value, last.value));
    }

    /** Takes the separator behind a quoted value. */
    method EndSection() returns (last: Result<bool>)
      requires Valid()
      modifies this
      ensures Valid() && old(pos) <= pos
      ensures IsSectionEnd(Peek(old(Rest()))) ==>
        last == Ok(IsLastSection(Peek(old(Rest())))) && Rest() == AfterEnd(old(Rest()))
      ensures !IsSectionEnd(Peek(old(Rest()))) ==> last == Err(UnexpectedCharacter(Peek(old(Rest()))))
    {
      var (c, cw) := Next();
      if !IsSectionEnd(c) {
        return Err(UnexpectedCharacter(c));
      }
      assert AfterEnd(Rest()) == input[pos + cw..];
      pos := pos + cw;
      last := Ok(IsLastSection(c));
    }

    method ParseSection() returns (res: Result<(string, string, bool)>)
      requires Valid()
      modifies this
      ensures Valid() && old(pos) <= pos
      ensures match TakeSection(old(Rest()))
        case Err(e) => res == Err(e)
        case Ok(s) => res == Ok((s.key, s.value, s.last)) && Rest() == s.rest
    {
      SlurpSpaces();
      var key := ParseKey();
      ghost var behind := Rest();
      assert (key, behind) == TakeKey(SkipSpaces(old(Rest())));
      var (r, w) := Next();
      if IsSectionEnd(r) {
        pos := pos + w;
        assert Rest() == AfterEnd(behind);
        return Ok((key, "", IsLastSection(r)));
      }
      if IsQuote(r) {
        var quoted := ParseQuotedValue(r, key);
        assert TakeSection(old(Rest())) == TakeQuoted(key, behind);
        if quoted.Err? {
          return Err(quoted.error);
        }
        return Ok((key, quoted.value.0, quoted.value.1));
      }
      var value, last := ParseValue();
      res := Ok((key, value, last));
    }

    /** One action; it uses up at least one character if there is any. */
    method ParseAction() returns (res: Result<Action>)
      requires Valid()
      modifies this
      ensures Valid() && old(pos) <= pos
      ensures res.Ok? && old(pos) < |input| ==> old(pos) < pos
      ensures match TakeAction(NEW_ACTION, 0, old(Rest()))
        case Err(e) => res == Err(e)
        case Ok((a, rest)) => res == Ok(a) && Rest() == rest
    {
      var a := NEW_ACTION;
      var section := 0;
      ghost var start := Rest();
      while true
        invariant Valid() && old(pos) <= pos
        invariant TakeAction(a, section, Rest()) == TakeAction(NEW_ACTION, 0, old(Rest()))
        decreases |input| - pos
      {
        ghost var before := Rest();
        var parsed := ParseSection();
        if parsed.Err? {
          return Err(parsed.error);
        }
        var (key, value, last) := parsed.value;
        assert !last ==> |Rest()| < |before|;
        var populated := Populate(a, section, key, value);
        if populated.Err? {
          return Err(populated.error);
        }
        a := populated.value;
        SlurpSpaces();
        if last {
          assert start != "" ==> |Rest()| < |start|;
          return Ok(a);
        }
        section := section + 1;
      }
    }

    /** Parses actions up to the end of the input; on success all of it has been used. */
    method Parse() returns (res: Result<seq<Action>>)
      requires Valid()
      modifies this
      ensures Valid() && old(pos) <= pos
      ensures res == TakeActions(old(Rest()))
      ensures res.Ok? ==> Eof()
    {
      var actions: seq<Action> := [];
      assert forall more: seq<Action> {:trigger [] + more} :: [] + more == more;
      while !Eof()
        invariant Valid() && old(pos) <= pos
        invariant TakeActions(old(Rest())) ==
          (match TakeActions(Rest()) case Err(e) => Err(e) case Ok(more) => Ok(actions + more))
        decreases |input| - pos
      {
        ghost var before := Rest();
        var a := ParseAction();
        if a.Err? {
          return Err(a.error);
        }
        assert |Rest()| < |before|;
        assert forall more :: actions + ([a.value] + more) == (actions + [a.value]) + more;
        actions := actions + [a.value];
      }
      assert Rest() == "";
      assert actions + [] == actions;
      res := Ok(actions);
    }
  }

  lemma TakesQuoted(key: string, r: string, n: nat)
    requires r != "" && ClosingQuote(r[1..], NUL, r[0]) == Some(n)
    ensures var behind := SkipSpaces(r[n + 2..]);
      TakeQuoted(key, r) ==
        if IsSectionEnd(Peek(behind))
        then Ok(Section(key, Unquote(r[1..n + 1], r[0]), IsLastSection(Peek(behind)), AfterEnd(behind)))
        else Err(UnexpectedCharacter(Peek(behind)))
  {}

  /** parseActions: the JSON or the simple format, then normalization and validation. */
  method ParseActionsText(s: string, json: Result<seq<Action>>) returns (res: Result<seq<Action>>)
    ensures res == ParseActions(s, json)
  {
    var t := TrimSpace(s);
    var parsed: Result<seq<Action>> := json;
    if !HasPrefix(t, "[") {
      var parser := new ActionParser(t);
      parsed := parser.Parse();
    }
    if parsed.Err? {
      return parsed;
    }
    var actions := parsed.value;
    for i := 0 to |actions|
      invariant |actions| == |parsed.value|
      invariant forall j :: 0 <= j < |actions| ==>
        actions[j] == if j < i then Normalize(parsed.value[j]) else parsed.value[j]
    {
      actions := actions[i := Normalize(actions[i])];
    }
    assert actions == NormalizeAll(parsed.value);
    if |actions| > 3 {
      return Err(TooManyActions);
    }
    for i := 0 to |actions|
      invariant FirstComplaint(actions[i..]) == FirstComplaint(actions)
    {
      assert actions[i..][1..] == actions[i + 1..];
      var complaint := Complaint(actions[i]);
      if complaint.Some? {
        return Err(complaint.value);
      }
    }
    assert actions[|actions|..] == [];
    res := Ok(actions);
  }
}
