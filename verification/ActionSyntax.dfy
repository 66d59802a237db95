/** The "simple" action format (server/actions.go), read from the text that is still to come: what
    each parse method takes off the front of it, and what it makes of it. Text is a sequence of
    characters; NUL counts as the end of the input wherever the parser peeks at it. */
module ActionSyntax {
  import opened Text

  const NUL: char := '\0'

  datatype Error =
    | UnexpectedEnd | UnexpectedCharacter(c: char) | UnknownTerm(value: string) | UnknownKey(key: string)
      | InvalidClear(value: string)
    | TooManyActions | InvalidAction(action: string) | LabelMissing | UrlMissing | ValueMissing | BodyNotAllowed
  datatype Result<T> = Ok(value: T) | Err(error: Error)

  datatype Action = Action(
    action: string, labelText: string, clear: bool, url: string, httpMethod: string, body: string, value: string,
      intent: string,
    headers: map<string, string>, extras: map<string, string>)

  const NEW_ACTION := Action("", "", false, "", "", "", "", "", map[], map[])

  predicate IsSpace(c: char) { c == ' ' || c == '\t' || c == '\r' || c == '\n' }
  predicate IsSectionEnd(c: char) { c == NUL || c == ';' || c == ',' }
  predicate IsLastSection(c: char) { c == NUL || c == ';' }
  predicate IsQuote(c: char) { c == '"' || c == '\'' }

  /** The characters of a key, [-.\w] in the key's regular expression. */
  predicate IsKeyChar(c: char) {
    c == '-' || c == '.' || c == '_' || 'a' <= c <= 'z' || 'A' <= c <= 'Z' || '0' <= c <= '9'
  }

  /** \s in a Go regular expression. */
  predicate IsRegexSpace(c: char) { IsSpace(c) || c == '\U{0C}' }

  /** unicode.IsSpace. */
  predicate IsUnicodeSpace(c: char) {
    IsRegexSpace(c) || c == '\U{0B}' || c == '\U{85}' || c == '\U{A0}' || c == '\U{1680}'
      || '\U{2000}' <= c <= '\U{200A}'
    || c == '\U{2028}' || c == '\U{2029}' || c == '\U{202F}' || c == '\U{205F}' || c == '\U{3000}'
  }

  function Peek(r: string): char { if r == "" then NUL else r[0] }

  /* ---- scanning ---- */

  function SkipSpaces(r: string): (rest: string)
    ensures |rest| <= |r|
  {
    if r != "" && IsSpace(r[0]) then SkipSpaces(r[1..]) else r
  }

  function KeyRun(r: string): (n: nat)
    ensures n <= |r|
  {
    if r != "" && IsKeyChar(r[0]) then 1 + KeyRun(r[1..]) else 0
  }

  function SpaceRun(r: string): (n: nat)
    ensures n <= |r|
  {
    if r != "" && IsRegexSpace(r[0]) then 1 + SpaceRun(r[1..]) else 0
  }

  /** The key in front of an '=', "" when there is none, and the text behind. */
  function TakeKey(r: string): (kr: (string, string))
    ensures |kr.1| <= |r|
  {
    var k := KeyRun(r);
    var e := k + SpaceRun(r[k..]);
    if k > 0 && e < |r| && r[e] == '=' then (r[..k], r[e + 1..][SpaceRun(r[e + 1..])..]) else ("", r)
  }

  function TrimLeft(s: string): string { if s != "" && IsUnicodeSpace(s[0]) then TrimLeft(s[1..]) else s }
  function TrimRight(s: string): string {
    if s != "" && IsUnicodeSpace(s[|s| - 1]) then TrimRight(s[..|s| - 1]) else s
  }
  function TrimSpace(s: string): string { TrimRight(TrimLeft(s)) }

  /** The length of an unquoted value. */
  function ValueRun(r: string): (n: nat)
    ensures n <= |r| && IsSectionEnd(Peek(r[n..]))
  {
    if IsSectionEnd(Peek(r)) then 0 else 1 + ValueRun(r[1..])
  }

  /** The offset of the closing quote: the first one that no backslash precedes. */
  function ClosingQuote(r: string, prev: char, quote: char): (n: Option<nat>)
    ensures n.Some? ==> n.value < |r| && r[n.value] == quote
  {
    if Peek(r) == NUL then None
    else if r[0] == quote && prev != '\\' then Some(0)
    else
      match ClosingQuote(r[1..], r[0], quote)
      case None => None
      case Some(n) => Some(n + 1)
  }

  function Unquote(s: string, quote: char): string { ReplacePair(s, '\\', quote, [quote]) }

  /** One section: its key ("" if positional), its value, whether it is the last of its action, and
      the text behind its end. */
  datatype Section = Section(key: string, value: string, last: bool, rest: string)

  function AfterEnd(r: string): string { if r == "" then "" else r[1..] }

  /** parseQuotedValue, given the text that starts with the opening quote. */
  function TakeQuoted(key: string, r: string): Result<Section>
    requires r != ""
  {
    match ClosingQuote(r[1..], NUL, r[0])
    case None => Err(UnexpectedEnd)
    case Some(n) =>
      var behind := SkipSpaces(r[n + 2..]);
      if IsSectionEnd(Peek(behind))
      then Ok(Section(key, Unquote(r[1..n + 1], r[0]), IsLastSection(Peek(behind)), AfterEnd(behind)))
      else Err(UnexpectedCharacter(Peek(behind)))
  }

  /** parseSection. A section that is not the last of its action takes at least its separator. */
  function TakeSection(r: string): (s: Result<Section>)
    ensures s.Ok? && (!s.value.last || r != "") ==> |s.value.rest| < |r|
  {
    var (key, v) := TakeKey(SkipSpaces(r));
    var c := Peek(v);
    if IsSectionEnd(c) then Ok(Section(key, "", IsLastSection(c), AfterEnd(v)))
    else if IsQuote(c) then TakeQuoted(key, v)
    else
      var n := ValueRun(v);
      Ok(Section(key, TrimSpace(v[..n]), IsLastSection(Peek(v[n..])), AfterEnd(v[n..])))
  }

  /* ---- meaning ---- */

  /** strings.ToLower, as far as its results are ASCII. */
  function LowerRune(c: char): char {
    if c == '\U{0130}' then 'i' else if c == '\U{212A}' then 'k' else Fold(c)
  }
  function Lower(s: string): string { seq(|s|, i requires 0 <= i < |s| => LowerRune(s[i])) }

  /** strings.ToUpper, as far as its results are ASCII. */
  function UpperRune(c: char): char {
    if c == '\U{0131}' then 'I' else if c == '\U{017F}' then 'S'
    else if 'a' <= c <= 'z' then (c as int - 32) as char else c
  }
  function Upper(s: string): string { seq(|s|, i requires 0 <= i < |s| => UpperRune(s[i])) }

  const HEADERS := "headers."
  const EXTRAS := "extras."

  predicate HasPrefix(s: string, p: string) { p <= s }

  predicate NeedsUrl(action: string) { action == "view" || action == "http" }
  predicate NeedsValue(action: string) { action == "copy" }

  /** The key that a section without one stands for, by its position. */
  function ExpandKey(a: Action, section: nat, key: string): string {
    if key != "" then key
    else if section == 0 then "action"
    else if section == 1 then "label"
    else if section == 2 && NeedsUrl(a.action) then "url"
    else if section == 2 && NeedsValue(a.action) then "value"
    else ""
  }

  predicate IsTrue(v: string) { v == "true" || v == "yes" || v == "1" }
  predicate IsFalse(v: string) { v == "false" || v == "no" || v == "0" }

  function SetField(a: Action, key: string, value: string): Result<Action> {
    var k := Lower(key);
    if k == "action" then Ok(a.(action := value))
    else if k == "label" then Ok(a.(labelText := value))
    else if k == "clear" then
      if IsTrue(Lower(value)) || IsFalse(Lower(value))
      then Ok(a.(clear := IsTrue(Lower(value))))
      else Err(InvalidClear(value))
    else if k == "url" then Ok(a.(url := value))
    else if k == "method" then Ok(a.(httpMethod := value))
    else if k == "body" then Ok(a.(body := value))
    else if k == "value" then Ok(a.(value := value))
    else if k == "intent" then Ok(a.(intent := value))
    else Err(UnknownKey(key))
  }

  /** populateAction. */
  function Populate(a: Action, section: nat, key: string, value: string): Result<Action> {
    var k := ExpandKey(a, section, key);
    if k == "" then Err(UnknownTerm(value))
    else if HasPrefix(k, HEADERS) then Ok(a.(headers := a.headers[k[|HEADERS|..] := value]))
    else if HasPrefix(k, EXTRAS) then Ok(a.(extras := a.extras[k[|EXTRAS|..] := value]))
    else SetField(a, k, value)
  }

  /** parseAction from a given section on: the action and the text behind it. */
  function TakeAction(a: Action, section: nat, r: string): (res: Result<(Action, string)>)
    ensures res.Ok? && r != "" ==> |res.value.1| < |r|
    decreases |r|
  {
    match TakeSection(r)
    case Err(e) => Err(e)
    case Ok(s) =>
      match Populate(a, section, s.key, s.value)
      case Err(e) => Err(e)
      case Ok(b) => if s.last then Ok((b, SkipSpaces(s.rest))) else TakeAction(b, section + 1, SkipSpaces(s.rest))
  }

  /** Parse: actions until the text is used up. */
  function TakeActions(r: string): Result<seq<Action>>
    decreases |r|
  {
    if r == "" then Ok([])
    else
      match TakeAction(NEW_ACTION, 0, r)
      case Err(e) => Err(e)
      case Ok((a, rest)) =>
        match TakeActions(rest)
        case Err(e) => Err(e)
        case Ok(more) => Ok([a] + more)
  }

  /* ---- the whole of parseActions ---- */

  function Normalize(a: Action): Action { a.(action := Lower(a.action), httpMethod := Upper(a.httpMethod)) }

  function Complaint(a: Action): Option<Error> {
    if a.action != "view" && a.action != "broadcast" && a.action != "http" && a.action != "copy"
    then Some(InvalidAction(a.action))
    else if a.labelText == "" then Some(LabelMissing)
    else if NeedsUrl(a.action) && a.url == "" then Some(UrlMissing)
    else if NeedsValue(a.action) && a.value == "" then Some(ValueMissing)
    else if a.action == "http" && (a.httpMethod == "GET" || a.httpMethod == "HEAD") && a.body != ""
    then Some(BodyNotAllowed)
    else None
  }

  function FirstComplaint(actions: seq<Action>): Option<Error> {
    if actions == [] then None
    else if Complaint(actions[0]).Some? then Complaint(actions[0])
    else FirstComplaint(actions[1..])
  }

  function NormalizeAll(actions: seq<Action>): seq<Action> {
    seq(|actions|, i requires 0 <= i < |actions| => Normalize(actions[i]))
  }

  /** json is what the JSON decoder makes of a text that starts with '['. */
  function ParseActions(s: string, json: Result<seq<Action>>): Result<seq<Action>> {
    var t := TrimSpace(s);
    match (if HasPrefix(t, "[") then json else TakeActions(t))
    case Err(e) => Err(e)
    case Ok(actions) =>
      var normal := NormalizeAll(actions);
      if |normal| > 3 then Err(TooManyActions)
      else if FirstComplaint(normal).Some? then Err(FirstComplaint(normal).value)
      else Ok(normal)
  }
}
