/** Character and string helpers shared by the models: ASCII case folding, concatenation of
    pieces, and the two shapes of Go's strings.ReplaceAll that the code uses. */
module Text {

  datatype Option<+T> = None | Some(value: T)

  /** ASCII lower-casing of one character; every other character is left alone. */
  function Fold(c: char): char {
    if 'A' <= c <= 'Z' then (c as int + 32) as char else c
  }

  function FoldAll(s: string): string {
    seq(|s|, i requires 0 <= i < |s| => Fold(s[i]))
  }

  function Concat(parts: seq<string>): string {
    if parts == [] then "" else parts[0] + Concat(parts[1..])
  }

  /** strings.ReplaceAll with a pattern of one character. */
  function ReplaceChar(s: string, c: char, r: string): string {
    if s == "" then "" else (if s[0] == c then r else [s[0]]) + ReplaceChar(s[1..], c, r)
  }

  /** strings.ReplaceAll with a pattern of two characters, matched left to right without overlap. */
  function ReplacePair(s: string, a: char, b: char, r: string): string {
    if |s| < 2 then s
    else if s[0] == a && s[1] == b then r + ReplacePair(s[2..], a, b, r)
    else [s[0]] + ReplacePair(s[1..], a, b, r)
  }

  lemma {:induction false} ReplaceCharConcat(s: string, t: string, c: char, r: string)
    ensures ReplaceChar(s + t, c, r) == ReplaceChar(s, c, r) + ReplaceChar(t, c, r)
  {
    if s == "" {
      assert s + t == t;
    } else {
      assert (s + t)[1..] == s[1..] + t;
      ReplaceCharConcat(s[1..], t, c, r);
    }
  }

  lemma {:induction false} ReplaceCharAbsent(s: string, c: char, r: string)
    requires c !in s
    ensures ReplaceChar(s, c, r) == s
  {
    if s != "" {
      ReplaceCharAbsent(s[1..], c, r);
    }
  }

  /** Escaping a character with a backslash and then dropping the backslash in front of it is the
      identity on every string, whatever backslashes the string already holds. */
  lemma {:induction false} UnescapeUndoesEscape(s: string, c: char)
    requires c != '\\'
    ensures ReplacePair(ReplaceChar(s, c, ['\\', c]), '\\', c, [c]) == s
  {
    if s != "" {
      var rest := ReplaceChar(s[1..], c, ['\\', c]);
      var e := ReplaceChar(s, c, ['\\', c]);
      UnescapeUndoesEscape(s[1..], c);
      if s[0] == c {
        assert e[2..] == rest;
      } else {
        assert e[1..] == rest;
        assert s[1..] != "" ==> rest[0] != c;
      }
    }
  }
}
