/** Byte-wise string order (SQLite's BINARY collation) and the sorted list of a finite set. */
module Ordering {

  predicate Less(a: string, b: string) {
    b != "" && (a == "" || a[0] < b[0] || (a[0] == b[0] && Less(a[1..], b[1..])))
  }

  lemma {:induction false} LessIrreflexive(a: string)
    ensures !Less(a, a)
  {
    if a != "" { LessIrreflexive(a[1..]); }
  }

  lemma {:induction false} LessTransitive(a: string, b: string, c: string)
    requires Less(a, b) && Less(b, c)
    ensures Less(a, c)
  {
    if a != "" && a[0] == b[0] == c[0] {
      LessTransitive(a[1..], b[1..], c[1..]);
    }
  }

  lemma {:induction false} LessTotal(a: string, b: string)
    ensures Less(a, b) || a == b || Less(b, a)
  {
    if a != "" && b != "" && a[0] == b[0] {
      LessTotal(a[1..], b[1..]);
      assert a == [a[0]] + a[1..] && b == [b[0]] + b[1..];
    }
  }

  predicate IsLeast(x: string, s: set<string>) {
    x in s && forall y :: y in s ==> y == x || Less(x, y)
  }

  lemma {:induction false} LeastExists(s: set<string>)
    requires s != {}
    ensures exists x :: IsLeast(x, s)
  {
    var z :| z in s;
    if s == {z} {
      assert IsLeast(z, s);
    } else {
      var rest := s - {z};
      LeastExists(rest);
      var m :| IsLeast(m, rest);
      LessTotal(z, m);
      if Less(z, m) {
        forall y | y in s ensures y == z || Less(z, y) {
          if y != z && y != m { LessTransitive(z, m, y); }
        }
        assert IsLeast(z, s);
      } else {
        assert IsLeast(m, s);
      }
    }
  }

  lemma LeastUnique(x: string, y: string, s: set<string>)
    requires IsLeast(x, s) && IsLeast(y, s)
    ensures x == y
  {
    if x != y {
      LessTransitive(x, y, x);
      LessIrreflexive(x);
    }
  }

  function Least(s: set<string>): (x: string)
    requires s != {}
    ensures IsLeast(x, s)
  {
    LeastExists(s);
    assert forall x, y :: IsLeast(x, s) && IsLeast(y, s) ==> x == y by {
      forall x, y | IsLeast(x, s) && IsLeast(y, s) ensures x == y { LeastUnique(x, y, s); }
    }
    var x :| IsLeast(x, s);
    x
  }

  ghost predicate Ascending(xs: seq<string>) {
    forall i, j :: 0 <= i < j < |xs| ==> Less(xs[i], xs[j])
  }

  /** ORDER BY over the distinct values of one text column. */
  function Sort(s: set<string>): (xs: seq<string>)
    ensures |xs| == |s| && Ascending(xs)
    ensures forall x :: x in xs <==> x in s
  {
    if s == {} then [] else
      var m := Least(s);
      var rest := Sort(s - {m});
      assert forall i :: 0 <= i < |rest| ==> rest[i] in rest;
      [m] + rest
  }

  /** The sorted list is determined by the set: any ascending list of the same elements is it. */
  lemma {:induction false} SortUnique(xs: seq<string>, s: set<string>)
    requires Ascending(xs) && forall x :: x in xs <==> x in s
    ensures xs == Sort(s)
  {
    if xs == [] {
      assert s == {};
    } else {
      forall y | y in s ensures y == xs[0] || Less(xs[0], y) {
        var i :| 0 <= i < |xs| && xs[i] == y;
      }
      assert IsLeast(xs[0], s);
      LeastUnique(xs[0], Least(s), s);
      forall x ensures x in xs[1..] <==> x in s - {xs[0]} {
        LessIrreflexive(xs[0]);
        if x in xs[1..] {
          var i :| 1 <= i < |xs| && xs[i] == x;
        }
      }
      SortUnique(xs[1..], s - {xs[0]});
    }
  }
}
