/** Printing sizes and reading them back (util/util.go). */
module Sizes {
  import opened Text

  const MAX_INT64 := 0x7FFF_FFFF_FFFF_FFFF
  const TWO_64 := 0x1_0000_0000_0000_0000

  /** The value of an int64 multiplication. */
  function Wrap64(x: int): int {
    var r := x % TWO_64;
    if r > MAX_INT64 then r - TWO_64 else r
  }

  /* ---- decimal numbers ---- */

  function Digit(d: nat): char
    requires d < 10
  {
    (d + '0' as int) as char
  }

  predicate IsDigit(c: char) { '0' <= c <= '9' }

  function Decimal(n: nat): string {
    if n < 10 then [Digit(n)] else Decimal(n / 10) + [Digit(n % 10)]
  }

  function DigitsValue(s: string): nat {
    if s == "" || !IsDigit(s[|s| - 1]) then 0 else DigitsValue(s[..|s| - 1]) * 10 + (s[|s| - 1] as int - '0' as int)
  }

  predicate AllDigits(s: string) { forall i :: 0 <= i < |s| ==> IsDigit(s[i]) }

  lemma {:induction false} DecimalReadsBack(n: nat)
    ensures Decimal(n) != "" && AllDigits(Decimal(n)) && DigitsValue(Decimal(n)) == n
  {
    if n >= 10 {
      DecimalReadsBack(n / 10);
      var front := Decimal(n / 10);
      assert Decimal(n)[..|front|] == front;
    } else {
      assert Decimal(n)[..0] == "";
    }
  }

  /* ---- sizes ---- */

  datatype Parsed = Bytes(value: int) | Invalid

  /** The letters of the size expression; case folding lets the Kelvin sign through as well. */
  predicate IsUnit(c: char) {
    c == 'g' || c == 'm' || c == 'k' || c == 'b' || c == 'G' || c == 'M' || c == 'K' || c == 'B' || c == '\U{212A}'
  }

  /** Upper case of a unit letter, and what it multiplies by. */
  function Multiplier(c: char): int {
    if c == 'g' || c == 'G' then 1024 * 1024 * 1024
    else if c == 'm' || c == 'M' then 1024 * 1024
    else if c == 'k' || c == 'K' then 1024
    else 1
  }

  function ParseSize(s: string): Parsed {
    var unit := s != "" && IsUnit(s[|s| - 1]);
    var digits := if unit then s[..|s| - 1] else s;
    if digits == "" || !AllDigits(digits) || DigitsValue(digits) > MAX_INT64 then Invalid
    else Bytes(if unit then Wrap64(DigitsValue(digits) * Multiplier(s[|s| - 1])) else DigitsValue(digits))
  }

  /** The bytes in one of each unit, whichever case its letter is in. */
  predicate UnitIs(c: char, bytes: int) {
    || ((c == 'g' || c == 'G') && bytes == 1_073_741_824)
    || ((c == 'm' || c == 'M') && bytes == 1_048_576)
    || ((c == 'k' || c == 'K') && bytes == 1024)
    || ((c == 'b' || c == 'B' || c == '\U{212A}') && bytes == 1)
  }

  /** A number alone is a size in bytes, and a number with a unit letter in either case that many units, with the
      overflow of a 64-bit product. */
  lemma ParsesUnits(digits: string, c: char, bytes: int)
    requires digits != "" && AllDigits(digits) && DigitsValue(digits) <= MAX_INT64 && UnitIs(c, bytes)
    ensures ParseSize(digits) == Bytes(DigitsValue(digits))
    ensures ParseSize(digits + [c]).Bytes? && IsInt64Of(ParseSize(digits + [c]).value, DigitsValue(digits) * bytes)
  {
    UnitLetter(digits, c, bytes, DigitsValue(digits) * bytes);
    WrapsAround(DigitsValue(digits) * bytes);
  }

  /** size is x, up to the overflow of a 64-bit integer. */
  predicate IsInt64Of(size: int, x: int) {
    && -0x8000_0000_0000_0000 <= size <= 0x7FFF_FFFF_FFFF_FFFF
    && (size - x) % 0x1_0000_0000_0000_0000 == 0
    && (-0x8000_0000_0000_0000 <= x <= 0x7FFF_FFFF_FFFF_FFFF ==> size == x)
  }

  lemma UnitLetter(digits: string, c: char, bytes: int, product: int)
    requires digits != "" && AllDigits(digits) && DigitsValue(digits) <= MAX_INT64 && UnitIs(c, bytes)
    requires product == DigitsValue(digits) * bytes
    ensures ParseSize(digits) == Bytes(DigitsValue(digits)) && ParseSize(digits + [c]) == Bytes(Wrap64(product))
  {
    var s := digits + [c];
    assert s[..|s| - 1] == digits && s[|s| - 1] == c && Multiplier(c) == bytes && IsUnit(c);
  }

  lemma WrapsAround(x: int)
    ensures IsInt64Of(Wrap64(x), x)
  {}

  /** The text begins with n digits that stand for a 64-bit number, and ends there or with a unit letter. */
  ghost predicate IsSize(s: string, n: nat) {
    && 0 < n <= |s| && AllDigits(s[..n]) && DigitsValue(s[..n]) <= MAX_INT64
    && (n == |s| || (n + 1 == |s| && exists bytes :: UnitIs(s[n], bytes)))
  }

  /** Nothing else is a size. */
  lemma ParsesExactly(s: string)
    ensures ParseSize(s).Bytes? <==> exists n: nat :: IsSize(s, n)
  {
    assert s[..|s|] == s;
    assert s != "" && AllDigits(s) ==> IsDigit(s[|s| - 1]);
    if ParseSize(s).Bytes? {
      var n := if IsUnit(s[|s| - 1]) then |s| - 1 else |s|;
      assert n < |s| ==> UnitIs(s[n], Multiplier(s[n]));
      assert IsSize(s, n);
    }
  }

  function Power(k: nat): (p: nat)
    ensures p >= 1
  {
    if k == 0 then 1 else 1024 * Power(k - 1)
  }

  const UNITS := "KMGT"

  /** The largest unit, as a power of 1024, that is not above b. */
  ghost predicate IsLargestUnit(b: int, k: nat) { Power(k) <= b < Power(k + 1) }

  /** Division rounded down. */
  function Quotient(b: nat, d: nat): (q: nat)
    requires d >= 1
  {
    b / d
  }

  /** b in units of the k-th power, rounded down; None where there is no letter for the unit. */
  function InUnits(b: int, k: nat): Option<string>
    requires b >= 0
  {
    if k > |UNITS| then None
    else if k == 0 then Some(Decimal(b))
    else Some(Decimal(Quotient(b, Power(k))) + [UNITS[k - 1]])
  }

  /** FormatSize; None where the code indexes past its unit letters. */
  method FormatSize(b: int) returns (s: Option<string>)
    ensures s.None? <==> b >= 0x4_0000_0000_0000
    ensures b < 0 ==> s == Some("-" + Decimal(-b))
    ensures 0 <= b < 1024 ==> s == InUnits(b, 0)
    ensures b >= 1024 ==> exists k: nat :: IsLargestUnit(b, k) && s == InUnits(b, k)
  {
    if b < 1024 {
      return Some(if b < 0 then "-" + Decimal(-b) else Decimal(b));
    }
    var div, exp := 1024, 0;
    var n := b / 1024;
    assert Power(1) == 1024 && Power(2) == 1024 * 1024;
    while n >= 1024
      invariant exp >= 0 && div == Power(exp + 1) && div >= 1024 && n == b / div && n >= 1
      decreases n
    {
      DivideTwice(b, div);
      div := div * 1024;
      exp := exp + 1;
      n := n / 1024;
    }
    QuotientBounds(b, div);
    assert IsLargestUnit(b, exp + 1);
    BeyondUnits(b, exp + 1);
    if exp >= |UNITS| {
      return None;
    }
    s := Some(Decimal(b / div) + [UNITS[exp]]);
  }

  lemma BeyondUnits(b: int, k: nat)
    requires IsLargestUnit(b, k)
    ensures k > |UNITS| <==> b >= 0x4_0000_0000_0000
  {
    assert Power(5) == 0x4_0000_0000_0000;
    if k > |UNITS| { PowerGrows(5, k); } else { PowerGrows(k + 1, 5); }
  }

  lemma DivideTwice(b: int, d: nat)
    requires b >= 0 && d >= 1
    ensures (b / d) / 1024 == b / (d * 1024)
  {
    var q, r := b / d, b % d;
    var q2, r2 := q / 1024, q % 1024;
    assert b == (d * 1024) * q2 + (d * r2 + r);
    assert 0 <= d * r2 + r < d * 1024 by {
      MulMonotone(d, r2, 1023);
    }
    DivisionUnique(b, d * 1024, q2, d * r2 + r);
  }

  lemma MulMonotone(d: nat, x: int, y: int)
    requires x <= y
    ensures d * x <= d * y
  {}

  lemma DivisionUnique(b: int, d: nat, q: int, r: int)
    requires d >= 1 && b == d * q + r && 0 <= r < d
    ensures b / d == q
  {
    var p := b / d;
    assert d * p <= b < d * p + d;
    if p > q {
      MulMonotone(d, q + 1, p);
    } else if p < q {
      MulMonotone(d, p + 1, q);
    }
  }

  lemma QuotientBounds(b: int, d: nat)
    requires b >= 0 && d >= 1 && 1 <= b / d < 1024
    ensures d <= b < 1024 * d
  {
    var q := b / d;
    assert d * q <= b < d * q + d;
    MulMonotone(d, 1, q);
    MulMonotone(d, q + 1, 1024);
  }

  lemma PowerGrows(j: nat, k: nat)
    requires j <= k
    ensures 1 <= Power(j) <= Power(k)
  {
    if j < k { PowerGrows(j, k - 1); } else if j > 0 { PowerGrows(j - 1, j - 1); }
  }

  lemma LargestUnitUnique(b: int, j: nat, k: nat)
    requires IsLargestUnit(b, j) && IsLargestUnit(b, k)
    ensures j == k
  {
    if j < k { PowerGrows(j + 1, k); }
    if k < j { PowerGrows(k + 1, j); }
  }

  /* ---- round trips ---- */

  /** The unit in which b is printed. */
  ghost predicate UnitOf(b: int, k: nat) { (b == 0 && k == 0) || IsLargestUnit(b, k) }

  lemma Powers()
    ensures Power(0) == 1 && Power(1) == 1024 && Power(2) == 1024 * 1024 && Power(3) == 1024 * 1024 * 1024
    ensures Power(4) == 1024 * 1024 * 1024 * 1024
  {}

  lemma LastIsDigit(n: nat)
    ensures var s := Decimal(n); s != "" && IsDigit(s[|s| - 1])
  {
    DecimalReadsBack(n);
  }

  lemma PlainReadsBack(n: nat)
    requires n <= MAX_INT64
    ensures ParseSize(Decimal(n)) == Bytes(n)
  {
    LastIsDigit(n);
    DecimalReadsBack(n);
  }

  lemma WithUnitReadsBack(q: nat, c: char)
    requires IsUnit(c) && q <= MAX_INT64
    ensures ParseSize(Decimal(q) + [c]) == Bytes(Wrap64(q * Multiplier(c)))
  {
    DecimalReadsBack(q);
    assert (Decimal(q) + [c])[..|Decimal(q)|] == Decimal(q);
  }

  lemma TerabytesRefused(q: nat)
    ensures ParseSize(Decimal(q) + "T") == Invalid
  {
    var s := Decimal(q) + "T";
    assert s[|s| - 1] == 'T' && !IsUnit('T');
  }

  lemma NegativeRefused(n: nat)
    ensures ParseSize("-" + Decimal(n)) == Invalid
  {
    var s := "-" + Decimal(n);
    DecimalReadsBack(n);
    assert s[0] == '-' && s[|s| - 1] == Decimal(n)[|Decimal(n)| - 1];
  }

  /** b rounded down to its unit. */
  function Rounded(b: nat, k: nat): int { b / Power(k) * Power(k) }

  lemma RoundedBounds(b: nat, d: nat)
    requires d >= 1
    ensures b / d * d <= b < b / d * d + d
    ensures b / d * d == b <==> b % d == 0
    ensures (b / d * d) / d == b / d
  {
    DivisionUnique(b / d * d, d, b / d, 0);
  }

  lemma UnitBelow(b: nat, k: nat)
    requires UnitOf(b, k)
    ensures k <= 3 <==> b < 0x100_0000_0000
    ensures k == 0 <==> b < 1024
  {
    Powers();
    if b > 0 {
      if k <= 3 { PowerGrows(k + 1, 4); } else { PowerGrows(4, k); }
      if k > 0 { PowerGrows(1, k); }
    }
  }

  lemma UnitReadsBack(b: nat, k: nat, q: nat)
    requires 1 <= k <= 3 && b < 0x100_0000_0000 && q == Quotient(b, Power(k))
    ensures ParseSize(Decimal(q) + [UNITS[k - 1]]) == Bytes(Rounded(b, k))
  {
    Powers();
    assert Multiplier(UNITS[k - 1]) == Power(k);
    SmallProduct(q, Power(k), b);
    WithUnitReadsBack(q, UNITS[k - 1]);
  }

  lemma PlainUnits(b: nat)
    ensures InUnits(b, 0) == Some(Decimal(b)) && Rounded(b, 0) == b
  {}

  lemma LetterUnits(b: nat, k: nat, q: nat)
    requires 1 <= k <= |UNITS| && q == Quotient(b, Power(k))
    ensures InUnits(b, k) == Some(Decimal(q) + [UNITS[k - 1]])
  {}

  /** A printed size reads back exactly if it is below 2^40; the printer's own letter for larger ones is
      not one the reader knows. */
  lemma FormatThenParse(b: nat, k: nat)
    requires UnitOf(b, k) && InUnits(b, k).Some?
    ensures ParseSize(InUnits(b, k).value) == if b < 0x100_0000_0000 then Bytes(Rounded(b, k)) else Invalid
  {
    UnitBelow(b, k);
    if k == 0 {
      PlainUnits(b);
      PlainReadsBack(b);
    } else {
      var q := Quotient(b, Power(k));
      LetterUnits(b, k, q);
      if k <= 3 {
        UnitReadsBack(b, k, q);
      } else {
        assert [UNITS[3]] == "T";
        TerabytesRefused(q);
      }
    }
  }

  lemma SmallProduct(q: nat, d: nat, b: nat)
    requires 1 <= d && q == b / d && b < 0x100_0000_0000
    ensures q <= MAX_INT64 && Wrap64(q * d) == b / d * d
  {
    RoundedBounds(b, d);
    MulMonotone(q, 1, d);
  }

  /** What is lost in the round trip is less than one unit, and nothing exactly for whole numbers of
      units; printing the result gives the same text again. */
  lemma RoundingLoss(b: nat, k: nat)
    requires UnitOf(b, k)
    ensures Rounded(b, k) <= b < Rounded(b, k) + Power(k)
    ensures Rounded(b, k) == b <==> b % Power(k) == 0
    ensures UnitOf(Rounded(b, k), k) && InUnits(Rounded(b, k), k) == InUnits(b, k)
  {
    RoundedBounds(b, Power(k));
    if b > 0 {
      DivisionAtLeastOne(b, Power(k));
      MulMonotone(Power(k), 1, b / Power(k));
    }
  }

  lemma DivisionAtLeastOne(b: nat, d: nat)
    requires 1 <= d <= b
    ensures b / d >= 1
  {}
}
