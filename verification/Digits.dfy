/**
  Positional notation as the C library prints it (`%u`, `%x`) and as the
  address parsers read it back.  One pair of functions serves both bases.
 */
module Digits {
  import opened Powers

  /** `%u` and `%x`. */
  type Base = b: nat | b == 10 || b == 16 witness 10

  /** The ASCII lower-casing of `c_tolower`. */
  function Lower(c: char): char {
    if 'A' <= c <= 'Z' then c - 'A' + 'a' else c
  }

  predicate IsDecimal(c: char) { '0' <= c <= '9' }

  predicate IsHex(c: char) { IsDecimal(c) || 'a' <= Lower(c) <= 'f' }

  /** The weight of a hexadecimal digit. */
  function Weight(c: char): (w: nat)
    requires IsHex(c)
    ensures w < 16
    ensures IsDecimal(c) ==> w < 10
  {
    if IsDecimal(c) then (c - '0') as nat else (Lower(c) - 'a') as nat + 10
  }

  function Digit(d: nat): (c: char)
    requires d < 16
    ensures IsHex(c) && Weight(c) == d
    ensures d < 10 ==> IsDecimal(c)
  {
    if d < 10 then '0' + d as char else 'a' + (d - 10) as char
  }

  /** Weights are indices into the parser's digit table, for either case of a letter. */
  lemma WeightIsTableIndex(c: char)
    requires IsHex(c)
    ensures "0123456789abcdef"[Weight(c)] == Lower(c)
  {
    assert "0123456789abcdef"[Weight(c)] == Digit(Weight(c));
  }

  /** Lower-casing first, as the parser does, changes neither hexadecimal digits nor separators. */
  lemma LowerKeeps(c: char)
    ensures IsHex(Lower(c)) <==> IsHex(c)
    ensures IsHex(c) ==> Weight(Lower(c)) == Weight(c)
    ensures Lower(c) == ':' <==> c == ':'
    ensures Lower(c) == '.' <==> c == '.'
    ensures c == ':' || c == '.' ==> !IsHex(c)
  {}

  /** The digits of n without leading zeros, most significant first. */
  function Numeral(n: nat, base: Base): (s: string)
    ensures s != ""
    ensures forall c :: c in s ==> IsHex(c)
    ensures base == 10 ==> forall c :: c in s ==> IsDecimal(c)
  {
    if n < base then [Digit(n)] else Numeral(n / base, base) + [Digit(n % base)]
  }

  predicate IsHexText(s: string) { forall c :: c in s ==> IsHex(c) }

  /** Horner evaluation of a string of hexadecimal digits. */
  function Value(s: string, base: nat): nat
    requires IsHexText(s)
  {
    if s == "" then 0
    else
      assert forall c :: c in s[..|s| - 1] ==> c in s;
      Value(s[..|s| - 1], base) * base + Weight(s[|s| - 1])
  }

  lemma {:induction false} ValueOfNumeral(n: nat, base: Base)
    ensures Value(Numeral(n, base), base) == n
    decreases n
  {
    if n >= base {
      var q, r := n / base, n % base;
      DivMod(n, base);
      ValueOfNumeral(q, base);
      assert Numeral(n, base) == Numeral(q, base) + [Digit(r)];
      ValueSnoc(Numeral(q, base), Digit(r), base);
      assert Value(Numeral(n, base), base) == q * base + r;
    } else {
      ValueSnoc("", Digit(n), base);
    }
  }

  lemma DivMod(n: nat, d: nat)
    requires d >= 2
    ensures (n / d) * d + n % d == n
    ensures n >= d ==> n / d < n
  {}

  lemma ValueSnoc(s: string, c: char, base: nat)
    requires IsHex(c) && IsHexText(s)
    ensures Value(s + [c], base) == Value(s, base) * base + Weight(c)
  {
    assert (s + [c])[..|s|] == s;
  }

  /** A numeral has at most k digits exactly when the number is below base^k. */
  lemma {:induction false} NumeralLength(n: nat, base: Base, k: nat)
    requires 1 <= k
    ensures |Numeral(n, base)| <= k <==> n < Power(base, k)
  {
    if k == 1 {
      assert Power(base, 1) == base by { assert Power(base, 0) == 1; }
      if n >= base { assert |Numeral(n, base)| == |Numeral(n / base, base)| + 1; }
    } else if n < base {
      PowerAtLeast(base, k);
    } else {
      NumeralLength(n / base, base, k - 1);
      DivLess(n, base, Power(base, k - 1));
    }
  }

  lemma {:induction false} PowerAtLeast(base: nat, k: nat)
    requires 2 <= base && 1 <= k
    ensures Power(base, k) >= base
  {
    if k > 1 {
      PowerAtLeast(base, k - 1);
      assert Power(base, k - 1) * base >= base * base by { MulMono(base, Power(base, k - 1), base); }
    } else {
      assert Power(base, 0) == 1;
    }
  }

  lemma MulMono(x: nat, y: nat, z: nat)
    requires x <= y
    ensures x * z <= y * z
  {}

  lemma DivLess(n: nat, d: nat, p: nat)
    requires d > 0
    ensures n / d < p <==> n < p * d
  {
    var q, r := n / d, n % d;
    assert n == q * d + r;
    if q < p {
      MulMono(q + 1, p, d);
      assert (q + 1) * d == q * d + d;
    } else {
      MulMono(p, q, d);
    }
  }
}
