/**
  The bitwise operators of C on unsigned integers of any width, as functions on
  natural numbers.
 */
module Bits {
  import opened Powers

  lemma {:induction false} Pow2Add(j: nat, k: nat)
    ensures Pow2(j + k) == Pow2(j) * Pow2(k)
  {
    if k > 0 {
      Pow2Add(j, k - 1);
      TwiceInside(Pow2(j), Pow2(k - 1));
    }
  }

  lemma TwiceInside(x: nat, y: nat)
    ensures x * (2 * y) == 2 * (x * y)
  {}

  lemma {:induction false} Pow2Less(i: nat, j: nat)
    requires i < j
    ensures Pow2(i) < Pow2(j)
    decreases j - i
  {
    if i < j - 1 { Pow2Less(i, j - 1); }
  }

  /** Bit i of x, counting from the least significant. */
  predicate Bit(x: nat, i: nat) {
    if i == 0 then x % 2 == 1 else Bit(x / 2, i - 1)
  }

  /** (x >> i) & 1 */
  lemma {:induction false} BitMeans(x: nat, i: nat)
    ensures Bit(x, i) <==> x / Pow2(i) % 2 == 1
    decreases i
  {
    if i > 0 {
      BitMeans(x / 2, i - 1);
      DivTwice(x, Pow2(i - 1));
    }
  }

  lemma DivTwice(x: nat, p: nat)
    requires 0 < p
    ensures x / 2 / p == x / (2 * p)
  {
    var q := x / (2 * p);
    var r := x % (2 * p);
    assert x == q * (2 * p) + r;
    assert q * (2 * p) == 2 * (q * p);
    assert x / 2 == q * p + r / 2;
    DivExact(x / 2, p, q, r / 2);
  }

  lemma DivExact(x: nat, p: nat, q: nat, r: nat)
    requires 0 < p && x == q * p + r && r < p
    ensures x / p == q
  {
    if x / p > q { assert (x / p) * p >= (q + 1) * p by { Multiples(q + 1, x / p, p); } }
    if x / p < q { assert (x / p + 1) * p <= q * p by { Multiples(x / p + 1, q, p); } }
  }

  lemma Multiples(a: nat, b: nat, p: nat)
    requires a <= b
    ensures a * p <= b * p
  {}

  function And(x: nat, y: nat): nat {
    if x == 0 || y == 0 then 0
    else (if x % 2 == 1 && y % 2 == 1 then 1 else 0) + 2 * And(x / 2, y / 2)
  }

  function Or(x: nat, y: nat): nat {
    if x == 0 then y else if y == 0 then x
    else (if x % 2 == 1 || y % 2 == 1 then 1 else 0) + 2 * Or(x / 2, y / 2)
  }

  function Xor(x: nat, y: nat): nat
    decreases x + y
  {
    if x == 0 then y else if y == 0 then x
    else (if x % 2 != y % 2 then 1 else 0) + 2 * Xor(x / 2, y / 2)
  }

  /** x & ~y */
  function AndNot(x: nat, y: nat): nat {
    if x == 0 then 0
    else (if x % 2 == 1 && y % 2 == 0 then 1 else 0) + 2 * AndNot(x / 2, y / 2)
  }

  // ------------------------------------------------- the bits of the results

  lemma {:induction false} BitZero(i: nat)
    ensures !Bit(0, i)
  {
    if i > 0 { BitZero(i - 1); }
  }

  lemma OrHalf(x: nat, y: nat)
    ensures Or(x, y) / 2 == Or(x / 2, y / 2) && (Bit(Or(x, y), 0) <==> (Bit(x, 0) || Bit(y, 0)))
  {}

  lemma {:induction false} BitOr(x: nat, y: nat, i: nat)
    ensures Bit(Or(x, y), i) <==> Bit(x, i) || Bit(y, i)
    decreases i
  {
    hide Or;
    OrHalf(x, y);
    if i > 0 { BitOr(x / 2, y / 2, i - 1); }
  }

  lemma AndNotHalf(x: nat, y: nat)
    ensures AndNot(x, y) / 2 == AndNot(x / 2, y / 2) && (Bit(AndNot(x, y), 0) <==> Bit(x, 0) && !Bit(y, 0))
  {}

  lemma {:induction false} AndNotBound(x: nat, y: nat)
    ensures AndNot(x, y) <= x
  {
    if x != 0 { AndNotBound(x / 2, y / 2); }
  }

  lemma {:induction false} BitAndNot(x: nat, y: nat, i: nat)
    ensures Bit(AndNot(x, y), i) <==> Bit(x, i) && !Bit(y, i)
    decreases i
  {
    hide AndNot;
    AndNotHalf(x, y);
    if i > 0 { BitAndNot(x / 2, y / 2, i - 1); }
  }

  lemma {:induction false} BitPow2(k: nat, i: nat)
    ensures Bit(Pow2(k), i) <==> i == k
    decreases i
  {
    if k == 0 {
      if i > 0 { BitZero(i - 1); }
    } else if i > 0 {
      BitPow2(k - 1, i - 1);
    }
  }

  lemma {:induction false} XorZero(x: nat, y: nat)
    ensures Xor(x, y) == 0 <==> x == y
    decreases x + y
  {
    if x != 0 && y != 0 { XorZero(x / 2, y / 2); }
  }

  lemma {:induction false} OrSelf(x: nat)
    ensures Or(x, x) == x && Or(x, 0) == x && Or(0, x) == x
  {
    if x != 0 { OrSelf(x / 2); }
  }

  // ------------------------------------------------- sizes, and the top bit

  lemma {:induction false} AndBound(x: nat, y: nat)
    ensures And(x, y) <= x && And(x, y) <= y
  {
    if x != 0 && y != 0 { AndBound(x / 2, y / 2); }
  }

  lemma {:induction false} OrBound(x: nat, y: nat, k: nat)
    requires x < Pow2(k) && y < Pow2(k)
    ensures Or(x, y) < Pow2(k)
    decreases k
  {
    if x != 0 && y != 0 { OrBound(x / 2, y / 2, k - 1); }
  }

  lemma {:induction false} XorBound(x: nat, y: nat, k: nat)
    requires x < Pow2(k) && y < Pow2(k)
    ensures Xor(x, y) < Pow2(k)
    decreases k
  {
    if x != 0 && y != 0 { XorBound(x / 2, y / 2, k - 1); }
  }

  /** In numbers of k + 1 bits, bit k is the comparison with 2^k. */
  lemma {:induction false} AndTop(x: nat, y: nat, k: nat)
    requires x < Pow2(k + 1) && y < Pow2(k + 1)
    ensures And(x, y) >= Pow2(k) <==> x >= Pow2(k) && y >= Pow2(k)
    decreases k
  {
    if x == 0 || y == 0 {
    } else if k == 0 {
      assert Pow2(1) == 2;
      assert x == 1 && y == 1;
    } else {
      AndTop(x / 2, y / 2, k - 1);
    }
  }

  /** A mask of the top bit alone leaves nothing, or that bit. */
  lemma {:induction false} AndTopOnly(x: nat, k: nat)
    ensures And(x, Pow2(k)) == 0 || And(x, Pow2(k)) == Pow2(k)
    decreases k
  {
    if x != 0 && k > 0 { AndTopOnly(x / 2, k - 1); }
  }
}
