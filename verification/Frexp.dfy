/**
  gnulib/frexp.c and gnulib/printf-frexp.c: exponent extraction by repeated
  squaring up and binary descent, over exact reals.
 */
module Frexp {
  import opened Bits
  import opened Powers

  /** 2^e, for exponents of either sign. */
  function Exp2(e: int): (r: real)
    ensures r > 0.0
    decreases if e < 0 then -e else e
  {
    if e == 0 then 1.0 else if e > 0 then 2.0 * Exp2(e - 1) else 0.5 * Exp2(e + 1)
  }

  lemma Exp2Step(e: int)
    ensures Exp2(e + 1) == 2.0 * Exp2(e)
  {}

  ghost predicate AddsAt(a: int, b: int) { Exp2(a + b) == Exp2(a) * Exp2(b) }

  lemma {:induction false} Exp2Adds(a: int, b: int)
    ensures AddsAt(a, b)
    decreases if b < 0 then -b else b
  {
    assert AddsAt(a, 0) by { assert Exp2(0) == 1.0; }
    hide AddsAt;
    if b > 0 {
      Exp2Adds(a, b - 1);
      AddsStep(a, b - 1);
    } else if b < 0 {
      Exp2Adds(a, b + 1);
      AddsStep(a, b);
    }
  }

  lemma AddsStep(a: int, b: int)
    ensures AddsAt(a, b) <==> AddsAt(a, b + 1)
  {
    Exp2Step(a + b);
    Exp2Step(b);
    hide Exp2;
    Doubled(Exp2(a), Exp2(b), Exp2(a + b), Exp2(b + 1), Exp2(a + (b + 1)));
  }

  lemma Exp2Add(a: int, b: int)
    ensures Exp2(a + b) == Exp2(a) * Exp2(b)
  {
    hide Exp2;
    Exp2Adds(a, b);
  }

  lemma Doubled(x: real, y: real, z: real, y': real, z': real)
    requires y' == 2.0 * y && z' == 2.0 * z
    ensures z == x * y <==> z' == x * y'
  {}

  lemma Assoc(x: real, y: real, z: real)
    ensures x * (y * z) == y * (x * z) && x * (y * z) == (x * y) * z
  {}

  lemma {:induction false} Exp2Mono(a: int, b: int)
    requires a < b
    ensures 2.0 * Exp2(a) <= Exp2(b)
    decreases b - a
  {
    Exp2Step(b - 1);
    if a < b - 1 { Exp2Mono(a, b - 1); }
  }

  /** Moving 2^k from the fraction to the exponent keeps the value. */
  lemma Rescale(x: real, e: int, k: int)
    ensures (x * Exp2(k)) * Exp2(e - k) == x * Exp2(e)
  {
    hide Exp2;
    Exp2Add(k, e - k);
    Assoc(x, Exp2(k), Exp2(e - k));
  }

  lemma ScaleBounds(x: real, a: int, k: int)
    ensures x < Exp2(a) <==> x * Exp2(k) < Exp2(a + k)
  {
    hide Exp2;
    Exp2Add(a, k);
    MulLess(x, Exp2(a), Exp2(k));
  }

  lemma MulLess(x: real, y: real, p: real)
    requires p > 0.0
    ensures x < y <==> x * p < y * p
  {
    if x < y {
      assert (y - x) * p > 0.0;
    } else {
      assert (x - y) * p >= 0.0;
    }
  }

  /** 1 << i as an int. */
  function Shift1(i: nat): int { Pow2(i) }

  /** The range of the exponents that an int can hold comfortably; it covers double and long double. */
  const RANGE := 0x4000_0000

  lemma RangeIsPow2()
    ensures Pow2(30) == RANGE
  {
    assert Pow2(10) == 1024;
    Pow2Add(10, 10);
    Pow2Add(20, 10);
  }

  ghost predicate InRange(x: real) { Exp2(-RANGE) <= x < Exp2(RANGE) }

  // ------------------------------------------------- what the two functions promise

  ghost predicate IsFrexp(x: real, m: real, e: int) { 0.5 <= m < 1.0 && m * Exp2(e) == x }

  /** The pair that hexadecimal output wants: one binary digit before the point, unless x is too small. */
  ghost predicate IsPrintfFrexp(x: real, minExp: int, m: real, e: int) {
    0.0 < m < 2.0 && m * Exp2(e) == x && minExp - 1 <= e && (m < 1.0 ==> e == minExp - 1)
  }

  lemma FrexpUnique(x: real, m: real, e: int, n: real, f: int)
    requires IsFrexp(x, m, e) && IsFrexp(x, n, f)
    ensures m == n && e == f
  {
    hide Exp2;
    if e < f { SmallerExponent(m, e, n, f); }
    if f < e { SmallerExponent(n, f, m, e); }
    Cancel(m, n, Exp2(e));
  }

  lemma SmallerExponent(m: real, e: int, n: real, f: int)
    requires 0.0 < m && 0.0 < n && e < f && m * Exp2(e) == n * Exp2(f)
    ensures m >= 2.0 * n
  {
    hide Exp2;
    Exp2Mono(e, f);
    LargerScale(m, Exp2(e), n, Exp2(f));
  }

  lemma LargerScale(m: real, p: real, n: real, q: real)
    requires 0.0 < m && 0.0 < n && 0.0 < p && 2.0 * p <= q && m * p == n * q
    ensures m >= 2.0 * n
  {
    MulLess(q, 2.0 * p, n);
    MulLess(m, 2.0 * n, p);
    assert q * n >= (2.0 * p) * n;
    assert m * p >= (2.0 * n) * p;
  }

  lemma Cancel(m: real, n: real, p: real)
    requires p > 0.0 && m * p == n * p
    ensures m == n
  {
    MulLess(m, n, p);
    MulLess(n, m, p);
  }

  /** The digit before the point is 1 exactly if x is at least the least normal number. */
  lemma PrintfFrexpNormal(x: real, minExp: int, m: real, e: int)
    requires IsPrintfFrexp(x, minExp, m, e)
    ensures x == m * Exp2(e) && 0.0 < m < 2.0
    ensures Exp2(minExp - 1) <= x <==> 1.0 <= m
    ensures x < Exp2(minExp - 1) ==> e == minExp - 1
  {
    hide Exp2;
    assert Exp2(0) == 1.0 by { OneIsExp2(); }
    ScaleBounds(m, 0, e);
    if minExp - 1 < e { Exp2Mono(minExp - 1, e); }
  }

  lemma OneIsExp2()
    ensures Exp2(0) == 1.0 && Exp2(1) == 2.0 && Exp2(-1) == 0.5
  {
    assert Exp2(0) == 1.0;
  }

  /** The number 1, in both conventions: 0.5 * 2^1 and 1.0 * 2^0. */
  lemma OneIsSplit(minExp: int, m: real, e: int)
    requires minExp <= 1
    ensures IsFrexp(1.0, m, e) ==> m == 0.5 && e == 1
    ensures IsPrintfFrexp(1.0, minExp, m, e) ==> m == 1.0 && e == 0
  {
    hide Exp2;
    OneIsExp2();
    if IsFrexp(1.0, m, e) { FrexpUnique(1.0, m, e, 0.5, 1); }
    if IsPrintfFrexp(1.0, minExp, m, e) { PrintfFrexpUnique(1.0, minExp, m, e, 1.0, 0); }
  }

  /** So the two forms of printf_frexp, which both meet the predicate, agree on every x. */
  lemma PrintfFrexpUnique(x: real, minExp: int, m: real, e: int, n: real, f: int)
    requires IsPrintfFrexp(x, minExp, m, e) && IsPrintfFrexp(x, minExp, n, f)
    ensures m == n && e == f
  {
    hide Exp2;
    if e < f { SmallerExponent(m, e, n, f); }
    if f < e { SmallerExponent(n, f, m, e); }
    Cancel(m, n, Exp2(e));
  }

  // ------------------------------------------------- steps of the loops

  /** The loops' main invariant: x * 2^exponent = argument. */
  ghost predicate Splits(arg: real, x: real, exponent: int) { x * Exp2(exponent) == arg }

  lemma SplitsStart(x: real)
    ensures Splits(x, x, 0)
  {
    assert Exp2(0) == 1.0;
  }

  /** Multiplying x by 2^k and lowering the exponent by k keeps the invariant and shifts all bounds. */
  lemma Scaled(arg: real, x: real, exponent: int, k: int, p: real, y: real)
    requires p == Exp2(k) && y == x * p && Splits(arg, x, exponent)
    ensures Splits(arg, y, exponent - k)
  {
    hide Exp2;
    Rescale(x, exponent, k);
  }

  lemma ScaledBound(x: real, a: int, k: int, p: real, y: real)
    requires p == Exp2(k) && y == x * p
    ensures x < Exp2(a) <==> y < Exp2(a + k)
  {
    hide Exp2;
    ScaleBounds(x, a, k);
  }

  lemma Squared(i: nat, pow2: real, powh: real, nextPow2: real, nextPowh: real)
    requires pow2 == Exp2(Shift1(i)) && powh == Exp2(-Shift1(i))
    requires nextPow2 == pow2 * pow2 && nextPowh == powh * powh
    ensures nextPow2 == Exp2(Shift1(i + 1)) && nextPowh == Exp2(-Shift1(i + 1))
  {
    hide Exp2;
    Exp2Add(Shift1(i), Shift1(i));
    Exp2Add(-Shift1(i), -Shift1(i));
  }

  lemma SmallPowers()
    ensures Exp2(0) == 1.0 && Exp2(1) == 2.0 && Exp2(-1) == 0.5 && Shift1(0) == 1
  {
    assert Exp2(0) == 1.0;
  }

  lemma ShiftNext(i: nat)
    ensures 1 <= Shift1(i) && Shift1(i + 1) == 2 * Shift1(i)
  {}

  lemma Exp2Less(a: int, b: int)
    ensures Exp2(a) < Exp2(b) <==> a < b
  {
    hide Exp2;
    if a < b { Exp2Mono(a, b); }
    if b < a { Exp2Mono(b, a); }
  }

  /** Squaring up stops in time: at most 31 slots are filled, and 1 << i fits an int. */
  lemma SlotBoundUp(arg: real, x: real, i: nat)
    requires arg < Exp2(RANGE) && Splits(arg, x, Shift1(i) - 1) && 1.0 <= x
    ensures i <= 30
  {
    hide Exp2;
    SmallPowers();
    Exp2Add(0, Pow2(i) - 1);
    MulLess(x, 1.0, Exp2(Shift1(i) - 1));
    Exp2Less(Pow2(i) - 1, RANGE);
    RangeIsPow2();
    if i > 30 { Pow2Less(30, i); }
  }

  lemma SlotBoundDown(arg: real, x: real, i: nat)
    requires Exp2(-RANGE) <= arg && Splits(arg, x, 1 - Shift1(i)) && x < 1.0
    ensures i <= 30
  {
    hide Exp2;
    SmallPowers();
    Exp2Add(0, 1 - Pow2(i));
    MulLess(x, 1.0, Exp2(1 - Pow2(i)));
    Exp2Less(-RANGE, 1 - Pow2(i));
    RangeIsPow2();
    if i > 30 { Pow2Less(30, i); }
  }

  /** The slots filled so far. */
  ghost predicate Filled(pow2: seq<real>, powh: seq<real>, n: int) {
    && n <= |pow2| && n <= |powh|
    && forall j :: 0 <= j < n ==> pow2[j] == Exp2(Shift1(j)) && powh[j] == Exp2(-Shift1(j))
  }

  // ------------------------------------------------- frexp

  /** The upward loop of both functions, for x >= 1: x ends below 2^2^i, with slots 0..i filled. */
  method SquareUp(arg: real, pow2: array<real>, powh: array<real>)
    returns (x: real, exponent: int, i: nat, powhI: real)
    requires pow2.Length == powh.Length == 64 && pow2 != powh && 1.0 <= arg < Exp2(RANGE)
    modifies pow2, powh
    ensures i <= 30 && Filled(pow2[..], powh[..], i) && powhI == Exp2(-Shift1(i))
    ensures Splits(arg, x, exponent) && 1.0 <= x < Exp2(Shift1(i)) && exponent == Shift1(i) - 1
  {
    hide Exp2, Splits, Shift1;
    SmallPowers();
    SplitsStart(arg);
    x, exponent, i := arg, 0, 0;
    var pow2I;
    pow2I, powhI := 2.0, 0.5;
    while true
      invariant i <= 30 && Filled(pow2[..], powh[..], i)
      invariant pow2I == Exp2(Shift1(i)) && powhI == Exp2(-Shift1(i))
      invariant Splits(arg, x, exponent) && 1.0 <= x && exponent == Shift1(i) - 1
      decreases 31 - i
    {
      ShiftNext(i);
      if x >= pow2I {
        var y := x * powhI;
        Scaled(arg, x, exponent, -Shift1(i), powhI, y);
        ScaledBound(x, Shift1(i), -Shift1(i), powhI, y);
        exponent, x := exponent + Shift1(i), y;
        SlotBoundUp(arg, x, i + 1);
      } else {
        break;
      }
      pow2[i] := pow2I;
      powh[i] := powhI;
      var nextPow2, nextPowh := pow2I * pow2I, powhI * powhI;
      Squared(i, pow2I, powhI, nextPow2, nextPowh);
      i, pow2I, powhI := i + 1, nextPow2, nextPowh;
    }
  }

  /** The downward loop of frexp, for x < 1: it ends with 2^-2^i <= x < 1. */
  method SquareDown(arg: real, pow2: array<real>, powh: array<real>) returns (x: real, exponent: int, i: nat)
    requires pow2.Length == powh.Length == 64 && pow2 != powh && Exp2(-RANGE) <= arg < 1.0
    modifies pow2, powh
    ensures i <= 30 && Filled(pow2[..], powh[..], i)
    ensures Splits(arg, x, exponent) && Exp2(-Shift1(i)) <= x < 1.0
  {
    hide Exp2, Splits, Shift1;
    SmallPowers();
    SplitsStart(arg);
    x, exponent, i := arg, 0, 0;
    var pow2I, powhI := 2.0, 0.5;
    while true
      invariant i <= 30 && Filled(pow2[..], powh[..], i)
      invariant pow2I == Exp2(Shift1(i)) && powhI == Exp2(-Shift1(i))
      invariant Splits(arg, x, exponent) && x < 1.0 && exponent == 1 - Shift1(i)
      decreases 31 - i
    {
      ShiftNext(i);
      if x < powhI {
        var y := x * pow2I;
        Scaled(arg, x, exponent, Shift1(i), pow2I, y);
        ScaledBound(x, -Shift1(i), Shift1(i), pow2I, y);
        exponent, x := exponent - Shift1(i), y;
        SlotBoundDown(arg, x, i + 1);
      } else {
        break;
      }
      pow2[i] := pow2I;
      powh[i] := powhI;
      var nextPow2, nextPowh := pow2I * pow2I, powhI * powhI;
      Squared(i, pow2I, powhI, nextPow2, nextPowh);
      i, pow2I, powhI := i + 1, nextPow2, nextPowh;
    }
  }

  /** frexp of a positive number. */
  method FrexpPositive(arg: real) returns (m: real, e: int)
    requires InRange(arg)
    ensures IsFrexp(arg, m, e)
  {
    hide Exp2, Splits, Shift1;
    SmallPowers();
    var pow2, powh := new real[64], new real[64];
    var x, exponent;
    var i: nat;
    if arg >= 1.0 {
      var powhI;
      x, exponent, i, powhI := SquareUp(arg, pow2, powh);
      while i > 0 && x < pow2[i - 1]
        invariant i <= 30 && Filled(pow2[..], powh[..], i)
        invariant powhI == Exp2(-Shift1(i)) && 1.0 <= x < Exp2(Shift1(i))
      {
        i := i - 1;
        powhI := powh[i];
      }
      var y := x * powhI;
      Scaled(arg, x, exponent, -Shift1(i), powhI, y);
      ScaledBound(x, Shift1(i), -Shift1(i), powhI, y);
      ScaledBound(x, 0, -Shift1(i), powhI, y);
      exponent, x := exponent + Shift1(i), y;
    } else {
      x, exponent, i := SquareDown(arg, pow2, powh);
    }
    m, e := DescendBelowOne(arg, x, exponent, i, pow2, powh);
  }

  /** The final descent of frexp, from 2^-2^i <= x < 1. */
  method DescendBelowOne(arg: real, x0: real, exponent0: int, i0: nat, pow2: array<real>, powh: array<real>)
    returns (x: real, exponent: int)
    requires i0 <= 30 && Filled(pow2[..], powh[..], i0)
    requires Splits(arg, x0, exponent0) && Exp2(-Shift1(i0)) <= x0 < 1.0
    ensures IsFrexp(arg, x, exponent)
  {
    hide Exp2, Splits, Shift1;
    SmallPowers();
    var i: nat := i0;
    x, exponent := x0, exponent0;
    while i > 0
      invariant i <= i0
      invariant Splits(arg, x, exponent) && Exp2(-Shift1(i)) <= x < 1.0
    {
      i := i - 1;
      ShiftNext(i);
      if x < powh[i] {
        var y := x * pow2[i];
        Scaled(arg, x, exponent, Shift1(i), pow2[i], y);
        ScaledBound(x, -Shift1(i), Shift1(i), pow2[i], y);
        ScaledBound(x, -Shift1(i + 1), Shift1(i), pow2[i], y);
        exponent, x := exponent - Shift1(i), y;
      }
    }
    SplitsMeaning(arg, x, exponent);
  }

  lemma SplitsMeaning(arg: real, x: real, exponent: int)
    requires Splits(arg, x, exponent)
    ensures x * Exp2(exponent) == arg
  {}

  /** frexp: zero, which is its own double, comes back unchanged, and the sign goes with the fraction. */
  method Frexp(arg: real) returns (m: real, e: int)
    requires arg == 0.0 || InRange(arg) || InRange(-arg)
    ensures m * Exp2(e) == arg
    ensures if arg == 0.0 then m == 0.0 && e == 0
            else if arg > 0.0 then IsFrexp(arg, m, e) else IsFrexp(-arg, -m, e)
  {
    hide Exp2;
    SmallPowers();
    var x := arg;
    if x + x == x {
      return x, 0;
    }
    var sign := 0;
    if x < 0.0 {
      x, sign := -x, -1;
    }
    m, e := FrexpPositive(x);
    if sign < 0 {
      NegateProduct(m, Exp2(e));
      m := -m;
    }
  }

  lemma NegateProduct(x: real, y: real)
    ensures (-x) * y == -(x * y)
  {}

  // ------------------------------------------------- printf_frexp

  /** ldexp of the C library, exact. */
  function Ldexp(x: real, k: int): real { x * Exp2(k) }

  /** The form that uses frexp and ldexp. */
  method PrintfFrexpByLibrary(arg: real, minExp: int) returns (m: real, e: int)
    requires InRange(arg) && -RANGE / 2 <= minExp <= 0
    ensures IsPrintfFrexp(arg, minExp, m, e)
  {
    hide Exp2;
    SmallPowers();
    var x, exponent := FrexpPositive(arg);
    Scaled(arg, x, exponent, 1, 2.0, x + x) by { assert Splits(arg, x, exponent); }
    x := x + x;
    exponent := exponent - 1;
    SplitsMeaning(arg, x, exponent);
    if exponent < minExp - 1 {
      ghost var k := exponent - (minExp - 1);
      LdexpShrinks(x, k);
      Scaled(arg, x, exponent, k, Exp2(k), Ldexp(x, k));
      x := Ldexp(x, exponent - (minExp - 1));
      exponent := minExp - 1;
      SplitsMeaning(arg, x, exponent);
    }
    return x, exponent;
  }

  lemma LdexpShrinks(x: real, k: int)
    requires 0.0 < x < 2.0 && k < 0
    ensures 0.0 < Ldexp(x, k) < 1.0
  {
    hide Exp2;
    SmallPowers();
    ScaledBound(x, 1, k, Exp2(k), Ldexp(x, k));
    Exp2Less(0, 1 + k);
    MulPositive(x, Exp2(k));
  }

  lemma MulPositive(x: real, y: real)
    requires x > 0.0 && y > 0.0
    ensures x * y > 0.0
  {}

  /**
    The downward loop of the other form, for x < 1, which never lets the
    exponent drop below minExp - 1.
   */
  method SquareDownTo(arg: real, minExp: int, pow2: array<real>, powh: array<real>)
    returns (x: real, exponent: int, i: nat)
    requires pow2.Length == powh.Length == 64 && pow2 != powh
    requires InRange(arg) && arg < 1.0 && -RANGE / 2 <= minExp <= 0
    modifies pow2, powh
    ensures i <= 30 && Filled(pow2[..], powh[..], i)
    ensures Splits(arg, x, exponent) && minExp - 1 <= exponent && x < Exp2(Shift1(i))
    ensures x < 1.0 ==> exponent - Shift1(i) < minExp - 1
  {
    hide Exp2, Splits, Shift1;
    SmallPowers();
    SplitsStart(arg);
    x, exponent, i := arg, 0, 0;
    var pow2I, powhI := 2.0, 0.5;
    while true
      invariant i <= 30 && Filled(pow2[..], powh[..], i)
      invariant pow2I == Exp2(Shift1(i)) && powhI == Exp2(-Shift1(i))
      invariant Splits(arg, x, exponent) && x < 1.0 && minExp - 1 <= exponent == 1 - Shift1(i)
      decreases 31 - i
    {
      ShiftNext(i);
      Exp2Less(0, Shift1(i));
      if exponent - Shift1(i) < minExp - 1 {
        break;
      }
      var y := x * pow2I;
      Scaled(arg, x, exponent, Shift1(i), pow2I, y);
      ScaledBound(x, 0, Shift1(i), pow2I, y);
      exponent, x := exponent - Shift1(i), y;
      if x >= 1.0 {
        break;
      }
      SlotBoundDown(arg, x, i + 1);
      pow2[i] := pow2I;
      powh[i] := powhI;
      var nextPow2, nextPowh := pow2I * pow2I, powhI * powhI;
      Squared(i, pow2I, powhI, nextPow2, nextPowh);
      i, pow2I, powhI := i + 1, nextPow2, nextPowh;
    }
  }

  /** The descent towards minExp - 1, while x < 1. */
  method DescendTo(arg: real, minExp: int, x0: real, exponent0: int, i0: nat, pow2: array<real>, powh: array<real>)
    returns (x: real, exponent: int, i: nat)
    requires i0 <= 30 && Filled(pow2[..], powh[..], i0)
    requires Splits(arg, x0, exponent0) && x0 < 1.0 && exponent0 - Shift1(i0) < minExp - 1 <= exponent0
    ensures i <= i0 && Splits(arg, x, exponent) && minExp - 1 <= exponent && x < Exp2(Shift1(i))
    ensures x < 1.0 ==> exponent == minExp - 1 && i == 0
  {
    hide Exp2, Splits, Shift1;
    SmallPowers();
    x, exponent, i := x0, exponent0, i0;
    while i > 0
      invariant i <= i0
      invariant Splits(arg, x, exponent) && x < 1.0 && exponent - Shift1(i) < minExp - 1 <= exponent
    {
      i := i - 1;
      ShiftNext(i);
      if exponent - Shift1(i) >= minExp - 1 {
        var y := x * pow2[i];
        Scaled(arg, x, exponent, Shift1(i), pow2[i], y);
        ScaledBound(x, 0, Shift1(i), pow2[i], y);
        exponent, x := exponent - Shift1(i), y;
        if x >= 1.0 {
          break;
        }
      }
    }
  }

  /** The last loop, which brings a fraction of at least 1 below 2. */
  method DescendBelowTwo(arg: real, minExp: int, x0: real, exponent0: int, i0: nat,
                         pow2: array<real>, powh: array<real>)
    returns (x: real, exponent: int)
    requires i0 <= 30 && Filled(pow2[..], powh[..], i0)
    requires Splits(arg, x0, exponent0) && minExp - 1 <= exponent0 && x0 < Exp2(Shift1(i0))
    requires 0.0 < arg && (x0 < 1.0 ==> exponent0 == minExp - 1 && i0 == 0)
    ensures IsPrintfFrexp(arg, minExp, x, exponent)
  {
    hide Exp2, Splits, Shift1;
    SmallPowers();
    var i: nat := i0;
    x, exponent := x0, exponent0;
    while i > 0
      invariant i <= i0
      invariant Splits(arg, x, exponent) && minExp - 1 <= exponent && x < Exp2(Shift1(i))
      invariant x < 1.0 ==> exponent == minExp - 1 && i == 0
    {
      i := i - 1;
      ShiftNext(i);
      if x >= pow2[i] {
        var y := x * powh[i];
        Scaled(arg, x, exponent, -Shift1(i), powh[i], y);
        ScaledBound(x, Shift1(i), -Shift1(i), powh[i], y);
        ScaledBound(x, Shift1(i + 1), -Shift1(i), powh[i], y);
        exponent, x := exponent + Shift1(i), y;
      }
    }
    SplitsMeaning(arg, x, exponent);
    PositiveFraction(x, Exp2(exponent));
  }

  lemma PositiveFraction(x: real, p: real)
    requires p > 0.0 && x * p > 0.0
    ensures x > 0.0
  {
    MulLess(0.0, x, p);
    assert 0.0 * p == 0.0;
  }

  /** The form with the loops. */
  method PrintfFrexpByLoops(arg: real, minExp: int) returns (m: real, e: int)
    requires InRange(arg) && -RANGE / 2 <= minExp <= 0
    ensures IsPrintfFrexp(arg, minExp, m, e)
  {
    hide Exp2, Splits, Shift1;
    SmallPowers();
    var pow2, powh := new real[64], new real[64];
    var x, exponent;
    var i: nat;
    if arg >= 1.0 {
      var powhI;
      x, exponent, i, powhI := SquareUp(arg, pow2, powh);
      ShiftNext(i);
    } else {
      x, exponent, i := SquareDownTo(arg, minExp, pow2, powh);
      if x < 1.0 {
        x, exponent, i := DescendTo(arg, minExp, x, exponent, i, pow2, powh);
      }
    }
    m, e := DescendBelowTwo(arg, minExp, x, exponent, i, pow2, powh);
  }
}
