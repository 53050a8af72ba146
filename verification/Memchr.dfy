/**
  gnulib/memchr.c: searching a word at a time.

  A word is the sequence of its bytes, least significant first, so the bitwise
  operators act byte by byte, while subtraction and shifts are defined by the
  unsigned value modulo 256^size.  Nothing depends on the size of a word.
 */
module Memchr {
  import Bits
  import opened Powers
  import opened Modular

  type Byte = x: nat | x < 256
  type Word = seq<Byte>

  /** The unsigned value of a word. */
  function Val(w: Word): nat {
    if w == [] then 0 else w[0] + 256 * Val(w[1..])
  }

  /** The word of the given size that holds n modulo 256^size. */
  function OfNat(n: nat, size: nat): (w: Word)
    ensures |w| == size
  {
    if size == 0 then [] else [n % 256] + OfNat(n / 256, size - 1)
  }

  // The C operators on unsigned words.

  function Sub(x: Word, y: Word): (d: Word)
    ensures |d| == |x|
  {
    OfNat((Val(x) - Val(y)) % Power(256, |x|), |x|)
  }

  function Shl(x: Word, k: nat): (w: Word)
    ensures |w| == |x|
  {
    OfNat(Val(x) * Pow2(k) % Power(256, |x|), |x|)
  }

  function AndByte(x: Byte, y: Byte): Byte {
    Bits.AndBound(x, y);
    Bits.And(x, y)
  }

  function OrByte(x: Byte, y: Byte): Byte {
    assert Pow2(8) == 256;
    Bits.OrBound(x, y, 8);
    Bits.Or(x, y)
  }

  function XorByte(x: Byte, y: Byte): Byte {
    assert Pow2(8) == 256;
    Bits.XorBound(x, y, 8);
    Bits.Xor(x, y)
  }

  function And(x: Word, y: Word): Word
    requires |x| == |y|
  {
    seq(|x|, i requires 0 <= i < |x| => AndByte(x[i], y[i]))
  }

  function Or(x: Word, y: Word): (w: Word)
    requires |x| == |y|
    ensures |w| == |x|
  {
    seq(|x|, i requires 0 <= i < |x| => OrByte(x[i], y[i]))
  }

  function Xor(x: Word, y: Word): Word
    requires |x| == |y|
  {
    seq(|x|, i requires 0 <= i < |x| => XorByte(x[i], y[i]))
  }

  function Not(x: Word): Word { seq(|x|, i requires 0 <= i < |x| => 255 - x[i]) }

  function Rep(c: Byte, m: nat, size: nat): (w: Word)
    ensures |w| == size
  {
    seq(size, i => if i < m then c else 0)
  }

  /** The test of the word loop: ((w - 0x01..01) & ~w) & (0x01..01 << 7). */
  function Test(w: Word): Word {
    var ones := Rep(1, |w|, |w|);
    And(And(Sub(w, ones), Not(w)), Shl(ones, 7))
  }

  // ------------------------------------------------- words and their values

  lemma {:induction false} ValBound(w: Word)
    ensures Val(w) < Power(256, |w|)
  {
    if w != [] { ValBound(w[1..]); }
  }

  lemma {:induction false} ValZero(w: Word)
    ensures Val(w) == 0 <==> forall i :: 0 <= i < |w| ==> w[i] == 0
  {
    if w != [] {
      ValZero(w[1..]);
      assert forall i :: 1 <= i < |w| ==> w[i] == w[1..][i - 1];
    }
  }

  lemma {:induction false} OfVal(w: Word)
    ensures OfNat(Val(w), |w|) == w
  {
    if w != [] {
      OfVal(w[1..]);
      var n := Val(w);
      assert n % 256 == w[0] && n / 256 == Val(w[1..]);
      assert w == [w[0]] + w[1..];
    }
  }

  lemma {:induction false} ValOf(n: nat, size: nat)
    ensures Val(OfNat(n, size)) == n % Power(256, size)
  {
    if size > 0 {
      ValOf(n / 256, size - 1);
      assert n == n % 256 + 256 * (n / 256);
      ModLow(n % 256, n / 256, 256, Power(256, size - 1));
      var w := OfNat(n, size);
      assert w[1..] == OfNat(n / 256, size - 1);
    }
  }

  /** Reduction modulo 256^size splits off the low byte. */
  lemma OfNatSplit(r: Byte, k: int, size: nat)
    requires size > 0
    ensures OfNat((r + 256 * k) % Power(256, size), size) == [r] + OfNat(k % Power(256, size - 1), size - 1)
  {
    var m := Power(256, size - 1);
    ModLow(r, k, 256, m);
    var q: nat := k % m;
    assert (r + 256 * q) % 256 == r && (r + 256 * q) / 256 == q;
  }

  lemma RepTail(c: Byte, m: nat, size: nat)
    requires 0 < size && 0 < m
    ensures Rep(c, m, size)[1..] == Rep(c, m - 1, size - 1) && Rep(c, m, size)[0] == c
  {}

  // ------------------------------------------------- the zero-byte test

  /** Below the first zero byte nothing is borrowed, and a zero byte itself becomes 0xff. */
  lemma SubOnes(w: Word)
    requires w != []
    ensures w[0] != 0 ==> Sub(w, Rep(1, |w|, |w|)) == [w[0] - 1] + Sub(w[1..], Rep(1, |w| - 1, |w| - 1))
    ensures w[0] == 0 ==> Sub(w, Rep(1, |w|, |w|))[0] == 255
  {
    hide OfNat, Power, Rep;
    var n := |w|;
    var k := Val(w[1..]) - Val(Rep(1, n - 1, n - 1));
    RepTail(1, n, n);
    assert Val(w) - Val(Rep(1, n, n)) == w[0] - 1 + 256 * k;
    if w[0] != 0 {
      OfNatSplit(w[0] - 1, k, n);
    } else {
      OfNatSplit(255, k - 1, n);
    }
  }

  /** A shift by 7 of 0x01..01 is 0x80..80. */
  lemma HighBits(size: nat)
    ensures Shl(Rep(1, size, size), 7) == Rep(0x80, size, size)
  {
    assert Pow2(7) == 128;
    ValScaled(size);
    var v := Val(Rep(0x80, size, size));
    ValBound(Rep(0x80, size, size));
    ModUnique(v, Power(256, size), 0, v);
    OfVal(Rep(0x80, size, size));
  }

  lemma {:induction false} ValScaled(size: nat)
    ensures Val(Rep(1, size, size)) * 128 == Val(Rep(0x80, size, size))
  {
    if size > 0 {
      ValScaled(size - 1);
      RepTail(1, size, size);
      RepTail(0x80, size, size);
    }
  }

  /** The test on one byte b whose difference is d. */
  function ByteTest(b: Byte, d: Byte): Byte { AndByte(AndByte(d, 255 - b), 0x80) }

  lemma ByteTestMeaning(b: Byte, d: Byte)
    ensures ByteTest(b, d) != 0 <==> d >= 128 && b < 128
  {
    assert Pow2(7) == 128 && Pow2(8) == 256;
    Bits.AndTop(d, 255 - b, 7);
    Bits.AndTop(AndByte(d, 255 - b), 0x80, 7);
    Bits.AndTopOnly(AndByte(d, 255 - b), 7);
  }

  ghost predicate HasZeroByte(w: Word) { exists i :: 0 <= i < |w| && w[i] == 0 }

  ghost predicate IsNonzero(w: Word) { exists i :: 0 <= i < |w| && w[i] != 0 }

  /** The test of w, given the difference d. */
  function Masked(w: Word, d: Word): (t: Word)
    requires |w| == |d|
    ensures |t| == |w|
  {
    And(And(d, Not(w)), Rep(0x80, |w|, |w|))
  }

  lemma MaskedTail(w: Word, d: Word)
    requires |w| == |d| > 0
    ensures Masked(w, d)[0] == ByteTest(w[0], d[0])
    ensures Masked(w, d)[1..] == Masked(w[1..], d[1..])
  {}

  /** The test on the low byte, and what it leaves for the others. */
  lemma MaskedLow(w: Word)
    requires w != []
    ensures var t := Masked(w, Sub(w, Rep(1, |w|, |w|)));
            if w[0] == 0 then t[0] != 0
            else t[0] == 0 && t[1..] == Masked(w[1..], Sub(w[1..], Rep(1, |w| - 1, |w| - 1)))
  {
    hide Sub, Val, OfNat, Masked, ByteTest;
    var d := Sub(w, Rep(1, |w|, |w|));
    SubOnes(w);
    MaskedTail(w, d);
    ByteTestMeaning(w[0], d[0]);
    assert w[0] != 0 ==> d[1..] == Sub(w[1..], Rep(1, |w| - 1, |w| - 1));
  }

  lemma {:induction false} MaskedDetects(w: Word)
    ensures IsNonzero(Masked(w, Sub(w, Rep(1, |w|, |w|)))) <==> HasZeroByte(w)
  {
    hide Sub, Val, OfNat, Masked;
    if w != [] {
      MaskedLow(w);
      if w[0] != 0 {
        MaskedDetects(w[1..]);
        NonzeroTail(Masked(w, Sub(w, Rep(1, |w|, |w|))));
        ZeroTail(w);
      }
    }
  }

  lemma NonzeroTail(t: Word)
    requires t != [] && t[0] == 0
    ensures IsNonzero(t) <==> IsNonzero(t[1..])
  {
    if i :| 0 <= i < |t| && t[i] != 0 { assert t[1..][i - 1] != 0; }
    if i :| 0 <= i < |t[1..]| && t[1..][i] != 0 { assert t[i + 1] != 0; }
  }

  lemma ZeroTail(w: Word)
    requires w != [] && w[0] != 0
    ensures HasZeroByte(w) <==> HasZeroByte(w[1..])
  {
    if i :| 0 <= i < |w| && w[i] == 0 { assert w[1..][i - 1] == 0; }
    if i :| 0 <= i < |w[1..]| && w[1..][i] == 0 { assert w[i + 1] == 0; }
  }

  /** The borrow-propagating test is nonzero exactly when some byte is zero, for words of any size. */
  lemma TestDetectsZeroByte(w: Word)
    ensures Val(Test(w)) != 0 <==> HasZeroByte(w)
  {
    HighBits(|w|);
    MaskedDetects(w);
    ValZero(Test(w));
  }

  /** Hence, after the exclusive or with c in every byte, exactly when some byte is c. */
  lemma TestDetectsByte(w: Word, c: Byte)
    ensures Val(Test(Xor(w, Rep(c, |w|, |w|)))) != 0 <==> c in w
  {
    hide Test;
    var x := Xor(w, Rep(c, |w|, |w|));
    TestDetectsZeroByte(x);
    forall i | 0 <= i < |w| ensures x[i] == 0 <==> w[i] == c {
      Bits.XorZero(w[i], c);
    }
  }

  // ------------------------------------------------- the repeated-byte constants

  lemma {:induction false} Pow2Bytes(m: nat)
    ensures Pow2(8 * m) == Power(256, m)
  {
    if m > 0 {
      Pow2Bytes(m - 1);
      Pow2Plus8(8 * (m - 1));
    }
  }

  lemma Pow2Plus8(k: nat)
    ensures Pow2(k + 8) == 256 * Pow2(k)
  {
    Bits.Pow2Add(k, 8);
    assert Pow2(8) == 256;
  }

  lemma {:induction false} LowBytes(w: Word, k: nat)
    requires k <= |w|
    ensures OfNat(Val(w) % Power(256, k), k) == w[..k]
  {
    hide Power;
    if k > 0 {
      LowBytes(w[1..], k - 1);
      OfNatSplit(w[0], Val(w[1..]), k);
      assert w[..k] == [w[0]] + w[1..][..k - 1];
    }
  }

  /** A shift by whole bytes moves the bytes up and drops those at the top. */
  lemma PowerStep(m: nat)
    ensures Power(256, m) == if m == 0 then 1 else 256 * Power(256, m - 1)
  {}

  lemma ScaledProduct(v: nat, p: nat)
    ensures v * (256 * p) == 0 + 256 * (v * p)
  {}

  lemma {:induction false} ShiftedBytes(v: nat, m: nat, n: nat)
    requires m <= n
    ensures OfNat((v * Power(256, m)) % Power(256, n), n) == Rep(0, m, m) + OfNat(v % Power(256, n - m), n - m)
    decreases m
  {
    hide OfNat, Power;
    PowerStep(m);
    if m == 0 {
      assert v * Power(256, 0) == v;
    } else {
      var x := v * Power(256, m - 1);
      ScaledProduct(v, Power(256, m - 1));
      OfNatSplit(0, x, n);
      ShiftedBytes(v, m - 1, n - 1);
      assert Rep(0, m, m) == [0] + Rep(0, m - 1, m - 1);
    }
  }

  lemma ShlBytes(w: Word, m: nat)
    requires m <= |w|
    ensures Shl(w, 8 * m) == Rep(0, m, m) + w[..|w| - m]
  {
    hide OfNat, Val;
    Pow2Bytes(m);
    ShiftedBytes(Val(w), m, |w|);
    LowBytes(w, |w| - m);
  }

  /** One "x |= x << i" doubles the number of bytes filled. */
  lemma Doubling(c: Byte, m: nat, size: nat)
    requires m <= size
    ensures Or(Rep(c, m, size), Shl(Rep(c, m, size), 8 * m)) == Rep(c, 2 * m, size)
  {
    hide Shl;
    ShlBytes(Rep(c, m, size), m);
    Bits.OrSelf(c);
    Bits.OrSelf(0);
  }

  /** The shift by 32 is done in two steps, each smaller than the narrowest word. */
  lemma ShlTwice(w: Word)
    ensures Shl(Shl(w, 31), 1) == Shl(w, 32)
  {
    hide OfNat, Val;
    var v, p := Val(w) * Pow2(31), Power(256, |w|);
    ValOf(v % p, |w|);
    assert Pow2(32) == 2 * Pow2(31) && Pow2(1) == 2;
    ModUnique(v % p, p, 0, v % p);
    ModTwice(v, p);
    assert Val(w) * Pow2(32) == 2 * v;
  }

  lemma InitialOne(size: nat)
    requires 4 <= size
    ensures OfNat(0x01010101, size) == Rep(1, 4, size)
  {
    assert 0x01010101 / 256 == 0x010101 && 0x010101 / 256 == 0x0101 && 0x0101 / 256 == 1;
    AllZero(size - 4);
    assert OfNat(1, size - 3) == [1] + OfNat(0, size - 4);
    assert OfNat(0x0101, size - 2) == [1] + OfNat(1, size - 3);
    assert OfNat(0x010101, size - 1) == [1] + OfNat(0x0101, size - 2);
    assert OfNat(0x01010101, size) == [1] + OfNat(0x010101, size - 1);
  }

  lemma {:induction false} AllZero(size: nat)
    ensures OfNat(0, size) == Rep(0, size, size)
  {
    if size > 0 { AllZero(size - 1); }
  }

  lemma InitialC(c: Byte, size: nat)
    requires 1 <= size
    ensures OfNat(c, size) == Rep(c, 1, size)
  {
    AllZero(size - 1);
    assert c % 256 == c && c / 256 == 0;
  }

  lemma RepFull(c: Byte, m: nat, size: nat)
    requires size <= m
    ensures Rep(c, m, size) == Rep(c, size, size)
  {}

  /** repeated_one and repeated_c, for a longword of any size that C allows. */
  method Constants(c: Byte, size: nat) returns (repeatedOne: Word, repeatedC: Word)
    requires 4 <= size
    ensures repeatedOne == Rep(1, size, size) && repeatedC == Rep(c, size, size)
  {
    hide OfNat, Or, Shl, Rep;
    repeatedOne := OfNat(0x01010101, size);
    InitialOne(size);
    repeatedC := OfNat(c, size);
    InitialC(c, size);
    Doubling(c, 1, size);
    repeatedC := Or(repeatedC, Shl(repeatedC, 8));
    Doubling(c, 2, size);
    repeatedC := Or(repeatedC, Shl(repeatedC, 16));
    if 4 < size {
      ShlTwice(repeatedOne);
      ShlTwice(repeatedC);
      Doubling(1, 4, size);
      Doubling(c, 4, size);
      repeatedOne := Or(repeatedOne, Shl(Shl(repeatedOne, 31), 1));
      repeatedC := Or(repeatedC, Shl(Shl(repeatedC, 31), 1));
      if 8 < size {
        var i := 64;
        while i < size * 8
          invariant 64 <= i && i % 8 == 0
          invariant repeatedOne == Rep(1, i / 8, size) && repeatedC == Rep(c, i / 8, size)
          decreases size * 8 - i
        {
          Doubling(1, i / 8, size);
          Doubling(c, i / 8, size);
          repeatedOne := Or(repeatedOne, Shl(repeatedOne, i));
          repeatedC := Or(repeatedC, Shl(repeatedC, i));
          i := i * 2;
        }
        RepFull(1, i / 8, size);
        RepFull(c, i / 8, size);
      } else {
        RepFull(1, 8, size);
        RepFull(c, 8, size);
      }
    }
  }

  // ------------------------------------------------- the search

  /** A word in memory, on a machine of either endianness. */
  function Load(bytes: seq<Byte>, bigEndian: bool): (w: Word)
    ensures |w| == |bytes| && forall b: Byte :: b in w <==> b in bytes
    decreases bytes
  {
    if !bigEndian || bytes == [] then bytes
    else
      assert bytes == [bytes[0]] + bytes[1..];
      Load(bytes[1..], true) + [bytes[0]]
  }

  /**
    memchr: the index of the first byte equal to c among the first n, or -1.
    `addr` is the address of the buffer; words are read only at multiples of
    their size, and only while n bytes are left.
   */
  method Memchr(s: array<Byte>, addr: nat, cIn: int, n: nat, size: nat, bigEndian: bool) returns (r: int)
    requires n <= s.Length && 4 <= size
    ensures r == -1 <==> cIn % 256 !in s[..n]
    ensures r != -1 ==> 0 <= r < n && s[r] == cIn % 256 && cIn % 256 !in s[..r]
  {
    hide Test, Xor, Rep, Val;
    var c: Byte, left, p := cIn % 256, n, 0;
    while left > 0 && (addr + p) % size != 0
      invariant 0 <= p <= p + left == n && c !in s[..p]
    {
      if s[p] == c {
        return p;
      }
      left, p := left - 1, p + 1;
    }
    var repeatedOne, repeatedC := Constants(c, size);
    while left >= size
      invariant 0 <= p <= p + left == n && c !in s[..p]
      invariant left > 0 ==> (addr + p) % size == 0
    {
      assert (addr + p) % size == 0;
      var longword1 := Xor(Load(s[p..p + size], bigEndian), repeatedC);
      TestDetectsByte(Load(s[p..p + size], bigEndian), c);
      if Val(Test(longword1)) != 0 {
        break;
      }
      assert s[..p + size] == s[..p] + s[p..p + size];
      NextAligned(addr + p, size);
      p, left := p + size, left - size;
    }
    while left > 0
      invariant 0 <= p <= p + left == n && c !in s[..p]
    {
      if s[p] == c {
        return p;
      }
      left, p := left - 1, p + 1;
    }
    return -1;
  }

  lemma NextAligned(a: nat, size: nat)
    requires size > 0 && a % size == 0
    ensures (a + size) % size == 0
  {
    var q := a / size;
    assert a == q * size;
    ModUnique(a + size, size, q + 1, 0) by { assert a + size == (q + 1) * size; }
  }
}
