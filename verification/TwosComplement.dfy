/** Conversion to an integer type with p values, which keeps the low-order bits. */
module TwosComplement {
  import opened Modular

  function LeastStored(p: nat, signed: bool): int {
    if signed then -(p / 2) else 0
  }

  function MostStored(p: nat, signed: bool): int {
    if signed then p / 2 - 1 else p - 1
  }

  function Converted(p: nat, signed: bool, n: int): int
    requires p > 0
  {
    var u := n % p;
    if signed && u > MostStored(p, true) then u - p else u
  }

  /** The extrema of 8 and 16 bits, for example. */
  lemma Extrema()
    ensures LeastStored(256, true) == -128 && MostStored(256, true) == 127
    ensures LeastStored(256, false) == 0 && MostStored(256, false) == 255
    ensures LeastStored(65536, true) == -32768 && MostStored(65536, true) == 32767
    ensures LeastStored(65536, false) == 0 && MostStored(65536, false) == 65535
  {}

  /** The only value of the type that agrees with n modulo p. */
  lemma ConvertedUnique(p: nat, signed: bool, n: int, r: int, q: int)
    requires p > 0 && p % 2 == 0 && n == r + q * p && LeastStored(p, signed) <= r <= MostStored(p, signed)
    ensures Converted(p, signed, n) == r
  {
    if r >= 0 {
      ModUnique(n, p, q, r);
    } else {
      assert (q - 1) * p == q * p - p;
      ModUnique(n, p, q - 1, r + p);
    }
  }

  lemma ConvertedInRange(p: nat, signed: bool, n: int)
    requires p > 0 && p % 2 == 0
    ensures LeastStored(p, signed) <= Converted(p, signed, n) <= MostStored(p, signed)
    ensures exists q: int :: n == Converted(p, signed, n) + q * p
  {
    var q := n / p;
    assert n == q * p + n % p;
    assert (q + 1) * p == q * p + p;
    var r := Converted(p, signed, n);
    assert n == r + (if r == n % p then q else q + 1) * p;
  }

  /** A value of the type stays what it is. */
  lemma StoredExactly(p: nat, signed: bool, n: int)
    requires p > 0 && p % 2 == 0 && LeastStored(p, signed) <= n <= MostStored(p, signed)
    ensures Converted(p, signed, n) == n
  {
    ConvertedUnique(p, signed, n, n, 0);
  }

  /** Going through the signed type first does not matter. */
  lemma ConvertedTwice(p: nat, signed: bool, n: int)
    requires p > 0 && p % 2 == 0
    ensures Converted(p, signed, Converted(p, true, n)) == Converted(p, signed, n)
  {
    hide Converted;
    var v := Converted(p, true, n);
    var r := Converted(p, signed, v);
    ConvertedInRange(p, true, n);
    ConvertedInRange(p, signed, v);
    var q: int :| n == v + q * p;
    var q': int :| v == r + q' * p;
    assert (q + q') * p == q * p + q' * p;
    ConvertedUnique(p, signed, n, r, q + q');
  }
}
