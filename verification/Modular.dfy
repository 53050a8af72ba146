/** Euclidean division, as far as the other modules need it. */
module Modular {

  lemma ModUnique(n: int, d: nat, q: int, r: nat)
    requires 0 < d && n == q * d + r && r < d
    ensures n % d == r && n / d == q
  {
    var q', r' := n / d, n % d;
    assert n == q' * d + r' && 0 <= r' < d;
    if q > q' { Gap(q, q', d); }
    if q < q' { Gap(q', q, d); }
  }

  lemma Gap(x: int, y: int, d: nat)
    requires x > y
    ensures x * d >= y * d + d
  {
    assert (x - y - 1) * d >= 0;
    assert (x - y - 1) * d == x * d - y * d - d;
  }

  /** Reduction modulo b * m splits off a digit of base b. */
  lemma ModLow(r: nat, k: int, b: nat, m: nat)
    requires r < b && 0 < m
    ensures (r + b * k) % (b * m) == r + b * (k % m)
  {
    var q, s := k / m, k % m;
    assert k == q * m + s;
    assert b * k == q * (b * m) + b * s by {
      assert b * (q * m + s) == b * (q * m) + b * s;
      assert b * (q * m) == q * (b * m);
    }
    assert b * s + b <= b * m by { Gap(m, s, b); }
    ModUnique(r + b * k, b * m, q, r + b * s);
  }

  lemma ModTwice(x: nat, p: nat)
    requires p > 0
    ensures (x % p * 2) % p == (2 * x) % p
  {
    var q, r := x / p, x % p;
    var q', r' := (r * 2) / p, (r * 2) % p;
    assert x == q * p + r && r * 2 == q' * p + r';
    assert (2 * q + q') * p == 2 * (q * p) + q' * p;
    ModUnique(2 * x, p, 2 * q + q', r');
  }
}
