/** Powers of a base. */
module Powers {

  function Power(base: nat, k: nat): (p: nat)
    ensures base > 0 ==> p > 0
  {
    if k == 0 then 1 else base * Power(base, k - 1)
  }

  /** 1 << k */
  function Pow2(k: nat): (p: nat)
    ensures p > 0
  {
    Power(2, k)
  }
}
