/** Powers, maxima, and facts of nonlinear arithmetic. */
module Arithmetic {
  function Max(a: int, b: int): int {
    if a >= b then a else b
  }

  function Min(a: nat, b: nat): nat {
    if a <= b then a else b
  }

  function Pow(b: nat, e: nat): nat {
    if e == 0 then 1 else b * Pow(b, e - 1)
  }

  function Pow2(k: nat): nat {
    if k == 0 then 1 else 2 * Pow2(k - 1)
  }

  lemma ModOf(q: nat, bf: nat, r: nat)
    requires r < bf
    ensures (q * bf + r) % bf == r
  {
    var n := q * bf + r;
    assert n == (n / bf) * bf + n % bf;
    Gap(q, n / bf, bf);
    Gap(n / bf, q, bf);
  }

  lemma {:induction false} Gap(a: nat, b: nat, c: nat)
    ensures a < b ==> a * c + c <= b * c
    decreases b
  {
    if a + 1 < b {
      Gap(a, b - 1, c);
      assert b * c == (b - 1) * c + c;
    }
  }
}
