/** JavaScript's bit operators on the small non-negative integers that they are used on here. */
module Bits {
  function Pow2(k: nat): (p: nat)
    ensures p > 0
  {
    if k == 0 then 1 else 2 * Pow2(k - 1)
  }

  function And(a: nat, b: nat): nat {
    if a == 0 || b == 0 then 0
    else 2 * And(a / 2, b / 2) + (if a % 2 == 1 && b % 2 == 1 then 1 else 0)
  }

  function Or(a: nat, b: nat): nat {
    if a == 0 then b
    else if b == 0 then a
    else 2 * Or(a / 2, b / 2) + (if a % 2 == 1 || b % 2 == 1 then 1 else 0)
  }

  function Shr(n: nat, k: nat): nat {
    if k == 0 then n else Shr(n / 2, k - 1)
  }

  lemma Multiple(m: nat, d: int)
    ensures (d > 0 ==> m * d >= m) && (d < 0 ==> m * d + m <= 0)
  {
  }

  lemma DivMod(n: nat, m: nat, q: nat, r: nat)
    requires n == m * q + r && r < m
    ensures n / m == q && n % m == r
  {
    var d := n / m - q;
    assert n == m * (n / m) + n % m;
    assert m * d == r - n % m by { assert m * d == m * (n / m) - m * q; }
    Multiple(m, d);
  }

  /** Half of n tells n divided by 2m. */
  lemma Halve(n: nat, m: nat)
    requires m > 0
    ensures n / (2 * m) == n / 2 / m && n % (2 * m) == 2 * (n / 2 % m) + n % 2
  {
    var q, r := n / 2 / m, n / 2 % m;
    assert n / 2 == m * q + r;
    assert n == 2 * (m * q + r) + n % 2;
    assert 2 * (m * q) == (2 * m) * q;
    DivMod(n, 2 * m, q, 2 * r + n % 2);
  }

  /** A mask of k ones is the remainder modulo 2^k. */
  lemma {:induction false} AndMask(n: nat, k: nat)
    ensures And(n, Pow2(k) - 1) == n % Pow2(k)
  {
    if k > 0 {
      var m := Pow2(k - 1);
      AndMask(n / 2, k - 1);
      Halve(n, m);
      assert (2 * m - 1) / 2 == m - 1 && (2 * m - 1) % 2 == 1;
    }
  }

  lemma {:induction false} ShrDivides(n: nat, k: nat)
    ensures Shr(n, k) == n / Pow2(k)
  {
    if k > 0 {
      ShrDivides(n / 2, k - 1);
      Halve(n, Pow2(k - 1));
    }
  }

  /** Bits that do not overlap are added. */
  lemma {:induction false} OrAdds(high: nat, low: nat, k: nat)
    requires high % Pow2(k) == 0 && low < Pow2(k)
    ensures Or(high, low) == Or(low, high) == high + low
  {
    if k > 0 {
      Halve(high, Pow2(k - 1));
      OrAdds(high / 2, low / 2, k - 1);
    }
  }
}
