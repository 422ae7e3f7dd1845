/** Products, quotients and remainders of integers. */
module Arith {

  const TWO_32: int := 0x1_0000_0000
  const TWO_63: int := 0x8000_0000_0000_0000
  const TWO_64: int := 0x1_0000_0000_0000_0000

  lemma MulAtLeast(d: int, n: int)
    requires d >= 1 && n >= 0
    ensures d * n >= n
  {
    assert d * n == n + (d - 1) * n;
  }

  lemma MulMonotone(a: int, b: int, n: int)
    requires a <= b && n >= 0
    ensures a * n <= b * n
  {
    assert b * n == a * n + (b - a) * n;
  }

  /** The only multiple of n strictly between -n and n is zero. */
  lemma SmallMultiple(d: int, n: int)
    requires n > 0 && -n < d * n < n
    ensures d == 0
  {
    if d >= 1 {
      MulAtLeast(d, n);
    } else if d <= -1 {
      MulAtLeast(-d, n);
    }
  }

  lemma DivMod(x: int, n: int)
    requires n > 0
    ensures x == (x / n) * n + x % n && 0 <= x % n < n
  {
  }

  lemma ModUnique(x: int, q: int, n: int, r: int)
    requires 0 <= r < n && x == q * n + r
    ensures x % n == r && x / n == q
  {
    DivMod(x, n);
    var d := x / n - q;
    assert d * n == (x / n) * n - q * n;
    SmallMultiple(d, n);
  }

  lemma ModAdd(a: int, b: int, m: int)
    requires m > 0
    ensures (a % m + b) % m == (a + b) % m
  {
    DivMod(a, m);
    var t := a % m + b;
    DivMod(t, m);
    assert a + b == (a / m + t / m) * m + t % m;
    ModUnique(a + b, a / m + t / m, m, t % m);
  }

  lemma ModDifference(a: int, b: int, m: int)
    requires m > 0 && a % m == b % m
    ensures b - a == (b / m - a / m) * m
  {
    DivMod(a, m);
    DivMod(b, m);
  }

  lemma Cancel(a: int, b: int, n: int)
    requires n != 0 && a * n == b * n
    ensures a == b
  {
    assert (a - b) * n == 0;
    if n > 0 {
      SmallMultiple(a - b, n);
    } else {
      assert (a - b) * (-n) == 0;
      SmallMultiple(a - b, -n);
    }
  }

  function Pow2(e: nat): (p: nat)
    ensures p >= 1
  {
    if e == 0 then 1 else 2 * Pow2(e - 1)
  }

  lemma {:induction false} Pow2Grows(a: nat, b: nat)
    requires a <= b
    ensures Pow2(a) <= Pow2(b)
  {
    if a < b {
      Pow2Grows(a, b - 1);
    }
  }

  lemma EightDoublings(e: nat)
    ensures Pow2(e + 8) == 256 * Pow2(e)
  {
    assert Pow2(e + 2) == 4 * Pow2(e);
    assert Pow2(e + 4) == 16 * Pow2(e);
    assert Pow2(e + 6) == 64 * Pow2(e);
  }

  lemma DivTwice(n: nat, a: nat, b: nat)
    requires a > 0 && b > 0
    ensures a * b > 0 && n / a / b == n / (a * b)
  {
    var q, r := n / a, n % a;
    var s, t := q / b, q % b;
    assert n == a * q + r && q == b * s + t;
    assert n == s * (a * b) + (a * t + r) by { assert a * (b * s) == s * (a * b); }
    MulMonotone(t + 1, b, a);
    assert a * t + r < a * b;
    ModUnique(n, s, a * b, a * t + r);
  }
}
