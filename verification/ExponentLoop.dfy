/** The exponent loop of `pollard_monte_carlo`: when its products overflow, and when it ends. */
module ExponentLoops {
  import opened Arith
  import opened ModArith
  import opened NumberTheory
  import opened Options
  import opened PrimeTables

  /** `cur` multiplied by p until n is passed, then one factor taken back; none if `fuel` rounds are not enough. */
  function LoopPower(p: int, n: int, cur: int, fuel: nat): (e: Option<int>)
    requires p >= 1 && n >= 1
    ensures e.Some? ==> e.value >= 0
    decreases fuel
  {
    if cur > n then Some(cur / p)
    else if fuel == 0 then None
    else LoopPower(p, n, Wrap(cur * p), fuel - 1)
  }

  lemma LoopPowerUnfolds(p: int, n: int, cur: int, fuel: nat)
    requires p >= 1 && n >= 1
    ensures cur > n ==> LoopPower(p, n, cur, fuel) == Some(cur / p)
    ensures cur <= n && fuel == 0 ==> LoopPower(p, n, cur, fuel) == None
    ensures cur <= n && fuel > 0 ==> LoopPower(p, n, cur, fuel) == LoopPower(p, n, Wrap(cur * p), fuel - 1)
  {
    hide Wrap;
  }

  /** The exponent loop in 64-bit arithmetic. */
  method LargestPower(p: I64, n: I64, fuel: nat) returns (finished: bool, cur: I64)
    requires p >= 1 && n >= 1
    ensures LoopPower(p, n, p, fuel) == if finished then Some(cur) else None
  {
    hide LoopPower, Wrap;
    cur := p;
    var left := fuel;
    while cur <= n && left > 0
      invariant left >= 0 && LoopPower(p, n, cur, left) == LoopPower(p, n, p, fuel)
      decreases left
    {
      LoopPowerUnfolds(p, n, cur, left);
      cur := Wrap(cur * p);
      left := left - 1;
    }
    LoopPowerUnfolds(p, n, cur, left);
    finished := cur > n;
    if finished {
      QuotientFits(cur, p);
      cur := cur / p;
    }
  }

  lemma QuotientFits(x: int, p: int)
    requires p >= 1 && 0 <= x
    ensures 0 <= x / p <= x
  {
    DivMod(x, p);
    MulAtLeast(p, x / p);
  }

  // ---------- when the products overflow ----------

  const OVERFLOW_FROM: int := 119851595982618319    // 79^9

  /** The first power of p above n that multiplication without wrapping reaches from `cur`. */
  function FirstPowerAbove(p: int, n: int, cur: int): int
    requires p >= 2 && cur >= 1
    decreases n - cur
  {
    if cur > n then cur else FirstPowerAbove(p, n, cur * p)
  }

  /** No product of the exponent loop leaves 64 bits, for any prime of the list. */
  ghost predicate NoOverflow(n: int) {
    forall p :: IsPrime(p) && 3 <= p <= 100 ==> FirstPowerAbove(p, n, p) < TWO_63
  }

  /** A power of p above n is not below the first one met. */
  lemma {:induction false} FirstAtMost(p: int, n: int, cur: int, j: nat)
    requires p >= 2 && cur >= 1 && cur * Pow(p, j) > n
    ensures FirstPowerAbove(p, n, cur) <= cur * Pow(p, j)
    decreases j
  {
    if cur > n {
      PowAtLeastOne(p, j);
      MulAtLeast(Pow(p, j), cur);
      assert Pow(p, j) * cur == cur * Pow(p, j);
    } else if j > 0 {
      assert Pow(p, j) == p * Pow(p, j - 1);
      assert cur * (p * Pow(p, j - 1)) == (cur * p) * Pow(p, j - 1);
      MulMonotone(1, p, cur);
      FirstAtMost(p, n, cur * p, j - 1);
    }
  }

  lemma {:induction false} PowAtLeastOne(p: int, j: nat)
    requires p >= 1
    ensures Pow(p, j) >= 1
  {
    if j > 0 {
      PowAtLeastOne(p, j - 1);
      MulAtLeast(p, Pow(p, j - 1));
    }
  }

  lemma NextPower(p: int, cur: int, j: nat)
    ensures cur * Pow(p, j + 1) == (cur * p) * Pow(p, j)
  {
    assert Pow(p, j + 1) == p * Pow(p, j);
    hide Pow;
    assert cur * (p * Pow(p, j)) == (cur * p) * Pow(p, j);
  }

  lemma NotAbove(p: int, n: int, cur: int, j: nat)
    requires p >= 2 && cur >= 1 && cur * Pow(p, j) <= n
    ensures 1 <= cur <= n && cur * p >= 1
  {
    PowAtLeastOne(p, j);
    hide Pow;
    MulAtLeast(Pow(p, j), cur);
    assert Pow(p, j) * cur == cur * Pow(p, j);
    MulMonotone(1, p, cur);
    assert p * cur == cur * p;
  }

  /** If p^j is still at most n, the first power above n is beyond it. */
  lemma {:induction false} FirstBeyond(p: int, n: int, cur: int, j: nat)
    requires p >= 2 && cur >= 1 && cur * Pow(p, j) <= n
    ensures FirstPowerAbove(p, n, cur) >= cur * Pow(p, j + 1)
    decreases j
  {
    NotAbove(p, n, cur, j);
    NextPower(p, cur, j);
    assert FirstPowerAbove(p, n, cur) == FirstPowerAbove(p, n, cur * p);
    if j > 0 {
      NextPower(p, cur, j - 1);
      hide FirstPowerAbove, Pow;
      FirstBeyond(p, n, cur * p, j - 1);
    } else {
      assert Pow(p, 0) == 1;
      AboveStart(p, n, cur * p);
    }
  }

  lemma {:induction false} AboveStart(p: int, n: int, cur: int)
    requires p >= 2 && cur >= 1
    ensures FirstPowerAbove(p, n, cur) >= cur
    decreases n - cur
  {
    if cur <= n {
      MulMonotone(2, p, cur);
      assert p * cur == cur * p;
      AboveStart(p, n, cur * p);
    }
  }

  lemma {:induction false} PowMonotone(a: int, b: int, k: nat)
    requires 0 <= a <= b
    ensures 0 <= Pow(a, k) <= Pow(b, k)
  {
    if k > 0 {
      PowMonotone(a, b, k - 1);
      MulMonotone(a, b, Pow(a, k - 1));
      MulMonotone(Pow(a, k - 1), Pow(b, k - 1), b);
      assert b * Pow(a, k - 1) == Pow(a, k - 1) * b;
      assert b * Pow(b, k - 1) == Pow(b, k - 1) * b;
    }
  }

  lemma Between(lo: int, p: int, hi: int, k: nat, least: int, most: int)
    requires 0 <= lo <= p <= hi && Pow(lo, k) == least && Pow(hi, k) == most
    requires OVERFLOW_FROM <= least && most < TWO_63
    ensures OVERFLOW_FROM <= Pow(p, k) < TWO_63
  {
    PowMonotone(lo, p, k);
    PowMonotone(p, hi, k);
  }

  lemma {:induction false} FirstPowerBound(p: int, n: int, cur: int)
    requires p >= 2 && 1 <= cur <= n
    ensures FirstPowerAbove(p, n, cur) <= n * p
    decreases n - cur
  {
    MulAtLeast(p, cur);
    MulMonotone(2, p, cur);
    assert p * cur == cur * p;
    if cur * p <= n {
      FirstPowerBound(p, n, cur * p);
    } else {
      MulMonotone(cur, n, p);
    }
  }

  /** Without overflow and with rounds enough, the loop in 64 bits finds the last power of p not above n. */
  lemma {:induction false} LoopStays(p: int, n: int, cur: int, fuel: nat)
    requires p >= 2 && n >= 1 && 1 <= cur < TWO_63 && FirstPowerAbove(p, n, cur) < TWO_63 && cur * Pow2(fuel) > n
    ensures LoopPower(p, n, cur, fuel) == Some(FirstPowerAbove(p, n, cur) / p)
    decreases fuel
  {
    if cur <= n {
      assert fuel > 0;
      MulMonotone(2, p, cur);
      assert p * cur == cur * p;
      AboveStart(p, n, cur * p);
      assert Pow2(fuel) == 2 * Pow2(fuel - 1);
      MulMonotone(2 * cur, cur * p, Pow2(fuel - 1));
      assert cur * (2 * Pow2(fuel - 1)) == (2 * cur) * Pow2(fuel - 1);
      LoopStays(p, n, cur * p, fuel - 1);
    }
  }

  /** The bound 2^63 is more than 76 times 79^9; for the few larger p some power lies between the two. */
  lemma PowerAboveInReach(p: int, n: int)
    requires 3 <= p <= 100 && 1 <= n < OVERFLOW_FROM
    ensures FirstPowerAbove(p, n, p) < TWO_63
  {
    if p > n {
    } else if p <= 76 {
      FirstPowerBound(p, n, p);
      MulMonotone(p, 76, n);
      assert p * n == n * p;
    } else if p <= 78 {
      LargePowers();
      Between(77, p, 78, 10, Pow(77, 10), Pow(78, 10));
      FirstAtMost(p, n, p, 9);
    } else {
      LargePowers();
      Between(79, p, 100, 9, Pow(79, 9), Pow(100, 9));
      FirstAtMost(p, n, p, 8);
    }
  }

  lemma LargePowers()
    ensures Pow(79, 9) == OVERFLOW_FROM && Pow(100, 9) == 1_000_000_000_000_000_000
    ensures OVERFLOW_FROM <= Pow(77, 10) && Pow(78, 10) < TWO_63
  {
    PowersOf79();
    Tenth(77, 77 * 77);
    Tenth(78, 78 * 78);
    Ninth(100, 100 * 100);
  }

  lemma Fourth(a: int, square: int)
    requires square == a * a
    ensures Pow(a, 4) == square * square
  {
    assert Pow(a, 1) == a;
    assert Pow(a, 2) == square;
    PowAdd(a, 2, 2);
  }

  lemma Ninth(a: int, square: int)
    requires square == a * a
    ensures Pow(a, 8) == (square * square) * (square * square) && Pow(a, 9) == a * Pow(a, 8)
  {
    Fourth(a, square);
    PowAdd(a, 4, 4);
  }

  lemma Tenth(a: int, square: int)
    requires square == a * a
    ensures Pow(a, 10) == a * (a * ((square * square) * (square * square)))
  {
    Ninth(a, square);
    assert Pow(a, 10) == a * Pow(a, 9);
  }

  lemma SixtyTwoRounds()
    ensures 3 * Pow2(62) > TWO_63
  {
    assert Pow2(6) == 64 by { assert Pow2(3) == 8; }
    hide Pow2;
    EightDoublings(6);
    EightDoublings(14);
    EightDoublings(22);
    EightDoublings(30);
    EightDoublings(38);
    EightDoublings(46);
    EightDoublings(54);
  }

  lemma LoopEnds(p: int, n: int, fuel: nat)
    requires 3 <= p <= 100 && 1 <= n < OVERFLOW_FROM && fuel >= 62
    ensures LoopPower(p, n, p, fuel) == Some(FirstPowerAbove(p, n, p) / p)
  {
    PowerAboveInReach(p, n);
    Pow2Grows(62, fuel);
    SixtyTwoRounds();
    hide Pow2;
    MulMonotone(3, p, Pow2(fuel));
    LoopStays(p, n, p, fuel);
  }

  lemma SeventyNineIsPrime()
    ensures IsPrime(79)
  {
    forall d | 2 <= d <= 8
      ensures !Divides(d, 79)
    {
      DividesRem(d, 79);
    }
    hide Divides;
    var p := SmallestFactor(79);
    assert p >= 9;
    MulMonotone(9, p, p);
  }

  /** The exponent loop stays inside 64 bits for every prime of the list exactly below 79^9. */
  lemma OverflowsExactly(n: int)
    requires n >= 1
    ensures NoOverflow(n) <==> n < OVERFLOW_FROM
  {
    hide FirstPowerAbove, IsPrime, Pow;
    if n < OVERFLOW_FROM {
      forall p | IsPrime(p) && 3 <= p <= 100
        ensures FirstPowerAbove(p, n, p) < TWO_63
      {
        PowerAboveInReach(p, n);
      }
    } else {
      SeventyNineIsPrime();
      PowersOf79();
      FirstBeyond(79, n, 79, 8);
    }
  }

  lemma PowersOf79()
    ensures Pow(79, 9) == OVERFLOW_FROM && 79 * Pow(79, 8) == OVERFLOW_FROM && 79 * Pow(79, 9) >= TWO_63
  {
    Ninth(79, 79 * 79);
  }

  // ---------- when the loop ends ----------

  /** 2^63 - 33: the largest number below 2^63 among the powers of 31 modulo 2^64. */
  const LOOPS_END: int := 9223372036854775775

  /** With `fuel` rounds the exponent loop ends for every prime of the list. */
  ghost predicate LoopsEnd(n: int, fuel: nat)
    requires n >= 1
  {
    forall p :: IsPrime(p) && 3 <= p <= 100 ==> LoopPower(p, n, p, fuel).Some?
  }

  lemma NextProduct(cur: int, p: int, rest: int, y: int, w: int) returns (v: int)
    requires cur * (p * rest) == y + w * TWO_64
    ensures Wrap(cur * p) * rest == y + v * TWO_64
  {
    var q := WrapIs(cur * p);
    hide Wrap;
    v := w + q * rest;
    assert cur * (p * rest) == (cur * p) * rest;
    assert (q * TWO_64) * rest == (q * rest) * TWO_64;
  }

  lemma SameSigned(a: int, b: int, q: int)
    requires -TWO_63 <= a < TWO_63 && -TWO_63 <= b < TWO_63 && a == b + q * TWO_64
    ensures a == b
  {
  }

  /** If the products reach y > n modulo 2^64 after k rounds, the loop ends by then. */
  lemma {:induction false} LoopReaches(p: int, n: int, cur: int, y: int, w: int, k: nat, fuel: nat)
    requires p >= 1 && 1 <= n < y < TWO_63 && -TWO_63 <= cur < TWO_63 && k <= fuel
    requires cur * Pow(p, k) == y + w * TWO_64
    ensures LoopPower(p, n, cur, fuel).Some?
    decreases k
  {
    if cur <= n {
      if k == 0 {
        SameSigned(cur, y, w);
      } else {
        var v := NextProduct(cur, p, Pow(p, k - 1), y, w);
        LoopPowerUnfolds(p, n, cur, fuel);
        hide LoopPower, Pow, Wrap;
        LoopReaches(p, n, Wrap(cur * p), y, v, k - 1, fuel - 1);
      }
    }
  }

  /** Squaring doubles the power of two by which an odd number differs from 1. */
  lemma {:induction false} Lift(g: int, s: nat, u0: int, j: nat) returns (u: int)
    requires s >= 2 && g == 1 + Pow2(s) * u0 && u0 % 2 == 1
    ensures u % 2 == 1 && Pow(g, Pow2(j)) == 1 + Pow2(s + j) * u
  {
    if j == 0 {
      u := u0;
      assert Pow(g, 1) == g * Pow(g, 0);
    } else {
      var v := Lift(g, s, u0, j - 1);
      var t := s + j - 1;
      u := v + Pow2(t - 1) * (v * v);
      SquareOfNearOne(t, v);
      PowAdd(g, Pow2(j - 1), Pow2(j - 1));
      hide Pow;
      EvenPart(t - 1, v);
    }
  }

  lemma EvenPart(e: nat, v: int)
    requires e >= 1 && v % 2 == 1
    ensures (v + Pow2(e) * (v * v)) % 2 == 1
  {
    var h := Pow2(e - 1) * (v * v);
    assert Pow2(e) * (v * v) == 2 * h;
  }

  lemma SquareOfNearOne(t: nat, v: int)
    requires t >= 1
    ensures var x := 1 + Pow2(t) * v; x * x == 1 + Pow2(t + 1) * (v + Pow2(t - 1) * (v * v))
  {
    var h := Pow2(t - 1);
    assert Pow2(t) == 2 * h && Pow2(t + 1) == 4 * h;
    hide Pow2;
    var a := h * v;
    assert (2 * h) * v == 2 * a && a * a == h * (h * (v * v));
    assert (1 + 2 * a) * (1 + 2 * a) == 1 + 4 * a + 4 * (a * a);
    assert (4 * h) * (v + h * (v * v)) == 4 * a + 4 * (h * (h * (v * v)));
  }

  /**
   The powers of g = 1 + 2^s u, with u odd, are all numbers that are 1 modulo 2^s: times c they reach every y
   that is c modulo 2^s, modulo every power of two.
   */
  lemma {:induction false} PowersReach(c: int, g: int, s: nat, u: int, y: int, m: nat) returns (k: nat, w: int)
    requires 2 <= s <= m && g == 1 + Pow2(s) * u && u % 2 == 1 && c % 2 == 1 && (y - c) % Pow2(s) == 0
    ensures k < Pow2(m - s) && c * Pow(g, k) == y + w * Pow2(m)
    decreases m
  {
    if m == s {
      k := 0;
      DivMod(y - c, Pow2(s));
      w := -((y - c) / Pow2(s));
      assert Pow(g, 0) == 1;
    } else {
      var k0, w0 := PowersReach(c, g, s, u, y, m - 1);
      assert Pow2(m - s) == 2 * Pow2(m - 1 - s) && m - 1 == s + (m - 1 - s);
      if w0 % 2 == 0 {
        k, w := k0, w0 / 2;
        hide *;
        HalfTheMultiple(w0, m);
      } else {
        k := k0 + Pow2(m - 1 - s);
        hide *;
        w := NextBit(c, g, s, u, y, k0, w0, m);
      }
    }
  }

  /** If bit m - 1 is still wrong, 2^(m - 1 - s) more factors g set it right. */
  lemma NextBit(c: int, g: int, s: nat, u: int, y: int, k: nat, w0: int, m: nat) returns (w: int)
    requires 2 <= s < m && g == 1 + Pow2(s) * u && u % 2 == 1 && c % 2 == 1 && w0 % 2 == 1
    requires c * Pow(g, k) == y + w0 * Pow2(m - 1)
    ensures c * Pow(g, k + Pow2(m - 1 - s)) == y + w * Pow2(m)
  {
    hide *;
    var j := m - 1 - s;
    assert s + j == m - 1;
    var v := Lift(g, s, u, j);
    OddProduct(c, g, s, u, k);
    PowAdd(g, k, Pow2(j));
    var a, b := Pow(g, k), Pow(g, Pow2(j));
    w := OneMoreBit(c * a, y, w0, v, m);
    assert c * (a * b) == (c * a) * b;
  }

  lemma HalfTheMultiple(w: int, m: nat)
    requires m >= 1 && w % 2 == 0
    ensures w * Pow2(m - 1) == (w / 2) * Pow2(m)
  {
    var h := w / 2;
    assert (2 * h) * Pow2(m - 1) == h * (2 * Pow2(m - 1));
  }

  lemma {:induction false} OddProduct(c: int, g: int, s: nat, u: int, k: nat)
    requires s >= 1 && g == 1 + Pow2(s) * u && c % 2 == 1
    ensures (c * Pow(g, k)) % 2 == 1
  {
    if k == 0 {
      assert c * Pow(g, 0) == c;
    } else {
      OddProduct(c, g, s, u, k - 1);
      var x := c * Pow(g, k - 1);
      NearOneIsOdd(g, s, u);
      assert c * (g * Pow(g, k - 1)) == g * x;
      hide Pow;
      OddTimes(g, x);
    }
  }

  lemma NearOneIsOdd(g: int, s: nat, u: int)
    requires s >= 1 && g == 1 + Pow2(s) * u
    ensures g % 2 == 1
  {
    var h := Pow2(s - 1) * u;
    assert (2 * Pow2(s - 1)) * u == 2 * h;
  }

  lemma OneMoreBit(x: int, y: int, w0: int, v: int, m: nat) returns (w: int)
    requires m >= 1 && x == y + w0 * Pow2(m - 1) && x % 2 == 1 && w0 % 2 == 1 && v % 2 == 1
    ensures x * (1 + Pow2(m - 1) * v) == y + w * Pow2(m)
  {
    var h := Pow2(m - 1);
    assert Pow2(m) == 2 * h;
    hide Pow2;
    OddTimes(x, v);
    w := (w0 + x * v) / 2;
    Gather(x, y, w0, v, h, w);
  }

  lemma Gather(x: int, y: int, w0: int, v: int, h: int, w: int)
    requires x == y + w0 * h && w0 + x * v == 2 * w
    ensures x * (1 + h * v) == y + w * (2 * h)
  {
    assert x * (h * v) == h * (x * v);
    assert w0 * h + h * (x * v) == (w0 + x * v) * h;
    assert (2 * w) * h == w * (2 * h);
  }

  lemma {:induction false} TwoPart(x: int) returns (s: nat, u: int)
    requires x > 0
    ensures x == Pow2(s) * u && u % 2 == 1 && u >= 1 && Pow2(s) <= x
    decreases x
  {
    if x % 2 == 1 {
      s, u := 0, x;
    } else {
      var t;
      t, u := TwoPart(x / 2);
      s := t + 1;
      assert (2 * Pow2(t)) * u == 2 * (Pow2(t) * u);
    }
  }

  /** p, or its square, is 1 + 2^s u with u odd and s small. */
  lemma Order(p: int) returns (g: int, s: nat, u: int)
    requires 3 <= p <= 100 && p % 2 == 1 && p != 63 && p != 65
    ensures g == (if p % 4 == 1 then p else p * p)
    ensures 2 <= s <= 6 && g == 1 + Pow2(s) * u && u % 2 == 1
    ensures if p % 4 == 1 then s <= 5 else s >= 3
    ensures s == 6 ==> p % 64 == 31
  {
    SmallPowers();
    hide Pow2;
    if p % 4 == 1 {
      g := p;
      s, u := TwoPart(p - 1);
      BelowSeven(p - 1, s);
    } else {
      g := p * p;
      var t, r := TwoPart(p + 1);
      BelowSeven(p + 1, t);
      s := t + 1;
      u := SquareOfNearMinusOne(p, t, r);
    }
  }

  lemma BelowSeven(x: int, s: nat)
    requires Pow2(s) <= x < 128
    ensures s < 7
  {
    SmallPowers();
    assert Pow2(7) == 128;
    Pow2Grows(7, if s >= 7 then s else 7);
  }

  lemma SmallPowers()
    ensures Pow2(0) == 1 && Pow2(1) == 2 && Pow2(2) == 4 && Pow2(3) == 8
    ensures Pow2(4) == 16 && Pow2(5) == 32 && Pow2(6) == 64
  {
  }

  /** p^2 - 1 = (p + 1)(p - 1), where p - 1 is twice an odd number. */
  lemma SquareOfNearMinusOne(p: int, t: nat, r: int) returns (u: int)
    requires p % 4 == 3 && p + 1 == Pow2(t) * r && r % 2 == 1
    ensures p * p == 1 + Pow2(t + 1) * u && u % 2 == 1
  {
    var e, h := p / 2, Pow2(t);
    assert Pow2(t + 1) == 2 * h;
    hide Pow2;
    u := r * e;
    HalfIsOdd(p);
    OddTimes(r, e);
    SquareLessOne(p, e, h, r);
  }

  lemma HalfIsOdd(p: int)
    requires p % 4 == 3
    ensures p == 2 * (p / 2) + 1 && (p / 2) % 2 == 1
  {
  }

  lemma SquareLessOne(p: int, e: int, h: int, r: int)
    requires p == 2 * e + 1 && p + 1 == h * r
    ensures p * p == 1 + (2 * h) * (r * e)
  {
    assert (h * r) * (2 * e) == (2 * h) * (r * e);
    assert p * p - 1 == (p + 1) * (2 * e);
  }

  lemma OddTimes(x: int, v: int)
    requires x % 2 == 1 && v % 2 == 1
    ensures (x * v) % 2 == 1
  {
    var a, b := x / 2, v / 2;
    assert x == 2 * a + 1 && v == 2 * b + 1;
    assert x * v == 2 * (2 * (a * b) + a + b) + 1;
  }

  /** A number just below 2^63 that is p modulo 2^s. */
  lemma Target(p: int, s: nat) returns (y: int)
    requires 3 <= p <= 100 && 2 <= s <= 6 && (s == 6 ==> p % 64 == 31)
    ensures LOOPS_END <= y < TWO_63 && (y - p) % Pow2(s) == 0
  {
    SmallPowers();
    hide Pow2;
    var x, m := TWO_63 - 1 - p, Pow2(s);
    y := p + (x - x % m);
    RoundDown(x, m);
    if s == 6 {
      assert x % 64 == 32;
    }
  }

  lemma RoundDown(x: int, m: int)
    requires m > 0
    ensures (x - x % m) % m == 0 && 0 <= x % m < m
  {
    DivMod(x, m);
    ModUnique(x - x % m, x / m, m, 0);
  }

  lemma Pow2Of64()
    ensures Pow2(64) == TWO_64
  {
    assert Pow2(8) == 256;
    hide Pow2;
    EightDoublings(8);
    EightDoublings(16);
    EightDoublings(24);
    EightDoublings(32);
    EightDoublings(40);
    EightDoublings(48);
    EightDoublings(56);
  }

  /** Below 2^63 - 33 every exponent loop ends, overflow or not. */
  lemma LoopEndsBelow(p: int, n: int, fuel: nat)
    requires 3 <= p <= 100 && p % 2 == 1 && p != 63 && p != 65
    requires 1 <= n < LOOPS_END && fuel >= Pow2(62)
    ensures LoopPower(p, n, p, fuel).Some?
  {
    var g, s, u := Order(p);
    var y := Target(p, s);
    var k, w := PowersReach(p, g, s, u, y, 64);
    Pow2Of64();
    Pow2Grows(64 - s, if p % 4 == 1 then 62 else 61);
    assert Pow2(62) == 2 * Pow2(61);
    hide Pow2, Pow, LoopPower;
    if p % 4 == 1 {
      LoopReaches(p, n, p, y, w, k, fuel);
    } else {
      PowSquare(p, k);
      LoopReaches(p, n, p, y, w, 2 * k, fuel);
    }
  }

  lemma Residue31(cur: int)
    requires cur % 64 == 1 || cur % 64 == 31
    ensures Wrap(cur * 31) % 64 == 31 || Wrap(cur * 31) % 64 == 1
  {
    var q := WrapIs(cur * 31);
    hide Wrap;
    SameResidue(cur * 31, q);
    TimesThirtyOne(cur);
  }

  lemma TimesThirtyOne(cur: int)
    requires cur % 64 == 1 || cur % 64 == 31
    ensures (cur * 31) % 64 == 31 || (cur * 31) % 64 == 1
  {
    var q := cur / 64;
    assert cur * 31 == 64 * (31 * q) + 31 * (cur % 64);
  }

  lemma SameResidue(x: int, q: int)
    ensures (x + q * TWO_64) % 64 == x % 64
  {
    assert q * TWO_64 == 64 * (q * 0x400_0000_0000_0000);
  }

  /** The powers of 31 are 1 or 31 modulo 64, so from 2^63 - 33 on the loop for 31 never ends. */
  lemma {:induction false} LoopRunsOn(n: int, cur: int, fuel: nat)
    requires n >= LOOPS_END && cur < TWO_63 && (cur % 64 == 1 || cur % 64 == 31)
    ensures LoopPower(31, n, cur, fuel) == None
    decreases fuel
  {
    assert cur <= n;
    if fuel > 0 {
      Residue31(cur);
      hide Wrap;
      LoopRunsOn(n, Wrap(cur * 31), fuel - 1);
    }
  }

  lemma SmallOdd(p: int)
    requires IsPrime(p) && 3 <= p <= 100
    ensures p % 2 == 1 && p != 63 && p != 65
  {
    OddPrime(p);
    DividesIntro(9, 63, 7);
    DividesIntro(5, 65, 13);
  }

  lemma ThirtyOneIsPrime()
    ensures IsPrime(31)
  {
    forall d | 2 <= d <= 5
      ensures !Divides(d, 31)
    {
      DividesRem(d, 31);
    }
    hide Divides;
    var p := SmallestFactor(31);
    assert p >= 6;
    MulMonotone(6, p, p);
  }

  /** The exponent loops of all primes of the list end, in at most 2^62 rounds, exactly below 2^63 - 33. */
  lemma LoopsEndExactly(n: int, fuel: nat)
    requires n >= 1 && fuel >= Pow2(62)
    ensures LoopsEnd(n, fuel) <==> n < LOOPS_END
  {
    hide IsPrime, LoopPower, Pow2;
    if n < LOOPS_END {
      forall p | IsPrime(p) && 3 <= p <= 100
        ensures LoopPower(p, n, p, fuel).Some?
      {
        SmallOdd(p);
        LoopEndsBelow(p, n, fuel);
      }
    } else {
      ThirtyOneIsPrime();
      LoopRunsOn(n, 31, fuel);
    }
  }

  /** With these rounds every exponent loop ends: 62 below 79^9, 2^62 below 2^63 - 33. */
  predicate EnoughRounds(n: int, fuel: nat) {
    (1 <= n < OVERFLOW_FROM && fuel >= 62) || (1 <= n < LOOPS_END && fuel >= Pow2(62))
  }

  lemma LoopsEndInTime(p: int, n: int, fuel: nat)
    requires EnoughRounds(n, fuel) && IsPrime(p) && 3 <= p <= 100
    ensures LoopPower(p, n, p, fuel).Some?
  {
    if n < OVERFLOW_FROM && fuel >= 62 {
      LoopEnds(p, n, fuel);
    } else {
      SmallOdd(p);
      LoopEndsBelow(p, n, fuel);
    }
  }

  // ---------- what the exponent is ----------

  /** It is the largest power of p not above n, where nothing overflows. */
  lemma LargestPowerIs(p: int, n: int, fuel: nat) returns (j: nat)
    requires 3 <= p <= 100 && 1 <= n < OVERFLOW_FROM && fuel >= 62
    ensures LoopPower(p, n, p, fuel) == Some(Pow(p, j)) && Pow(p, j) <= n < Pow(p, j) * p
  {
    LoopEnds(p, n, fuel);
    assert Pow(p, 0) == 1;
    j := PowerBelow(p, n, 0);
  }

  lemma {:induction false} PowerBelow(p: int, n: int, i: nat) returns (j: nat)
    requires p >= 2 && n >= 1 && 1 <= Pow(p, i) <= n
    ensures Pow(p, i) * p >= 1 && FirstPowerAbove(p, n, Pow(p, i) * p) / p == Pow(p, j)
    ensures Pow(p, j) <= n < Pow(p, j) * p
    decreases n - Pow(p, i)
  {
    var x := Pow(p, i);
    MulMonotone(2, p, x);
    assert x * p == p * x == Pow(p, i + 1);
    if x * p > n {
      j := i;
      ModUnique(x * p, x, p, 0);
    } else {
      j := PowerBelow(p, n, i + 1);
    }
  }

  /** In general: the first power of p whose wrapped value is above n, divided by p once. */
  lemma {:induction false} LoopPowerMeans(p: int, n: int, j: nat, fuel: nat) returns (k: nat)
    requires p >= 1 && n >= 1
    ensures j <= k && forall i :: j <= i < k ==> Wrap(Pow(p, i)) <= n
    ensures LoopPower(p, n, Wrap(Pow(p, j)), fuel)
         == if k <= j + fuel && Wrap(Pow(p, k)) > n then Some(Wrap(Pow(p, k)) / p) else None
    decreases fuel
  {
    k := j;
    LoopPowerUnfolds(p, n, Wrap(Pow(p, j)), fuel);
    if Wrap(Pow(p, j)) <= n {
      if fuel > 0 {
        WrapAgain(Pow(p, j), p);
        assert Pow(p, j + 1) == Pow(p, j) * p;
        hide LoopPower, Wrap, Pow;
        k := LoopPowerMeans(p, n, j + 1, fuel - 1);
      }
    }
  }

  lemma WrapAgain(x: int, p: int)
    ensures Wrap(Wrap(x) * p) == Wrap(x * p)
  {
    var q := WrapIs(x);
    var r := WrapIs(Wrap(x) * p);
    var t := WrapIs(x * p);
    assert (q * TWO_64) * p == (q * p) * TWO_64;
    assert (x + q * TWO_64) * p == x * p + (q * TWO_64) * p;
    SameSigned(Wrap(Wrap(x) * p), Wrap(x * p), q * p + r - t);
  }
}
