/**
 The modular arithmetic of `mtx/src/fact.cpp`, in machine integers: every value
 kept in a `U64` or `I64` variable is checked to fit, so no step wraps around.
 */
module ModArith {
  import opened Arith
  import opened NumberTheory

  type U64 = x: int | 0 <= x < TWO_64
  type I64 = x: int | -TWO_63 <= x < TWO_63

  function Abs(x: int): nat {
    if x < 0 then -x else x
  }

  /** A signed result of 64 bits, wrapped around when it does not fit. */
  function Wrap(x: int): (w: int)
    ensures -TWO_63 <= w < TWO_63
    ensures -TWO_63 <= x < TWO_63 ==> w == x
  {
    (x + TWO_63) % TWO_64 - TWO_63
  }

  lemma WrapIs(x: int) returns (q: int)
    ensures Wrap(x) == x + q * TWO_64
  {
    DivMod(x + TWO_63, TWO_64);
    q := -((x + TWO_63) / TWO_64);
  }

  /** Remainder of the truncating division of C: it takes the sign of the dividend. */
  function CRem(a: int, n: int): (r: int)
    requires n > 0
    ensures -n < r < n
    ensures a >= 0 ==> r >= 0
    ensures a <= 0 ==> r <= 0
  {
    if a >= 0 then a % n else -((-a) % n)
  }

  lemma CRemCong(a: int, n: int)
    requires n > 0
    ensures Cong(CRem(a, n), a, n) && Cong(a, CRem(a, n), n)
  {
    if a >= 0 {
      CongMod(a, n);
    } else {
      CongMod(-a, n);
      assert -((-a) % n) - a == (-a) - (-a) % n;
      CongSym(CRem(a, n), a, n);
    }
  }

  /** The subtraction loops of `mulmod`. */
  method Reduce(x: U64, n: U64) returns (r: U64)
    requires n > 0
    ensures r == x % n
  {
    r := x;
    ghost var q := 0;
    while r >= n
      invariant x == q * n + r
      decreases r
    {
      assert (q + 1) * n == q * n + n;
      r := r - n;
      q := q + 1;
    }
    ModUnique(x, q, n, r);
  }

  lemma SumMod(x: int, y: int, z: int, n: int)
    requires n > 0 && Cong(x + y, z, n)
    ensures Cong(x % n + y, z, n)
  {
    CongMod(x, n);
    assert (x % n + y) - (x + y) == x % n - x;
    CongTrans(x % n + y, x + y, z, n);
  }

  lemma AddStep(res: int, a: int, b: int, z: int, n: int)
    requires n > 0 && Cong(res + a * b, z, n)
    ensures Cong((res + a) % n + a * (b - 1), z, n)
  {
    assert (res + a) + a * (b - 1) == res + a * b;
    SumMod(res + a, a * (b - 1), z, n);
  }

  lemma DoubleStep(res: int, a: int, b: int, z: int, n: int)
    requires n > 0 && b % 2 == 0 && Cong(res + a * b, z, n)
    ensures Cong(res + ((2 * a) % n) * (b / 2), z, n)
  {
    var h := b / 2;
    assert a * b == (2 * a) * h by { assert b == 2 * h; }
    CongMod(2 * a, n);
    CongRefl(h, n);
    CongMul((2 * a) % n, 2 * a, h, h, n);
    assert (res + ((2 * a) % n) * h) - (res + a * b) == ((2 * a) % n) * h - (2 * a) * h;
    CongTrans(res + ((2 * a) % n) * h, res + a * b, z, n);
  }

  lemma StartProduct(a0: int, b0: int, n: int)
    requires n > 0
    ensures Cong(0 + (a0 % n) * (b0 % n), a0 * b0, n)
  {
    CongMod(a0, n);
    CongMod(b0, n);
    CongMul(a0 % n, a0, b0 % n, b0, n);
  }

  lemma EndProduct(res: int, a: int, z: int, n: int)
    requires n > 0 && 0 <= res < n && Cong(res + a * 0, z, n)
    ensures res == z % n
  {
    CongMod(z, n);
    assert res + a * 0 == res;
    CongTrans(res, z, z % n, n);
    CongSmall(res, z % n, n);
  }

  /** Multiplication modulo n by doubling and adding. */
  method MulModU(a0: U64, b0: U64, n: U64) returns (r: U64)
    requires 0 < n < TWO_63
    ensures r == (a0 * b0) % n
  {
    hide Cong;
    var a: U64, b: U64 := a0, b0;
    if a >= n {
      a := a % n;
    }
    if b >= n {
      b := b % n;
    }
    assert a == a0 % n && b == b0 % n by { SmallMod(a0, n); SmallMod(b0, n); }
    StartProduct(a0, b0, n);
    var res: U64 := 0;
    while b != 0
      invariant res < n && a < n
      invariant Cong(res + a * b, a0 * b0, n)
      decreases b
    {
      if b % 2 == 1 {
        AddStep(res, a, b, a0 * b0, n);
        res := res + a;
        res := Reduce(res, n);
        b := b - 1;
      } else {
        DoubleStep(res, a, b, a0 * b0, n);
        a := 2 * a;
        a := Reduce(a, n);
        b := b / 2;
      }
    }
    EndProduct(res, a, a0 * b0, n);
    r := res;
  }

  lemma SmallMod(x: nat, n: nat)
    requires n > 0
    ensures x < n ==> x % n == x
    ensures x % n < n
  {
    if x < n {
      ModUnique(x, 0, n, x);
    }
  }

  /** The signed multiplication works on absolute values and puts the sign back. */
  method MulMod(a0: I64, b0: I64, n: I64) returns (r: I64)
    requires n > 0 && a0 > -TWO_63 && b0 > -TWO_63
    ensures r == CRem(a0 * b0, n)
  {
    var neg := false;
    var a: I64, b: I64 := a0, b0;
    if a < 0 {
      neg := !neg;
      a := -a;
    }
    if b < 0 {
      neg := !neg;
      b := -b;
    }
    assert a * b == if neg then -(a0 * b0) else a0 * b0 by { Signs(a0, b0, a, b); }
    var aa: U64 := MulModU(a, b, n);
    r := aa * (if neg then -1 else 1);
    SignOfProduct(a, b);
  }

  lemma Signs(a0: int, b0: int, a: int, b: int)
    requires a == (if a0 < 0 then -a0 else a0) && b == (if b0 < 0 then -b0 else b0)
    ensures a * b == if (a0 < 0) != (b0 < 0) then -(a0 * b0) else a0 * b0
  {
  }

  lemma SignOfProduct(a: nat, b: nat)
    ensures a * b >= 0
  {
  }

  /** An odd exponent: one factor moves into the result. */
  lemma PowOdd(res: int, a: int, k: nat, n: int)
    requires n > 0 && k > 0
    ensures Cong(CRem(res * a, n) * Pow(a, k - 1), res * Pow(a, k), n)
  {
    CRemCong(res * a, n);
    var rest := Pow(a, k - 1);
    CongRefl(rest, n);
    CongMul(CRem(res * a, n), res * a, rest, rest, n);
    assert (res * a) * rest == res * (a * rest);
  }

  /** An even exponent: the base is squared and the exponent halved. */
  lemma PowEven(res: int, a: int, k: nat, n: int)
    requires n > 0 && k % 2 == 0
    ensures Cong(res * Pow(CRem(a * a, n), k / 2), res * Pow(a, k), n)
  {
    CRemCong(a * a, n);
    CongPow(CRem(a * a, n), a * a, k / 2, n);
    PowSquare(a, k / 2);
    CongRefl(res, n);
    CongMul(res, res, Pow(CRem(a * a, n), k / 2), Pow(a, k), n);
  }

  /** The power that is left to compute, times what has been collected; remainders truncate. */
  function PowLoop(res: int, a: int, k: nat, n: int): int
    requires n > 0
    decreases k
  {
    if k == 0 then res
    else if k % 2 == 1 then PowLoop(CRem(res * a, n), a, k - 1, n)
    else PowLoop(res, CRem(a * a, n), k / 2, n)
  }

  /** Modular power by squaring. */
  method PowMod(a0: I64, k0: I64, n: I64) returns (r: I64)
    requires n > 0 && a0 > -TWO_63 && k0 >= 0
    ensures r == PowLoop(1, a0, k0, n) && (n > 1 ==> -n < r < n)
    ensures Cong(r, Pow(a0, k0), n)
    ensures n > 1 && a0 >= 0 ==> r == Pow(a0, k0) % n
  {
    hide Cong, CRem, Pow;
    var res: I64, a: I64, k: I64 := 1, a0, k0;
    CongRefl(Pow(a0, k0), n);
    while k != 0
      invariant k >= 0 && a > -TWO_63 && res > -TWO_63
      invariant Cong(res * Pow(a, k), Pow(a0, k0), n)
      invariant PowLoop(res, a, k, n) == PowLoop(1, a0, k0, n)
      invariant a0 >= 0 ==> a >= 0 && res >= 0
      invariant n > 1 ==> -n < res < n
      decreases k
    {
      if k % 2 == 1 {
        PowOdd(res, a, k, n);
        Product2(res, a);
        CongTrans(CRem(res * a, n) * Pow(a, k - 1), res * Pow(a, k), Pow(a0, k0), n);
        res := MulMod(res, a, n);
        k := k - 1;
      } else {
        PowEven(res, a, k, n);
        Product2(a, a);
        CongTrans(res * Pow(CRem(a * a, n), k / 2), res * Pow(a, k), Pow(a0, k0), n);
        a := MulMod(a, a, n);
        k := k / 2;
      }
    }
    PowZero(a);
    r := res;
    if n > 1 && a0 >= 0 {
      CongMod(Pow(a0, k0), n);
      CongTrans(r, Pow(a0, k0), Pow(a0, k0) % n, n);
      CongSmall(r, Pow(a0, k0) % n, n);
    }
  }

  lemma PowZero(a: int)
    ensures Pow(a, 0) == 1
  {
  }

  lemma Product2(x: int, y: int)
    ensures x >= 0 && y >= 0 ==> x * y >= 0
  {
  }

  /** What `powmod` computes is congruent to the power. */
  lemma {:induction false} PowLoopCong(res: int, a: int, k: nat, n: int)
    requires n > 0
    ensures Cong(PowLoop(res, a, k, n), res * Pow(a, k), n)
    decreases k
  {
    if k == 0 {
      CongRefl(res, n);
    } else if k % 2 == 1 {
      PowLoopCong(CRem(res * a, n), a, k - 1, n);
      PowOdd(res, a, k, n);
      CongTrans(PowLoop(res, a, k, n), CRem(res * a, n) * Pow(a, k - 1), res * Pow(a, k), n);
    } else {
      PowLoopCong(res, CRem(a * a, n), k / 2, n);
      PowEven(res, a, k, n);
      CongTrans(PowLoop(res, a, k, n), res * Pow(CRem(a * a, n), k / 2), res * Pow(a, k), n);
    }
  }

  lemma {:induction false} PowLoopRange(res: int, a: int, k: nat, n: int)
    requires n > 1 && 0 <= res < n && 0 <= a
    ensures 0 <= PowLoop(res, a, k, n) < n
    decreases k
  {
    if k > 0 {
      assert res * a >= 0 && a * a >= 0;
      if k % 2 == 1 {
        PowLoopRange(CRem(res * a, n), a, k - 1, n);
      } else {
        PowLoopRange(res, CRem(a * a, n), k / 2, n);
      }
    }
  }

  lemma PowLoopIs(a: int, k: nat, n: int)
    requires n > 1 && a >= 0
    ensures PowLoop(1, a, k, n) == Pow(a, k) % n
  {
    PowLoopRange(1, a, k, n);
    PowLoopCong(1, a, k, n);
    CongMod(Pow(a, k), n);
    CongTrans(PowLoop(1, a, k, n), Pow(a, k), Pow(a, k) % n, n);
    CongSmall(PowLoop(1, a, k, n), Pow(a, k) % n, n);
  }

  /** Splits a positive number into a power of two and an odd factor. */
  method TransformNum(n0: I64) returns (p: I64, q: I64)
    requires n0 > 0
    ensures 0 <= p && q % 2 == 1 && 0 < q <= n0 && n0 == Pow2(p) * q
  {
    var n: I64 := n0;
    p := 0;
    while n % 2 == 0
      invariant 0 < n <= n0 && 0 <= p && p + n <= n0
      invariant n0 == Pow2(p) * n
      decreases n
    {
      HalveStep(p, n);
      p := p + 1;
      n := n / 2;
    }
    q := n;
  }

  lemma HalveStep(p: nat, n: int)
    requires n % 2 == 0
    ensures Pow2(p) * n == Pow2(p + 1) * (n / 2)
  {
    assert Pow2(p) * n == Pow2(p) * (2 * (n / 2)) == (2 * Pow2(p)) * (n / 2);
  }

  /** Euclid's algorithm, as `gcd` recurses. */
  function Gcd(a: nat, b: nat): (g: nat)
    ensures a > 0 || b > 0 ==> g > 0
    decreases a
  {
    if a == 0 then b else Gcd(b % a, a)
  }

  /** The result is a common divisor, and every common divisor divides it. */
  lemma {:induction false} GcdIsGreatest(a: nat, b: nat, d: int)
    ensures Divides(d, Gcd(a, b)) <==> Divides(d, a) && Divides(d, b)
    decreases a
  {
    if a == 0 {
      DividesIntro(d, 0, 0);
    } else {
      GcdIsGreatest(b % a, a, d);
      DivMod(b, a);
      var q := b / a;
      if Divides(d, a) {
        DividesScaled(d, a, q);
        if Divides(d, b) {
          DividesSum(d, b, q * a);
        }
        if Divides(d, b % a) {
          DividesSum(d, b % a, q * a);
          assert b % a + q * a == b;
        }
      }
    }
  }

  lemma GcdDivides(a: nat, b: nat)
    ensures Divides(Gcd(a, b), a) && Divides(Gcd(a, b), b)
  {
    DividesSelf(Gcd(a, b), 1);
    GcdIsGreatest(a, b, Gcd(a, b));
  }

  lemma GcdBounds(a: nat, n: nat)
    requires n > 0
    ensures 1 <= Gcd(a, n) <= n
  {
    GcdDivides(a, n);
    DividesBound(Gcd(a, n), n);
  }

  // ---------- the gcd of signed numbers ----------

  /** Remainder of C for a divisor of either sign. */
  function SRem(a: int, d: int): (r: int)
    requires d != 0
    ensures Abs(r) == Abs(a) % Abs(d)
  {
    CRem(a, Abs(d))
  }

  /** `gcd` as it recurses on signed numbers: the result may be negative. */
  function SGcd(a: int, b: int): int
    decreases Abs(a)
  {
    if a == 0 then b else SGcd(SRem(b, a), a)
  }

  lemma {:induction false} SGcdAbs(a: int, b: int)
    ensures Abs(SGcd(a, b)) == Gcd(Abs(a), Abs(b))
    ensures a >= 0 && b >= 0 ==> SGcd(a, b) == Gcd(a, b)
    decreases Abs(a)
  {
    if a != 0 {
      SGcdAbs(SRem(b, a), a);
    }
  }

  /** How many divisions Euclid's algorithm makes. */
  function Divisions(a: nat, b: nat): nat
    decreases a
  {
    if a == 0 then 0 else 1 + Divisions(b % a, a)
  }

  /** For a negative first number the result is negative exactly when the number of divisions is odd. */
  lemma {:induction false} NegativeExactly(a: int, b: int)
    requires a > 0 && b > 0
    ensures SGcd(-a, b) < 0 <==> Divisions(a, b) % 2 == 1
    decreases a
  {
    hide *;
    var r, t := TwoDivisions(a, b);
    if r > 0 && t > 0 {
      NegativeExactly(t, r);
    } else if r > 0 {
      NoDivision(r);
    }
  }

  lemma TwoDivisions(a: int, b: int) returns (r: int, t: int)
    requires a > 0 && b > 0
    ensures 0 <= t <= r < a
    ensures r == 0 ==> SGcd(-a, b) == -a && Divisions(a, b) == 1
    ensures r > 0 ==> t < r && SGcd(-a, b) == SGcd(-t, r) && Divisions(a, b) == 2 + Divisions(t, r)
  {
    r, t := b % a, 0;
    OneDivision(a, b);
    hide SGcd, SRem, Divisions;
    if r > 0 {
      t := a % r;
      OneDivision(r, a);
    }
  }

  lemma NoDivision(b: int)
    ensures SGcd(0, b) == b && Divisions(0, if b < 0 then -b else b) == 0
  {
  }

  /** One division, from a negative first number and from a negative second one. */
  lemma OneDivision(a: int, b: int)
    requires a > 0 && b > 0
    ensures 0 <= b % a < a
    ensures SGcd(-a, b) == SGcd(b % a, -a) && SGcd(a, -b) == SGcd(-(b % a), a)
    ensures Divisions(a, b) == 1 + Divisions(b % a, a)
    ensures b % a == 0 ==> SGcd(-a, b) == -a && Divisions(a, b) == 1
  {
    Remainders(a, b);
    hide *;
    SGcdUnfolds(-a, b);
    SGcdUnfolds(a, -b);
    DivisionsUnfold(a, b);
    NoDivision(-a);
  }

  lemma Remainders(a: int, b: int)
    requires a > 0 && b > 0
    ensures SRem(b, -a) == b % a && SRem(-b, a) == -(b % a) && 0 <= b % a < a
  {
  }

  lemma SGcdUnfolds(a: int, b: int)
    requires a != 0
    ensures SGcd(a, b) == SGcd(SRem(b, a), a)
  {
    hide SRem;
  }

  lemma DivisionsUnfold(a: int, b: int)
    requires a > 0 && b > 0
    ensures b % a >= 0 && Divisions(a, b) == 1 + Divisions(b % a, a)
  {
  }

  /** A combination of two numbers that is 1. */
  lemma Coprime(a: nat, b: nat, u: int, v: int)
    requires u * a + v * b == 1
    ensures Gcd(a, b) == 1
  {
    var d := Gcd(a, b);
    GcdDivides(a, b);
    DividesScaled(d, a, u);
    DividesScaled(d, b, v);
    DividesSum(d, u * a, v * b);
    DividesBound(d, 1);
  }
}
