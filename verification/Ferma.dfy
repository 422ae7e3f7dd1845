/** Fermat's difference-of-squares search (`ferma`). */
module Fermats {
  import opened Arith
  import opened ModArith
  import opened NumberTheory

  /** x^2 - y^2 = n with 0 <= y <= x. */
  ghost predicate Represents(x: int, y: int, n: int) {
    0 <= y <= x && x * x - y * y == n
  }

  /** `sq_root` may be off by the rounding of a double, but does not exceed the rounded-up root. */
  ghost predicate StartsLow(x0: int, n: int) {
    x0 >= 0 && x0 * x0 < TWO_63 && (x0 == 0 || (x0 - 1) * (x0 - 1) < n)
  }

  /** A representation in reach of any search: with factors 1 and n, or 2 and n/2. */
  lemma FarRepresentation(n: int) returns (x: int, y: int)
    requires n >= 1 && n % 4 != 2
    ensures Represents(x, y, n) && 2 * x <= n + 2 && 2 * y < n && (n % 2 == 1 ==> 2 * x <= n + 1)
  {
    if n % 2 == 1 {
      y := n / 2;
      x := y + 1;
      Neighbours(y);
    } else {
      var k := n / 4;
      x, y := k + 1, k - 1;
      TwoApart(k);
    }
  }

  lemma Neighbours(y: int)
    ensures (y + 1) * (y + 1) - y * y == 2 * y + 1
  {
  }

  lemma TwoApart(k: int)
    ensures (k + 1) * (k + 1) - (k - 1) * (k - 1) == 4 * k
  {
  }

  lemma Squares(x: int, y: int)
    ensures x * x - y * y == (x - y) * (x + y)
  {
  }

  /** The search never steps past a representation. */
  lemma NoOvershootY(x: int, y: int, xx: int, yy: int, n: int)
    requires Represents(xx, yy, n) && 0 <= x <= xx && 0 <= y <= yy && x * x - y * y > n
    ensures y < yy
  {
    MulMonotone(x, xx, x);
    MulMonotone(x, xx, xx);
  }

  lemma NoOvershootX(x: int, y: int, xx: int, yy: int, n: int)
    requires Represents(xx, yy, n) && 0 <= x <= xx && 0 <= y <= yy && x * x - y * y < n
    ensures x < xx
  {
    MulMonotone(y, yy, y);
    MulMonotone(y, yy, yy);
  }

  lemma StartBelow(x0: int, xx: int, yy: int, n: int)
    requires StartsLow(x0, n) && Represents(xx, yy, n)
    ensures x0 <= xx
  {
    if x0 > xx {
      MulMonotone(xx, x0 - 1, xx);
      MulMonotone(xx, x0 - 1, x0 - 1);
      MulMonotone(0, yy, yy);
    }
  }

  /** Factors of the same parity are a representation. */
  lemma FactorsRepresent(e: int, f: int, n: int)
    requires e * f == n && 1 <= e <= f && (e + f) % 2 == 0
    ensures Represents((e + f) / 2, (f - e) / 2, n)
  {
    var x, y := (e + f) / 2, (f - e) / 2;
    Squares(x, y);
    assert x - y == e && x + y == f;
  }

  /** The first representation met has the largest smaller factor. */
  lemma FirstIsClosest(x: int, y: int, n: int, e: int, f: int)
    requires Represents(x, y, n) && n >= 1
    requires e * f == n && 1 <= e <= f && (e + f) % 2 == 0 && x <= (e + f) / 2 && y <= (f - e) / 2
    ensures e <= x - y
  {
    Squares(x, y);
    if e > x - y {
      MulStrict(x - y, x + y, e, f);
    }
  }

  lemma MulStrict(d: int, s: int, e: int, f: int)
    requires 0 <= d < e && s <= f && f >= 1
    ensures d * s < e * f
  {
    MulMonotone(s, f, d);
    MulMonotone(d + 1, e, f);
    assert (d + 1) * f == d * f + f;
  }

  /** What every round of the search keeps: r is the error, and no representation has been passed. */
  ghost predicate Searching(x: int, y: int, r: int, n: int) {
    && 0 <= x && 0 <= y && r == x * x - y * y - n
    && -n <= r <= 2 * x
    && forall xx, yy :: Represents(xx, yy, n) ==> x <= xx && y <= yy
  }

  lemma SearchStarts(x0: int, n: int)
    requires n >= 1 && StartsLow(x0, n)
    ensures Searching(x0, 0, x0 * x0 - n, n)
  {
    assert (x0 - 1) * (x0 - 1) == x0 * x0 - 2 * x0 + 1;
    NonNegativeSquare(x0);
    forall xx, yy | Represents(xx, yy, n)
      ensures x0 <= xx && 0 <= yy
    {
      StartBelow(x0, xx, yy, n);
    }
  }

  lemma SearchBounds(x: int, y: int, r: int, n: int, xx: int, yy: int)
    requires Searching(x, y, r, n) && Represents(xx, yy, n)
    ensures 0 <= x <= xx && 0 <= y <= yy && -n <= r <= 2 * x
  {
  }

  lemma NonNegativeSquare(x: int)
    ensures x * x >= 0
  {
  }

  lemma StepY(x: int, y: int, r: int, n: int, farX: int, farY: int)
    requires n >= 1 && Searching(x, y, r, n) && r > 0
    requires Represents(farX, farY, n) && 2 * farY < n
    ensures Searching(x, y + 1, r - (y + y + 1), n)
  {
    forall xx, yy | Represents(xx, yy, n)
      ensures y + 1 <= yy
    {
      NoOvershootY(x, y, xx, yy, n);
    }
    assert (y + 1) * (y + 1) == y * y + (y + y + 1);

  }

  lemma StepX(x: int, y: int, r: int, n: int)
    requires n >= 1 && Searching(x, y, r, n) && r < 0
    ensures Searching(x + 1, y, r + (x + x + 1), n)
  {
    forall xx, yy | Represents(xx, yy, n)
      ensures x + 1 <= xx
    {
      NoOvershootX(x, y, xx, yy, n);
    }
    assert (x + 1) * (x + 1) == x * x + (x + x + 1);
  }

  /** d is the smaller factor of a divisor pair of equal parity, and no such pair is closer together. */
  ghost predicate ClosestFactor(d: int, n: int) {
    && 1 <= d && d * d <= n && Divides(d, n) && (d + n / d) % 2 == 0
    && forall e, f :: 1 <= e <= f && e * f == n && (e + f) % 2 == 0 ==> e <= d
  }

  /** Stopping at r = 0: the factors are a divisor pair, and no pair of equal parity is closer. */
  lemma SearchEnds(x: int, y: int, n: int)
    requires n >= 1 && Searching(x, y, 0, n)
    ensures y < x && ClosestFactor(x - y, n)
  {
    Squares(x, y);
    if y >= x {
      MulMonotone(x, y, x);
      MulMonotone(x, y, y);
    }
    DividesIntro(x - y, n, x + y);
    MulMonotone(x - y, x + y, x - y);
    assert n == (x + y) * (x - y) + 0;
    ModUnique(n, x + y, x - y, 0);
    assert (x - y) + (x + y) == 2 * x;
    forall e, f | 1 <= e <= f && e * f == n && (e + f) % 2 == 0
      ensures e <= x - y
    {
      FactorsRepresent(e, f, n);
      FirstIsClosest(x, y, n, e, f);
    }
  }

  /** The first value of r. */
  method StartError(x: I64, y: I64, n: I64) returns (r: I64)
    requires n >= 1 && StartsLow(x, n) && y == 0
    ensures Searching(x, y, r, n)
  {
    SearchStarts(x, n);
    NonNegativeSquare(x);
    r := x * x - y * y - n;
  }

  /** One round of the search; (farX, farY) bounds how far it can go. */
  method Round(x0: I64, y0: I64, r0: I64, n: I64, ghost farX: int, ghost farY: int) returns (x: I64, y: I64, r: I64)
    requires n >= 1 && Searching(x0, y0, r0, n) && r0 != 0
    requires Represents(farX, farY, n) && 2 * farX <= n + 2 && 2 * farX < TWO_63 + 1 && 2 * farY < n
    ensures Searching(x, y, r, n) && 0 <= x0 <= x <= farX && 0 <= y0 <= y <= farY && x + y > x0 + y0
  {
    hide Represents, Searching;
    x, y, r := x0, y0, r0;
    SearchBounds(x, y, r, n, farX, farY);
    if r > 0 {
      StepY(x, y, r, n, farX, farY);
      SearchBounds(x, y + 1, r - (y + y + 1), n, farX, farY);
      var gap: I64 := y + y + 1;
      r := r - gap;
      y := y + 1;
    } else {
      StepX(x, y, r, n);
      SearchBounds(x + 1, y, r + (x + x + 1), n, farX, farY);
      var gap: I64 := x + x + 1;
      r := r + gap;
      x := x + 1;
    }
  }

  /** `ferma`: the largest divisor of n below its root whose cofactor has the same parity. */
  method Ferma(n: I64, x0: I64) returns (d: I64)
    requires n >= 1 && n % 4 != 2 && StartsLow(x0, n)
    ensures ClosestFactor(d, n)
  {
    hide Represents, Searching, StartsLow, ClosestFactor;
    ghost var farX, farY := FarRepresentation(n);
    var x: I64, y: I64 := x0, 0;
    var r: I64 := StartError(x, y, n);
    SearchBounds(x, y, r, n, farX, farY);
    while r != 0
      invariant 0 <= x <= farX && 0 <= y <= farY && Searching(x, y, r, n)
      decreases farX - x + farY - y
    {
      x, y, r := Round(x, y, r, n, farX, farY);
    }
    SearchEnds(x, y, n);
    var divisor: int := if x != y then x - y else x + y;
    d := divisor;
  }

  /** For odd n every divisor pair has equal parity, so the result is the largest divisor below the root. */
  lemma OddFactors(n: int, e: int, f: int)
    requires n % 2 == 1 && e * f == n
    ensures (e + f) % 2 == 0
  {
    OddFactor(n, e, f);
    OddFactor(n, f, e);
    OddSum(e, f);
  }

  lemma OddFactor(n: int, e: int, f: int)
    requires n % 2 == 1 && e * f == n
    ensures e % 2 == 1
  {
    EvenTimes(e, f);
  }

  lemma OddSum(e: int, f: int)
    requires e % 2 == 1 && f % 2 == 1
    ensures (e + f) % 2 == 0
  {
  }

  /** For odd n the search ends at the largest divisor not above the root. */
  lemma LargestBelowRoot(n: int, d: int)
    requires n >= 1 && n % 2 == 1 && ClosestFactor(d, n)
    ensures 1 <= d && d * d <= n && Divides(d, n)
    ensures forall e :: 1 <= e && e * e <= n && Divides(e, n) ==> e <= d
  {
    forall e | 1 <= e && e * e <= n && Divides(e, n)
      ensures e <= d
    {
      var f :| f * e == n;
      if f < e {
        Shrinks(f, e);
      }
      assert e * f == n;
      OddFactors(n, e, f);
    }
  }

  lemma Shrinks(f: int, e: int)
    requires f < e && e >= 1
    ensures f * e < e * e
  {
    MulMonotone(f + 1, e, e);
    assert (f + 1) * e == f * e + e;
  }

  lemma EvenTimes(e: int, f: int)
    ensures e % 2 == 0 ==> (e * f) % 2 == 0
  {
    assert e * f == 2 * ((e / 2) * f) + (e % 2) * f;
  }

  /** When n is twice an odd number nothing is a representation: the search would never stop. */
  lemma NothingToFind(n: int, x: int, y: int)
    requires n % 4 == 2
    ensures x * x - y * y != n
  {
    SquareMod4(x);
    SquareMod4(y);
  }

  lemma SquareMod4(x: int)
    ensures (x * x) % 4 == 0 || (x * x) % 4 == 1
  {
    var h := x / 2;
    var q := h * h;
    if x % 2 == 0 {
      assert x * x == 4 * q by { assert x == 2 * h; }
    } else {
      assert x * x == 4 * (q + h) + 1 by { assert x == 2 * h + 1; }
    }
  }
}
