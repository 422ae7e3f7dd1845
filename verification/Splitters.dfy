/** Pollard's methods, which look for a divisor of a composite from a random start. */
module Splitters {
  import opened Arith
  import opened ModArith
  import opened NumberTheory
  import opened Options

  // ---------- Pollard's rho ----------

  /** The i-th iterate of t -> t^2 + 1 modulo n, from x. */
  function Iterate(x: int, n: int, i: nat): (t: int)
    requires n > 0
    ensures 0 <= t < n
  {
    if i == 0 then x % n else (Iterate(x, n, i - 1) * Iterate(x, n, i - 1) + 1) % n
  }

  /** Modulo a divisor of n the iterates are the iterates modulo that divisor. */
  lemma {:induction false} IterateModDivisor(x: int, n: int, p: int, i: nat)
    requires n > 0 && p > 0 && Divides(p, n)
    ensures Cong(Iterate(x, n, i), Iterate(x, p, i), p)
  {
    if i == 0 {
      ThroughMod(x, x, n, p);
    } else {
      IterateModDivisor(x, n, p, i - 1);
      var a, b := Iterate(x, n, i - 1), Iterate(x, p, i - 1);
      CongMul(a, b, a, b, p);
      assert (a * a + 1) - (b * b + 1) == a * a - b * b;
      ThroughMod(a * a + 1, b * b + 1, n, p);
    }
  }

  lemma ThroughMod(a: int, b: int, n: int, p: int)
    requires n > 0 && p > 0 && Divides(p, n)
    requires a == b || Cong(a, b, p)
    ensures Cong(a % n, b % p, p)
  {
    if a == b {
      CongRefl(a, p);
    }
    CongMod(a, n);
    DividesTrans(p, n, a % n - a);
    CongTrans(a % n, a, b, p);
    CongMod(b, p);
    CongTrans(a % n, b, b % p, p);
  }

  /** One step of the slow sequence: square, add one, wrap. */
  method SquarePlusOne(b: I64, n: I64) returns (r: I64)
    requires n > 0 && 0 <= b <= n
    ensures r == (b * b + 1) % n
  {
    var t: I64 := MulModSquare(b, n);
    t := t + 1;
    if t == n {
      t := 0;
    }
    r := t;
    AddOneMod(b * b, n);
  }

  method MulModSquare(b: I64, n: I64) returns (r: I64)
    requires n > 0 && 0 <= b <= n
    ensures r == (b * b) % n && 0 <= r < n
  {
    Product2(b, b);
    r := MulMod(b, b, n);
  }

  lemma AddOneMod(x: int, n: int)
    requires n > 0
    ensures (x + 1) % n == if x % n + 1 == n then 0 else x % n + 1
  {
    ModAdd(x, 1, n);
    if x % n + 1 == n {
      ModUnique(n, 1, n, 0);
    } else {
      ModUnique(x % n + 1, 0, n, x % n + 1);
    }
  }

  /** The fast sequence takes two steps and reduces only after the second. */
  lemma TwoSteps(b: int, n: int)
    requires n > 0
    ensures var t := (b * b) % n + 1; (t * t + 1) % n == (((b * b + 1) % n) * ((b * b + 1) % n) + 1) % n
  {
    var t, u := (b * b) % n + 1, (b * b + 1) % n;
    ModAdd(b * b, 1, n);
    CongMod(t, n);
    CongMul(t, u, t, u, n);
    assert (t * t + 1) - (u * u + 1) == t * t - u * u;
    CongToMod(t * t + 1, u * u + 1, n);
  }

  lemma CongToMod(a: int, b: int, n: int)
    requires n > 0 && Cong(a, b, n)
    ensures a % n == b % n
  {
    CongMod(a, n);
    CongMod(b, n);
    CongTrans(a % n, a, b, n);
    CongTrans(a % n, b, b % n, n);
    CongSmall(a % n, b % n, n);
  }

  /** The number whose gcd with n is taken at step i. */
  function Gap(x: int, n: int, i: nat): nat
    requires n > 0
  {
    Abs(Iterate(x, n, 2 * i + 1) - Iterate(x, n, i))
  }

  /** What the loop of `pollard_rho` knows after `i` steps. */
  ghost predicate RhoState(x: int, n: int, i: nat, b0: int, b1: int, g: int)
    requires n > 0
  {
    && b0 == Iterate(x, n, i) && b1 == Iterate(x, n, 2 * i + 1)
    && g == Gcd(Gap(x, n, i), n)
  }

  /** Two steps of the fast sequence; the first leaves its sum unreduced. */
  method SquarePlusOneTwice(b: I64, n: I64) returns (r: I64)
    requires n > 0 && 0 <= b < n
    ensures r == (((b * b + 1) % n) * ((b * b + 1) % n) + 1) % n
  {
    TwoSteps(b, n);
    r := MulModSquare(b, n);
    r := r + 1;
    r := SquarePlusOne(r, n);
  }

  /** The body of the loop. */
  method RhoStep(x: I64, n: I64, a0: I64, a1: I64, ghost g0: int, ghost i: nat) returns (b0: I64, b1: I64, g: I64)
    requires n > 0 && RhoState(x, n, i, a0, a1, g0)
    ensures 0 <= b0 < n && 0 <= b1 < n && 1 <= g <= n && RhoState(x, n, i + 1, b0, b1, g)
  {
    hide Iterate, Gcd;
    b0 := SquarePlusOne(a0, n);
    b1 := SquarePlusOneTwice(a1, n);
    NextIterates(x, n, i, a0, a1, b0, b1);
    GcdBounds(Abs(b1 - b0), n);
    g := Gcd(Abs(b1 - b0), n);
  }

  lemma NextIterates(x: int, n: int, i: nat, a0: int, a1: int, b0: int, b1: int)
    requires n > 0 && a0 == Iterate(x, n, i) && a1 == Iterate(x, n, 2 * i + 1)
    requires b0 == (a0 * a0 + 1) % n
    requires b1 == (((a1 * a1 + 1) % n) * ((a1 * a1 + 1) % n) + 1) % n
    ensures b0 == Iterate(x, n, i + 1) && b1 == Iterate(x, n, 2 * (i + 1) + 1)
  {
    hide Iterate;
    IterateStep(x, n, i);
    IterateStep(x, n, 2 * i + 1);
    IterateStep(x, n, 2 * i + 2);
    assert 2 * (i + 1) + 1 == 2 * i + 3;
  }

  /** Up to step k every gcd is 1 or n, and at step k it is n. */
  ghost predicate RhoStuck(n: int, x: int, k: nat)
    requires n > 0
  {
    && (forall i :: 0 <= i < k ==> Gcd(Gap(x, n, i), n) == 1 || Gcd(Gap(x, n, i), n) == n)
    && Gcd(Gap(x, n, k), n) == n
  }

  /** Up to step k every gcd is 1 or n, and at step k it is 1. */
  ghost predicate RhoFails(n: int, x: int, k: nat)
    requires n > 0
  {
    && (forall i :: 0 <= i < k ==> Gcd(Gap(x, n, i), n) == 1 || Gcd(Gap(x, n, i), n) == n)
    && Gcd(Gap(x, n, k), n) == 1
  }

  /** From a number that is its own successor Pollard's rho stays stuck, however long it runs. */
  lemma FixedPointSticks(n: int, x: int, k: nat)
    requires n > 1 && 0 <= x < n && (x * x + 1) % n == x
    ensures RhoStuck(n, x, k)
  {
    forall i: nat | i <= k
      ensures Gap(x, n, i) == 0
    {
      Alternates(n, x, x, i);
      Alternates(n, x, x, 2 * i + 1);
    }
    GcdOfZero(n);
    hide Gcd, Gap;
  }

  lemma {:induction false} Alternates(n: int, x: int, y: int, i: nat)
    requires n > 1 && 0 <= x < n && (x * x + 1) % n == y && (y * y + 1) % n == x
    ensures Iterate(x, n, i) == if i % 2 == 0 then x else y
  {
    hide Iterate;
    IterateStart(x, n);
    if i > 0 {
      Alternates(n, x, y, i - 1);
      IterateStep(x, n, i - 1);
    }
  }

  /** From one of two numbers that follow each other Pollard's rho finds nothing in any even number of steps. */
  lemma TwoCycleFails(n: int, x: int, y: int, k: nat)
    requires n > 1 && 0 <= x < n && (x * x + 1) % n == y && (y * y + 1) % n == x
    requires Gcd(Abs(y - x), n) == 1 && k % 2 == 0
    ensures RhoFails(n, x, k)
  {
    GcdOfZero(n);
    hide Gcd;
    forall i: nat | i <= k
      ensures Gap(x, n, i) == if i % 2 == 0 then Abs(y - x) else 0
    {
      Alternates(n, x, y, i);
      Alternates(n, x, y, 2 * i + 1);
      hide Iterate;
    }
    hide Gap;
  }

  lemma GcdOfZero(n: nat)
    requires n > 0
    ensures Gcd(0, n) == n
  {
    assert Gcd(n, 0) == n;
  }

  /**
   `pollard_rho`: stops at the first step with a gcd other than 1 and n, or after `iterations`.
   Every p dividing n for which the two sequences meet modulo p at that step divides the result.
   */
  method PollardRho(n: I64, x: I64, iterations: nat) returns (g: I64, steps: nat)
    requires n > 0 && 0 <= x < n
    ensures steps <= iterations && g == Gcd(Gap(x, n, steps), n)
    ensures Divides(g, n) && 1 <= g <= n
    ensures g == 1 || g == n ==> steps == iterations
    ensures n > 1 ==> (g == n <==> RhoStuck(n, x, iterations)) && (g == 1 <==> RhoFails(n, x, iterations))
    ensures forall i :: 0 <= i < steps ==> Gcd(Gap(x, n, i), n) == 1 || Gcd(Gap(x, n, i), n) == n
    ensures forall p :: p > 0 && Divides(p, n) && Iterate(x, p, steps) == Iterate(x, p, 2 * steps + 1) ==> Divides(p, g)
  {
    hide Divides, Iterate, Gcd;
    var b0: I64 := x;
    IterateStart(x, n);
    var b1: I64 := SquarePlusOne(b0, n);
    GcdBounds(Abs(b1 - b0), n);
    g := Gcd(Abs(b1 - b0), n);
    steps := 0;
    while steps < iterations && (g == 1 || g == n)
      invariant steps <= iterations && 1 <= g <= n && RhoState(x, n, steps, b0, b1, g)
      invariant forall i :: 0 <= i < steps ==> Gcd(Gap(x, n, i), n) == 1 || Gcd(Gap(x, n, i), n) == n
    {
      b0, b1, g := RhoStep(x, n, b0, b1, g, steps);
      steps := steps + 1;
    }
    GcdDivides(Gap(x, n, steps), n);
    forall p | p > 0 && Divides(p, n) && Iterate(x, p, steps) == Iterate(x, p, 2 * steps + 1)
      ensures Divides(p, g)
    {
      MeetingDivides(x, n, p, steps);
    }
  }

  lemma IterateStart(x: int, n: int)
    requires n > 0 && 0 <= x < n
    ensures Iterate(x, n, 0) == x && Iterate(x, n, 1) == (x * x + 1) % n
  {
    ModUnique(x, 0, n, x);
  }

  lemma IterateStep(x: int, n: int, i: nat)
    requires n > 0
    ensures Iterate(x, n, i + 1) == (Iterate(x, n, i) * Iterate(x, n, i) + 1) % n
  {
  }

  lemma MeetingDivides(x: int, n: int, p: int, i: nat)
    requires n > 0 && p > 0 && Divides(p, n) && Iterate(x, p, i) == Iterate(x, p, 2 * i + 1)
    ensures Divides(p, Gcd(Gap(x, n, i), n))
  {
    var a, b, m := Iterate(x, n, i), Iterate(x, n, 2 * i + 1), Iterate(x, p, i);
    IterateModDivisor(x, n, p, i);
    IterateModDivisor(x, n, p, 2 * i + 1);
    CongSym(a, m, p);
    CongTrans(b, m, a, p);
    DividesScaled(p, b - a, -1);
    assert -1 * (b - a) == a - b;
    GcdIsGreatest(Gap(x, n, i), n, p);
  }

  // ---------- Pollard's p-1 with small primes ----------

  /** The base after `a`. */
  function NextBase(a: int, n: int): (b: int)
    requires n > 0
    ensures -n < b < n
  {
    CRem(Wrap(CRem(a * a, n) + 3), n)
  }

  /** With n three below the signed limit the next base is a^2 + 3 modulo n. */
  lemma NextBaseIs(a: int, n: int)
    requires 0 < n <= TWO_63 - 3
    ensures Cong(NextBase(a, n), a * a + 3, n)
  {
    var r := CRem(a * a, n);
    CRemCong(a * a, n);
    CRemCong(r + 3, n);
    assert r + 3 - (a * a + 3) == r - a * a;
    hide *;
    CongTrans(CRem(r + 3, n), r + 3, a * a + 3, n);
  }

  /** The first base from `a` on that has no factor in common with n; none within `fuel` steps. */
  function BaseFrom(a: int, n: int, fuel: nat): Option<int>
    requires n > 0
    decreases fuel
  {
    if SGcd(a, n) == 1 then Some(a)
    else if fuel == 0 then None
    else BaseFrom(NextBase(a, n), n, fuel - 1)
  }

  /** The powers tried: the largest ones of the primes up to 13 that are not above 13. */
  const SMALL_PRIMES: seq<int> := [2, 3, 5, 7, 11, 13]
  const LOGARITHMS: seq<nat> := [3, 2, 1, 1, 1, 1]

  /** What is found with base `a` and the primes from the i-th on: the first gcd between 1 and n, else 1. */
  function TryPowers(a: int, n: int, i: nat): int
    requires n > 1 && i <= 6
    decreases 6 - i
  {
    if i == 6 then 1
    else
      var power := PowLoop(1, a, Pow(SMALL_PRIMES[i], LOGARITHMS[i]) % n, n);
      var g := SGcd(power - 1, n);
      if power != 0 && 1 < g < n then g else TryPowers(a, n, i + 1)
  }

  /** The result of `pollard_p_1`: the later of its ten rounds repeat the first. */
  function MinusOne(n: int, fuel: nat): Option<int>
    requires n > 1
  {
    match BaseFrom(5 % n, n, fuel)
    case None => None
    case Some(a) => Some(TryPowers(a, n, 0))
  }

  /** The powers are the largest ones, of all primes up to 13, that are not above 13. */
  lemma SmallPowersAre(i: nat)
    requires i < 6
    ensures Pow(SMALL_PRIMES[i], LOGARITHMS[i]) <= 13 < Pow(SMALL_PRIMES[i], LOGARITHMS[i] + 1)
    ensures SMALL_PRIMES == [2, 3, 5, 7, 11, 13]
  {
    assert Pow(2, 3) == 8 && Pow(3, 2) == 9 && Pow(5, 1) == 5 && Pow(7, 1) == 7 && Pow(11, 1) == 11 && Pow(13, 1) == 13;
    assert Pow(2, 4) == 16 && Pow(3, 3) == 27 && Pow(5, 2) == 25 && Pow(7, 2) == 49 && Pow(11, 2) == 121;
    assert Pow(13, 2) == 169;
    hide Pow;
  }

  /** The power of `a` tried with the i-th prime, modulo n, and what it has in common with n when 1 is taken off. */
  function PowerTried(a: nat, n: int, i: nat): (x: nat)
    requires n > 1 && i < 6
    ensures x < n
  {
    Pow(a, Pow(SMALL_PRIMES[i], LOGARITHMS[i]) % n) % n
  }

  ghost predicate HitAt(a: nat, n: int, i: nat)
    requires n > 1 && i < 6
  {
    PowerTried(a, n, i) != 0 && 1 < Gcd(PowerTried(a, n, i) - 1, n) < n
  }

  /** One prime: a hit is the result, otherwise the next prime decides. */
  lemma TryStep(a: nat, n: int, i: nat)
    requires n > 1 && i < 6
    ensures TryPowers(a, n, i) == if HitAt(a, n, i) then Gcd(PowerTried(a, n, i) - 1, n) else TryPowers(a, n, i + 1)
  {
    SmallExponent(i, n);
    var e := Pow(SMALL_PRIMES[i], LOGARITHMS[i]) % n;
    PowLoopIs(a, e, n);
    var x := PowerTried(a, n, i);
    assert x == Pow(a, e) % n;
    hide PowerTried, Pow, PowLoop;
    if x != 0 {
      SGcdAbs(x - 1, n);
    }
    hide SGcd, Gcd;
  }

  /** The first gcd between 1 and n decides, from a base that is not negative; 1 if there is none. */
  lemma {:induction false} TryPowersMeans(a: nat, n: int, i: nat) returns (k: nat)
    requires n > 1 && i <= 6
    ensures i <= k <= 6 && (forall j :: i <= j < k ==> !HitAt(a, n, j)) && (k < 6 ==> HitAt(a, n, k))
    ensures TryPowers(a, n, i) == if k == 6 then 1 else Gcd(PowerTried(a, n, k) - 1, n)
    decreases 6 - i
  {
    k := i;
    if i == 6 {
      hide HitAt, PowerTried, Gcd;
    } else {
      TryStep(a, n, i);
      assert HitAt(a, n, i) ==> PowerTried(a, n, i) != 0;
      hide *;
      if !HitAt(a, n, i) {
        k := TryPowersMeans(a, n, i + 1);
      }
    }
  }

  /** A divisor other than 1 and n, or 1. */
  ghost predicate ProperOrOne(g: int, n: int) {
    g == 1 || (1 < g < n && Divides(g, n))
  }

  /** The loop that looks for a base. */
  method FindBase(a0: I64, n: I64, fuel: nat) returns (finished: bool, a: I64)
    requires n > 1 && -n < a0 < n
    ensures BaseFrom(a0, n, fuel) == if finished then Some(a) else None
    ensures -n < a < n && (finished ==> BaseFrom(a, n, fuel) == Some(a))
  {
    hide SGcd, CRem, Wrap;
    a := a0;
    var left := fuel;
    while SGcd(a, n) != 1 && left > 0
      invariant left >= 0 && -n < a < n && BaseFrom(a, n, left) == BaseFrom(a0, n, fuel)
      decreases left
    {
      a := MulMod(a, a, n);
      var sum: I64 := Wrap(a + 3);
      a := CRem(sum, n);
      left := left - 1;
    }
    finished := SGcd(a, n) == 1;
  }

  /** The loop over the primes. */
  method TryBase(a: I64, n: I64) returns (g: I64)
    requires n > 1 && -n < a < n
    ensures g == TryPowers(a, n, 0) && ProperOrOne(g, n)
  {
    hide PowLoop, SGcd, Pow;
    var i := 0;
    while i < 6
      invariant 0 <= i <= 6 && TryPowers(a, n, i) == TryPowers(a, n, 0)
    {
      SmallExponent(i, n);
      var exponent := PowMod(SMALL_PRIMES[i], LOGARITHMS[i], n);
      var power := PowMod(a, exponent, n);
      if power != 0 {
        g := SGcdInRange(power - 1, n);
        if 1 < g && g < n {
          return;
        }
      }
      i := i + 1;
    }
    g := 1;
  }

  lemma SmallExponent(i: nat, n: int)
    requires i < 6 && n > 1
    ensures 2 <= SMALL_PRIMES[i] <= 13 && 0 <= Pow(SMALL_PRIMES[i], LOGARITHMS[i]) % n < n
  {
  }

  /** `gcd` of a difference with n. */
  method SGcdInRange(a: I64, n: I64) returns (g: I64)
    requires n > 1 && -n <= a < n
    ensures g == SGcd(a, n) && (g > 0 ==> Divides(g, n))
  {
    SGcdAbs(a, n);
    GcdDivides(Abs(a), n);
    GcdBounds(Abs(a), n);
    g := SGcd(a, n);
  }

  /** `pollard_p_1`: the result is 1 or a proper divisor, if the search for a base ends. */
  method PollardMinusOne(n: I64, fuel: nat) returns (finished: bool, g: I64)
    requires n > 1
    ensures MinusOne(n, fuel) == if finished then Some(g) else None
    ensures finished ==> ProperOrOne(g, n)
  {
    hide TryPowers, ProperOrOne, BaseFrom, SGcd;
    var a: I64 := 5 % n;
    var j := 0;
    while j < 10
      invariant 0 <= j <= 10 && -n < a < n && BaseFrom(a, n, fuel) == BaseFrom(5 % n, n, fuel)
      invariant j > 0 ==> BaseFrom(a, n, fuel) == Some(a) && TryPowers(a, n, 0) == 1
    {
      finished, a := FindBase(a, n, fuel);
      if !finished {
        return finished, 1;
      }
      g := TryBase(a, n);
      if g != 1 {
        return;
      }
      j := j + 1;
    }
    NothingFound(n);
    return true, 1;
  }

  lemma NothingFound(n: int)
    ensures ProperOrOne(1, n)
  {
  }

  // ---------- Pollard's method in the form of Bent ----------

  /** b^2 + 2 in 64 bits, then its truncating remainder. */
  function BentStep(b: int, n: int): (r: int)
    requires n > 0
    ensures -n < r < n
  {
    CRem(Wrap(Wrap(b * b) + 2), n)
  }

  /** While the square fits in 63 bits, the step is b^2 + 2 modulo n. */
  lemma BentStepIs(b: nat, n: int)
    requires n > 0 && b * b + 2 < TWO_63
    ensures BentStep(b, n) == (b * b + 2) % n
  {
  }

  /** The result of `pollard_bent`: all but the first difference are zero. */
  function Bent(n: int, x: int): int
    requires n > 0
  {
    var g := SGcd(Wrap(BentStep(x, n) - x), n);
    if g == n then 1 else g
  }

  /**
   `pollard_bent`. Its inner loop asks a gcd to be 1 and n at once, so it never runs. The difference of
   the first two iterates may be negative, and so may its gcd with n: the result is 1, a proper divisor
   of n, or a negative one.
   */
  method PollardBent(n: I64, x: I64) returns (g: I64)
    requires n > 1 && 0 <= x < n
    ensures g == Bent(n, x)
    ensures g == 1 || g < 0 || (1 < g < n && Divides(g, n))
  {
    hide SGcd;
    var b0: I64 := x;
    var square: I64 := Wrap(b0 * b0);
    var sum: I64 := Wrap(square + 2);
    var b1: I64 := CRem(sum, n);
    var a: I64 := b1;
    ZeroGcd(n);
    var iteration := 0;
    while iteration < 19
      invariant if iteration == 0 then b0 == x && b1 == a == BentStep(x, n) else b0 == b1 == a
      invariant iteration > 0 ==> Bent(n, x) == 1
    {
      var difference: I64 := Wrap(b1 - b0);
      GcdFits(difference, n);
      g := SGcd(difference, n);
      b0 := a;
      a := b1;
      if g != 1 && g != n {
        return;
      }
      iteration := iteration + 1;
    }
    return 1;
  }

  lemma ZeroGcd(n: int)
    ensures SGcd(0, n) == n
  {
  }

  lemma GcdFits(a: int, n: int)
    requires n > 1
    ensures -n <= SGcd(a, n) <= n && SGcd(a, n) != 0 && (SGcd(a, n) > 0 ==> Divides(SGcd(a, n), n))
  {
    SGcdAbs(a, n);
    GcdDivides(Abs(a), n);
    GcdBounds(Abs(a), n);
  }

  /** A negative difference gives a negative result exactly when Euclid's algorithm divides an odd number of times. */
  lemma BentIsNegative(n: int, x: int)
    requires n > 1
    ensures var d := Wrap(BentStep(x, n) - x); Bent(n, x) < 0 <==> d < 0 && Divisions(-d, n) % 2 == 1
  {
    var d := Wrap(BentStep(x, n) - x);
    if d < 0 {
      NegativeExactly(-d, n);
    } else {
      SGcdAbs(d, n);
    }
  }
}
