/** The recursive factoriser and `factor`, which splits the pq of the handshake. */
module Factorization {
  import opened Arith
  import opened ModArith
  import opened NumberTheory
  import opened Options
  import opened Pigeonhole
  import opened PrimeTables
  import opened Primality
  import opened Fermats
  import opened ExponentLoops
  import opened MonteCarlos
  import opened Splitters

  // ---------- what a map of exponents stands for ----------

  type Exponents = map<int, nat>

  lemma SomeEntry(m: Exponents)
    requires |m| != 0
    ensures exists p :: p in m
  {
    var p := SomeKey(m);
    assert p in m;
  }

  /** The product of p^e over all entries. */
  ghost function Value(m: Exponents): int
    decreases |m|
  {
    if |m| == 0 then 1
    else
      SomeEntry(m);
      var p :| p in m;
      Pow(p, m[p]) * Value(m - {p})
  }

  /** Any entry can be taken out first. */
  lemma {:induction false} ValueWithout(m: Exponents, p: int)
    requires p in m
    ensures Value(m) == Pow(p, m[p]) * Value(m - {p})
    decreases |m|
  {
    var q :| q in m && Value(m) == Pow(q, m[q]) * Value(m - {q});
    if q != p {
      var rest := m - {q};
      ValueWithout(rest, p);
      ValueWithout(m - {p}, q);
      assert (m - {p}) - {q} == rest - {p};
      assert (m - {p})[q] == m[q] && rest[p] == m[p];
      Swap(Pow(q, m[q]), Pow(p, m[p]), Value(rest - {p}));
    }
  }

  lemma Swap(a: int, b: int, c: int)
    ensures a * (b * c) == b * (a * c)
  {
  }

  /** `++result[p]`. */
  function Increment(m: Exponents, p: int): Exponents {
    m[p := (if p in m then m[p] else 0) + 1]
  }

  lemma PowStep(p: int, e: nat, v: int)
    ensures Pow(p, e + 1) * v == p * (Pow(p, e) * v)
  {
    var a := Pow(p, e);
    assert (p * a) * v == p * (a * v);
  }

  lemma IncrementMultiplies(m: Exponents, p: int)
    ensures Value(Increment(m, p)) == p * Value(m)
  {
    hide Value, Pow;
    var m' := Increment(m, p);
    ValueWithout(m', p);
    assert m' - {p} == m - {p};
    PowStep(p, m'[p] - 1, Value(m - {p}));
    if p in m {
      ValueWithout(m, p);
    } else {
      assert m - {p} == m;
      PowZero(p);
    }
  }

  ghost predicate PrimeExponents(m: Exponents) {
    forall p :: p in m ==> IsPrime(p) && m[p] >= 1
  }

  /** A prime dividing the value is one of the entries. */
  lemma {:induction false} PrimeFactorIsEntry(m: Exponents, p: int)
    requires PrimeExponents(m) && IsPrime(p) && Divides(p, Value(m))
    ensures p in m
    decreases |m|
  {
    if |m| == 0 {
      DividesBound(p, 1);
    } else {
      var q :| q in m && Value(m) == Pow(q, m[q]) * Value(m - {q});
      Euclid(p, Pow(q, m[q]), Value(m - {q}));
      if Divides(p, Pow(q, m[q])) {
        PrimeDividesPower(p, q, m[q]);
        SamePrime(p, q);
      } else {
        PrimeFactorIsEntry(m - {q}, p);
      }
    }
  }

  lemma {:induction false} PrimeDividesPower(p: int, q: int, e: nat)
    requires IsPrime(p) && Divides(p, Pow(q, e))
    ensures Divides(p, q)
  {
    if e == 0 {
      DividesBound(p, 1);
    } else {
      Euclid(p, q, Pow(q, e - 1));
      if !Divides(p, q) {
        PrimeDividesPower(p, q, e - 1);
      }
    }
  }

  lemma SamePrime(p: int, q: int)
    requires IsPrime(p) && IsPrime(q) && Divides(p, q)
    ensures p == q
  {
    DividesBound(p, q);
  }

  lemma EntryDivides(m: Exponents, p: int)
    requires p in m && m[p] >= 1
    ensures Divides(p, Value(m))
  {
    hide Value, Pow;
    ValueWithout(m, p);
    var v := Value(m - {p});
    PowStep(p, m[p] - 1, v);
    var k := Pow(p, m[p] - 1) * v;
    assert p * k == k * p;
    DividesIntro(p, Value(m), k);
  }

  // ---------- factorize ----------

  /** How a call goes: it returns, it divides by zero, or it is not done within the rounds and calls allowed. */
  datatype Outcome = Done | DivisionByZero | Open

  ghost predicate PositiveDivisor(d: int, n: int) {
    d >= 1 && Divides(d, n)
  }

  lemma ExactQuotient(d: int, n: int)
    requires n >= 1 && PositiveDivisor(d, n)
    ensures n / d >= 1 && d * (n / d) == n && n / d <= n && d <= n
  {
    var k :| k * d == n;
    ModUnique(n, k, d, 0);
    if k <= 0 {
      MulMonotone(k, 0, d);
    }
    MulAtLeast(d, k);
    MulAtLeast(k, d);
    assert d * k == k * d;
  }

  /** A composite number that is a difference of squares has a closest factor above 1. */
  lemma CompositeIsSplit(n: int, d: int)
    requires n > 1 && n % 4 != 2 && !IsPrime(n) && ClosestFactor(d, n)
    ensures d > 1
  {
    if n % 2 == 1 {
      hide IsPrime, ClosestFactor, Divides;
      var p := SmallestFactor(n);
      LargestBelowRoot(n, d);
      PrimeAtLeastTwo(p);
    } else {
      hide IsPrime, Divides;
      var k := FourTimes(n);
      assert 2 * (2 * k) == n && (2 + 2 * k) % 2 == 0;
    }
  }

  lemma FourTimes(n: int) returns (k: int)
    requires n > 1 && n % 4 != 2 && n % 2 != 1
    ensures n == 4 * k && k >= 1
  {
    k := n / 4;
  }

  lemma ClosestIsProper(n: int, d: int)
    requires n > 1 && ClosestFactor(d, n)
    ensures PositiveDivisor(d, n) && d < n
  {
    if d >= n {
      MulMonotone(n, d, d);
      MulMonotone(2, d, n);
    }
  }

  lemma SmallDivisor(d: int, n: int, depth: nat)
    requires n >= 1 && SmallestProperFactor(d, n) && depth > 0
    ensures IsPrime(d) && d * (n / d) == n && 1 <= n / d <= n
    ensures n < Pow2(depth) ==> n / d < Pow2(depth - 1)
  {
    ExactQuotient(d, n);
    PrimeAtLeastTwo(d);
    MulMonotone(2, d, n / d);
  }

  /** Trial division by the primes up to 1000 finds nothing exactly for what is not positive. */
  lemma NothingSmall(d: int, n: int)
    requires d >= 0 && n < 1000 * 1000 && n != 1 && !IsPrime(n)
    requires (d == 1 ==> IsPrime(n)) && (d > 1 ==> SmallestProperFactor(d, n)) && (d == 0 ==> n < 2 || n >= 1000 * 1000)
    ensures d == 0 <==> n <= 0
    ensures n > 0 ==> d > 1
  {
  }

  lemma PrimeIsPositive(n: int)
    requires IsPrime(n)
    ensures n >= 2
  {
  }

  lemma NoPowerBelowOne()
    ensures Pow2(0) == 1
  {
  }

  /** Every divisor of n besides 1 and n is prime. */
  ghost predicate PrimeParts(n: int) {
    forall d :: PositiveDivisor(d, n) && 1 < d < n ==> IsPrime(d)
  }

  lemma PartsArePrime(n: int, d: int)
    requires n >= 1 && PositiveDivisor(d, n) && d > 1
    ensures PrimeParts(n) && d < n ==> IsPrime(d) && IsPrime(n / d)
  {
    ExactQuotient(d, n);
    DividesIntro(n / d, n, d);
    hide IsPrime, Divides;
    MulMonotone(2, d, n / d);
    assert d < n ==> n / d != 1;
  }

  lemma SemiprimeParts(p: int, q: int, n: int)
    requires IsPrime(p) && IsPrime(q) && n == p * q
    ensures PrimeParts(n)
  {
    hide IsPrime, Divides;
    forall d | PositiveDivisor(d, n) && 1 < d < n
      ensures IsPrime(d)
    {
      SemiprimeDivisor(p, q, n, d);
    }
  }

  lemma SemiprimeDivisor(p: int, q: int, n: int, d: int)
    requires IsPrime(p) && IsPrime(q) && n == p * q && Divides(d, n) && 1 < d < n
    ensures IsPrime(d)
  {
    hide IsPrime, Divides;
    var r := SmallestFactor(d);
    DividesTrans(r, d, n);
    Euclid(r, p, q);
    if Divides(r, p) {
      SamePrime(r, p);
      DivisorWithFactor(r, q, d);
    } else {
      SamePrime(r, q);
      assert p * q == q * p;
      DivisorWithFactor(r, p, d);
    }
  }

  /** A divisor of r m that the prime r divides, with m prime, is r or r m. */
  lemma DivisorWithFactor(r: int, m: int, d: int)
    requires IsPrime(r) && IsPrime(m) && d > 1 && Divides(d, r * m) && Divides(r, d)
    ensures d == r || d == r * m
  {
    var a :| a * r == d;
    var b :| b * d == r * m;
    assert r * m == m * r && b * (a * r) == (b * a) * r;
    Cancel(b * a, m, r);
    DividesIntro(a, m, b);
    if a <= 0 {
      MulMonotone(a, 0, r);
    }
    PrimeDivisor(m, a);
    assert m * r == r * m;
  }

  lemma PrimeDivisor(m: int, a: int)
    requires IsPrime(m) && a >= 1 && Divides(a, m)
    ensures a == 1 || a == m
  {
    DividesBound(a, m);
  }

  lemma OddPair(p: int, q: int)
    requires IsPrime(p) && IsPrime(q) && 2 < p < q
    ensures (p * q) % 4 != 2
  {
    OddPrime(p);
    OddPrime(q);
    var a, b := p / 2, q / 2;
    assert p == 2 * a + 1 && q == 2 * b + 1;
    assert p * q == 2 * (2 * (a * b) + a + b) + 1;
  }

  lemma AMillion(n: int, depth: nat)
    requires depth >= 20
    ensures n < 1000 * 1000 ==> n < Pow2(depth)
  {
    assert Pow2(4) == 16;
    hide Pow2;
    EightDoublings(4);
    EightDoublings(12);
    Pow2Grows(20, depth);
  }

  lemma Reassociate(v: int, d: int, q: int)
    ensures (v * d) * q == v * (d * q)
  {
  }

  lemma GcdWith(n: int, c: int, m: int)
    requires n == 5 * m && IsPrime(m) && m > 28 && c == 28
    ensures SGcd(c, n) == 1
  {
    hide IsPrime, Divides;
    var d := Gcd(c, n);
    SGcdAbs(c, n);
    GcdDivides(c, n);
    GcdBounds(c, n);
    if d > 1 {
      var r := SmallestFactor(d);
      DividesTrans(r, d, c);
      DividesTrans(r, d, n);
      DividesBound(r, c);
      FiveIsPrime();
      Euclid(r, 5, m);
      if Divides(r, 5) {
        SamePrime(r, 5);
        DividesRem(5, c);
      } else {
        SamePrime(r, m);
      }
    }
  }

  lemma FiveIsPrime()
    ensures IsPrime(5)
  {
    forall d | 2 <= d < 5
      ensures !Divides(d, 5)
    {
      DividesRem(d, 5);
    }
  }

  lemma GcdWithFive(n: int)
    requires n > 0 && n % 5 != 0
    ensures SGcd(5, n) == 1
  {
    hide IsPrime, Divides;
    SGcdAbs(5, n);
    GcdDivides(5, n);
    GcdBounds(5, n);
    FiveIsPrime();
    PrimeDivisor(5, Gcd(5, n));
    DividesRem(5, n);
  }

  /** The search for a base of p-1 ends with 5, or else with 28. */
  lemma BaseIsFound(n: int, fuel: nat)
    requires n >= 1000 * 1000 && PrimeParts(n) && fuel >= 1
    ensures MinusOne(n, fuel).Some?
  {
    hide IsPrime, Divides, TryPowers, SGcd;
    ModUnique(5, 0, n, 5);
    if n % 5 != 0 {
      GcdWithFive(n);
    } else {
      var m := n / 5;
      DividesIntro(m, n, 5);
      assert IsPrime(m);
      GcdWith(n, 28, m);
      TwentyEight(n);
      assert BaseFrom(5, n, fuel).Some?;
    }
  }

  lemma TwentyEight(n: int)
    requires n >= 1000 * 1000
    ensures NextBase(5, n) == 28
  {
    ModUnique(25, 0, n, 25);
    ModUnique(28, 0, n, 28);
  }

  /**
   What the model leaves open: the numbers `rand` gives, the answers of `lucas_selfridge`, the rounded
   square root, and how long an unbounded loop is waited for.
   */
  datatype World = World(rand: nat -> nat, lucas: int -> bool, root: int -> int, fuel: nat)
  {
    /** The last test of `isprime` is exact on every number that reaches it; the root is off by rounding only. */
    ghost predicate Ok() {
      && (forall k :: k >= 29 * 29 ==> (lucas(k) <==> IsPrime(k)))
      && (forall n :: 2 <= n < TWO_63 ==> 0 <= root(n) < TWO_63 && StartsLow(root(n), n))
    }

    lemma RootFits(n: int)
      requires Ok() && 2 <= n < TWO_63
      ensures 0 <= root(n) < TWO_63 && StartsLow(root(n), n)
    {
    }

    // ---------- one round of splitters, when `k` random numbers have been drawn ----------

    /** What Monte Carlo finds; none if an exponent loop is not done in time. */
    ghost function Sought(n: int, k: nat): Option<int>
      requires n > 1
    {
      MonteCarlo(OddPrimeList(), n, rand(k) % 98 + 2, fuel)
    }

    /** Monte Carlo finds nothing, and Pollard's rho nothing but n. */
    ghost predicate Stuck(n: int, k: nat)
      requires n > 1
    {
      Sought(n, k) == Some(1) && RhoStuck(n, rand(k + 1) % n, 100000)
    }

    /** Neither of the two finds anything, so that p-1 is tried. */
    ghost predicate Tried(n: int, k: nat)
      requires n > 1
    {
      Sought(n, k) == Some(1) && RhoFails(n, rand(k + 1) % n, 100000)
    }

    /** p-1 does not find anything either. */
    ghost predicate BentAsked(n: int, k: nat)
      requires n > 1
    {
      Tried(n, k) && MinusOne(n, fuel) == Some(1)
    }

    /** `pollard_bent` gives a negative number. */
    ghost predicate Negative(n: int, k: nat)
      requires n > 1
    {
      BentAsked(n, k) && Bent(n, rand(k + 2) % n) < 0
    }

    /** Some loop is not done in time, or `ferma` is asked for what it never finds. */
    ghost predicate Hangs(n: int, k: nat)
      requires n > 1
    {
      || Sought(n, k) == None
      || (Tried(n, k) && MinusOne(n, fuel) == None)
      || (BentAsked(n, k) && Bent(n, rand(k + 2) % n) == 1 && n % 4 == 2)
    }

    lemma Excluded(n: int, k: nat)
      requires n > 1
      ensures Negative(n, k) ==> !Hangs(n, k) && !Stuck(n, k)
      ensures Stuck(n, k) ==> !Hangs(n, k) && !Tried(n, k)
    {
      hide Gcd, Gap, MonteCarlo, MinusOne, Bent;
    }

    // ---------- a composite all of whose proper divisors are prime ----------

    /** The outcome of `factorize` within `depth` nested calls: stuck rounds repeat the call with n. */
    ghost function Run(n: int, k: nat, depth: nat): Outcome
      requires n > 1
      decreases depth
    {
      if depth == 0 || Hangs(n, k) then Open
      else if Negative(n, k) then DivisionByZero
      else if Stuck(n, k) then Run(n, k + 2, depth - 1)
      else Done
    }

    /** Rounds before the r-th are stuck. */
    ghost predicate StuckBefore(n: int, k: nat, r: nat)
      requires n > 1
    {
      forall j: nat :: j < r ==> Stuck(n, k + 2 * j)
    }

    lemma StuckFirst(n: int, k: nat, r: nat)
      requires n > 1
      ensures StuckBefore(n, k, r + 1) <==> Stuck(n, k) && StuckBefore(n, k + 2, r)
    {
      hide Stuck;
      if Stuck(n, k) && StuckBefore(n, k + 2, r) {
        forall j: nat | j < r + 1
          ensures Stuck(n, k + 2 * j)
        {
          assert j > 0 ==> k + 2 * j == (k + 2) + 2 * (j - 1);
        }
      }
      if StuckBefore(n, k, r + 1) {
        assert Stuck(n, k + 2 * 0);
        forall j: nat | j < r
          ensures Stuck(n, k + 2 + 2 * j)
        {
          assert (k + 2) + 2 * j == k + 2 * (j + 1);
        }
      }
    }

    /** The first round that is not stuck decides. */
    lemma {:induction false} RunMeans(n: int, k: nat, depth: nat) returns (r: nat)
      requires n > 1
      ensures r <= depth && StuckBefore(n, k, r) && (r < depth ==> !Stuck(n, k + 2 * r))
      ensures Run(n, k, depth) == if r == depth || Hangs(n, k + 2 * r) then Open
                                  else if Negative(n, k + 2 * r) then DivisionByZero else Done
      decreases depth
    {
      hide Stuck, Hangs, Negative;
      if depth == 0 || !Stuck(n, k) {
        r := 0;
      } else {
        Excluded(n, k);
        var q := RunMeans(n, k + 2, depth - 1);
        r := q + 1;
        StuckFirst(n, k, q);
        assert k + 2 + 2 * q == k + 2 * r;
      }
    }

    /** With rounds enough nothing hangs for a number that is not twice an odd one. */
    lemma NeverHangs(n: int, k: nat)
      requires n >= 1000 * 1000 && n % 4 != 2 && PrimeParts(n) && EnoughRounds(n, fuel)
      ensures !Hangs(n, k)
    {
      assert fuel >= 1;
      hide IsPrime, EnoughRounds, MonteCarlo, TryPowers;
      MonteCarloEnds(OddPrimeList(), n, rand(k) % 98 + 2, fuel);
      BaseIsFound(n, fuel);
    }

    /** So the call is left open exactly if all rounds are stuck. */
    lemma OpenExactly(n: int, k: nat, depth: nat)
      requires n >= 1000 * 1000 && n % 4 != 2 && PrimeParts(n) && EnoughRounds(n, fuel)
      ensures Run(n, k, depth) == Open <==> StuckBefore(n, k, depth)
    {
      var r := RunMeans(n, k, depth);
      NeverHangs(n, k + 2 * r);
      hide Stuck, Hangs, Negative, Run;
    }
  }

  class Factorizer {
    const table: PrimeTable
    const odd: OddPrimes
    const world: World
    /** How many numbers `rand` has given. */
    var drawn: nat
    var result: Exponents

    constructor (table: PrimeTable, odd: OddPrimes, world: World)
      ensures this.table == table && this.odd == odd && this.world == world && result == map[] && drawn == 0
    {
      this.table := table;
      this.odd := odd;
      this.world := world;
      this.drawn := 0;
      this.result := map[];
    }

    method Rand() returns (r: nat)
      modifies this`drawn
      ensures r == world.rand(old(drawn)) && drawn == old(drawn) + 1
    {
      r := world.rand(drawn);
      drawn := drawn + 1;
    }

    /**
     The splitters in the order `factorize` tries them, for a composite n. They end unless some loop does not.
     A positive result is a divisor above 1, and n itself exactly when the round is stuck; a negative one
     comes from `pollard_bent`.
     */
    method FindDivisor(n: I64) returns (finished: bool, div: I64)
      requires odd.Valid() && world.Ok() && n >= 2 && !IsPrime(n)
      modifies this`drawn, odd
      ensures odd.Valid() && (world.Stuck(n, old(drawn)) ==> drawn == old(drawn) + 2)
      ensures finished <==> !world.Hangs(n, old(drawn))
      ensures finished ==> (div == n <==> world.Stuck(n, old(drawn)))
      ensures finished ==> (div < 0 <==> world.Negative(n, old(drawn)))
      ensures finished ==> div < 0 || (PositiveDivisor(div, n) && 1 < div <= n)
    {
      hide Divides, IsPrime, ClosestFactor, StartsLow, Gcd, Gap, MonteCarlo, RhoStuck, RhoFails, Bent, MinusOne;
      hide EnoughRounds;
      world.Excluded(n, drawn);
      var start := Rand();
      finished, div := PollardMonteCarlo(odd, n, start % 98 + 2, world.fuel);
      if !finished || div != 1 {
        return;
      }
      var seed := Rand();
      var steps;
      div, steps := PollardRho(n, seed % n, 100000);
      if div != 1 {
        return;
      }
      finished, div := PollardMinusOne(n, world.fuel);
      if !finished || div != 1 {
        return;
      }
      seed := Rand();
      div := PollardBent(n, seed % n);
      if div != 1 {
        return;
      }
      if n % 4 == 2 {
        return false, div;
      }
      world.RootFits(n);
      div := Ferma(n, world.root(n));
      CompositeIsSplit(n, div);
      ClosestIsProper(n, div);
    }

    /**
     `factorize`, for every number and whatever `rand` yields. Zero and negative numbers are divided by
     zero. A call that returns multiplies the product of the map by n, with primes only. It returns for
     primes, and within its depth below a million; for other numbers with prime proper divisors the
     outcome is that of the first round that is not stuck.
     */
    method Factorize(n: I64, depth: nat) returns (outcome: Outcome)
      requires world.Ok() && table.Valid() && odd.Valid() && PrimeExponents(result)
      modifies this`result, this`drawn, table, odd
      ensures table.Valid() && odd.Valid()
      ensures n <= 0 ==> outcome == DivisionByZero && result == Increment(old(result), 0)
      ensures n < 1000 * 1000 ==> (outcome == DivisionByZero <==> n <= 0)
      ensures outcome != DivisionByZero ==> PrimeExponents(result)
      ensures outcome == Done ==> Value(result) == Value(old(result)) * n
      ensures n == 1 || IsPrime(n) || (1 <= n < 1000 * 1000 && n < Pow2(depth)) ==> outcome == Done
      ensures n >= 1000 * 1000 && PrimeParts(n) && !IsPrime(n) ==> outcome == world.Run(n, old(drawn), depth)
      decreases depth, 1
    {
      hide Value, IsPrime, Divides, SmallestProperFactor, PrimeExponents, PrimeParts, Pow2;
      NoPowerBelowOne();
      if n == 1 {
        return Done;
      }
      var prime := IsPrimeTest(table, n, world.lucas(n));
      if prime {
        PrimeIsPositive(n);
        Enter(n);
        return Done;
      }
      if n < 1000 * 1000 {
        outcome := FactorizeSmall(n, depth);
      } else {
        outcome := FactorizeLarge(n, depth);
      }
    }

    /** Composite numbers below a million, and what is not positive: trial division. */
    method FactorizeSmall(n: I64, depth: nat) returns (outcome: Outcome)
      requires n < 1000 * 1000 && n != 1 && !IsPrime(n)
      requires world.Ok() && table.Valid() && odd.Valid() && PrimeExponents(result)
      modifies this`result, this`drawn, table, odd
      ensures table.Valid() && odd.Valid()
      ensures outcome == DivisionByZero <==> n <= 0
      ensures n <= 0 ==> result == Increment(old(result), 0)
      ensures n > 0 ==> PrimeExponents(result) && (n < Pow2(depth) ==> outcome == Done)
      ensures outcome == Done ==> Value(result) == Value(old(result)) * n
      decreases depth, 0
    {
      hide Value, IsPrime, Divides, SmallestProperFactor, PrimeExponents, Pow2;
      NoPowerBelowOne();
      var div := PrimeDivTrivial(table, n, 1000);
      NothingSmall(div, n);
      if div == 0 {
        result := Increment(result, 0);
        return DivisionByZero;
      }
      ghost var before := Value(result);
      SmallDivisor(div, n, if depth > 0 then depth else 1);
      Enter(div);
      if depth == 0 {
        return Open;
      }
      outcome := Factorize(n / div, depth - 1);
      Reassociate(before, div, n / div);
    }

    /** Composite numbers from a million on: whatever divisor is found is factorised, and so is the quotient. */
    method FactorizeLarge(n: I64, depth: nat) returns (outcome: Outcome)
      requires n >= 1000 * 1000 && !IsPrime(n)
      requires world.Ok() && table.Valid() && odd.Valid() && PrimeExponents(result)
      modifies this`result, this`drawn, table, odd
      ensures table.Valid() && odd.Valid()
      ensures outcome != DivisionByZero ==> PrimeExponents(result)
      ensures outcome == Done ==> Value(result) == Value(old(result)) * n
      ensures PrimeParts(n) ==> outcome == world.Run(n, old(drawn), depth)
      decreases depth, 0
    {
      hide Value, IsPrime, Divides, PrimeExponents, PrimeParts, Pow2, PositiveDivisor;
      hide World.Stuck, World.Hangs, World.Negative, World.Tried, World.BentAsked;
      if depth == 0 {
        return Open;
      }
      ghost var before := Value(result);
      var finished, div := FindDivisor(n);
      if !finished {
        return Open;
      }
      if div > 0 {
        ExactQuotient(div, n);
        PartsArePrime(n, div);
      }
      outcome := Factorize(div, depth - 1);
      if outcome != Done {
        return;
      }
      outcome := Factorize(n / div, depth - 1);
      Reassociate(before, div, n / div);
    }

    method Enter(p: int)
      requires IsPrime(p) && PrimeExponents(result)
      modifies this`result
      ensures PrimeExponents(result) && Value(result) == Value(old(result)) * p
    {
      hide Value;
      IncrementMultiplies(result, p);
      result := Increment(result, p);
    }
  }

  // ---------- factor ----------

  /** The keys of a map below `bound`, in increasing order: the order in which `std::map` is walked. */
  function KeysBelow(m: Exponents, bound: nat): (s: seq<int>)
    ensures forall i :: 0 <= i < |s| ==> s[i] in m && 0 <= s[i] < bound
    ensures forall i, j :: 0 <= i < j < |s| ==> s[i] < s[j]
    ensures forall p :: p in m && 0 <= p < bound ==> p in s
  {
    if bound == 0 then [] else KeysBelow(m, bound - 1) + (if bound - 1 in m then [bound - 1] else [])
  }

  /** A map of prime exponents with product p * q holds exactly p and q. */
  lemma TwoPrimes(m: Exponents, p: int, q: int)
    requires PrimeExponents(m) && IsPrime(p) && IsPrime(q) && Value(m) == p * q
    ensures m.Keys == {p, q}
  {
    DividesSelf(p, q);
    DividesSelf(q, p);
    assert q * p == p * q;
    PrimeFactorIsEntry(m, p);
    PrimeFactorIsEntry(m, q);
    forall r | r in m
      ensures r == p || r == q
    {
      EntryDivides(m, r);
      Euclid(r, p, q);
      if Divides(r, p) {
        SamePrime(r, p);
      } else {
        SamePrime(r, q);
      }
    }
  }

  lemma TwoKeysInOrder(m: Exponents, p: int, q: int, bound: nat)
    requires m.Keys == {p, q} && 0 <= p < q < bound
    ensures KeysBelow(m, bound) == [p, q]
  {
    hide KeysBelow;
    var s := KeysBelow(m, bound);
    assert Elements(s) == {p, q};
    DistinctSize(s);
    assert s[0] in s && s[1] in s;
  }

  lemma PrimePair(p: int, q: int)
    requires IsPrime(p) && IsPrime(q)
    ensures p >= 2 && q >= 2 && p <= p * q && q <= p * q
  {
    MulAtLeast(p, q);
    MulAtLeast(q, p);
    assert p * q == q * p;
  }

  lemma PairIsRead(m: Exponents, p: int, q: int, pq: int)
    requires PrimeExponents(m) && IsPrime(p) && IsPrime(q) && p < q && pq == p * q && Value(m) == pq
    ensures pq >= 0 && KeysBelow(m, pq + 1) == [p, q]
  {
    hide Value, IsPrime, PrimeExponents;
    PrimePair(p, q);
    TwoPrimes(m, p, q);
    TwoKeysInOrder(m, p, q, pq + 1);
  }

  /** The cast of 64 bits to a signed number. */
  function AsSigned(x: U64): (r: I64)
    ensures (x - r) % TWO_64 == 0
  {
    if x < TWO_63 then x else x - TWO_64
  }

  /**
   `factor` on a product of two different 32-bit primes. From 2^63 on the cast makes it negative, and
   dividing by zero ends the program. Below, both primes are returned, the smaller one first, if the
   first round of splitters that is not stuck finds one of them.
   */
  method Factor(table: PrimeTable, odd: OddPrimes, world: World, pq: U64, depth: nat, ghost p: int, ghost q: int)
    returns (outcome: Outcome, r0: int, r1: int)
    requires table.Valid() && odd.Valid() && world.Ok()
    requires IsPrime(p) && IsPrime(q) && p < q < TWO_32 && pq == p * q
    modifies table, odd
    ensures table.Valid() && odd.Valid()
    ensures pq >= TWO_63 ==> outcome == DivisionByZero
    ensures outcome == Done ==> r0 == p && r1 == q
    ensures pq < 1000 * 1000 ==> outcome != DivisionByZero && (depth >= 20 ==> outcome == Done)
    ensures 1000 * 1000 <= pq < TWO_63 ==> outcome == world.Run(pq, 0, depth)
    ensures 1000 * 1000 <= pq < TWO_63 && p > 2 && EnoughRounds(pq, world.fuel) ==>
              (outcome == Open <==> world.StuckBefore(pq, 0, depth))
  {
    PairFacts(p, q, pq);
    if 1000 * 1000 <= pq && p > 2 && EnoughRounds(pq, world.fuel) {
      world.OpenExactly(pq, 0, depth);
    }
    var n: I64 := AsSigned(pq);
    hide *;
    var m;
    outcome, m := Split(table, odd, world, n, depth);
    r0, r1 := 0, 0;
    if outcome == Done {
      PairIsRead(m, p, q, pq);
      r0, r1 := FirstTwo(m, pq);
      SmallCast(p);
      SmallCast(q);
    }
  }

  /** A cast to 32 bits. */
  function Cast(x: int): int {
    x % TWO_32
  }

  lemma SmallCast(x: int)
    requires 0 <= x < TWO_32
    ensures Cast(x) == x
  {
  }

  /** The map `factor` fills, for every number. */
  method Split(table: PrimeTable, odd: OddPrimes, world: World, n: I64, depth: nat)
    returns (outcome: Outcome, m: Exponents)
    requires table.Valid() && odd.Valid() && world.Ok()
    modifies table, odd
    ensures table.Valid() && odd.Valid()
    ensures n < 1000 * 1000 ==> (outcome == DivisionByZero <==> n <= 0)
    ensures outcome == Done ==> PrimeExponents(m) && Value(m) == n
    ensures 1 <= n < 1000 * 1000 && depth >= 20 ==> outcome == Done
    ensures n >= 1000 * 1000 && PrimeParts(n) && !IsPrime(n) ==> outcome == world.Run(n, 0, depth)
  {
    hide *;
    EmptyValue();
    if depth >= 20 {
      AMillion(n, depth);
    }
    var f := new Factorizer(table, odd, world);
    outcome := f.Factorize(n, depth);
    m := f.result;
    assert 1 * n == n;
  }

  /** What `Factorize` needs to know of a product of two primes. */
  lemma PairFacts(p: int, q: int, n: int)
    requires IsPrime(p) && IsPrime(q) && p < q && n == p * q
    ensures n > 1 && p >= 2 && PrimeParts(n) && !IsPrime(n) && (p > 2 ==> n % 4 != 2)
  {
    DividesSelf(q, p);
    PrimePair(p, q);
    assert n > q by { MulMonotone(2, p, q); }
    hide IsPrime, PrimeParts, Pow2;
    PrimePair(p, q);
    SemiprimeParts(p, q, n);
    if p > 2 {
      PrimeAtLeastTwo(p);
      OddPair(p, q);
    }
  }

  /** `std::advance` over the map, and the casts. */
  method FirstTwo(m: Exponents, pq: nat) returns (r0: int, r1: int)
    requires |KeysBelow(m, pq + 1)| >= 2
    ensures r0 == Cast(KeysBelow(m, pq + 1)[0]) && r1 == Cast(KeysBelow(m, pq + 1)[1])
  {
    hide *;
    var keys := KeysBelow(m, pq + 1);
    r0, r1 := Cast(keys[0]), Cast(keys[1]);
  }

  lemma EmptyValue()
    ensures PrimeExponents(map[]) && Value(map[]) == 1
  {
  }
}
