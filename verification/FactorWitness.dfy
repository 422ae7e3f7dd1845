/** Numbers on which the factoriser of `mtx/src/fact.cpp` never returns, or divides by zero. */
module FactorWitnesses {
  import opened Arith
  import opened ModArith
  import opened NumberTheory
  import opened Options
  import opened PrimeTables
  import opened ExponentLoops
  import opened MonteCarlos
  import opened Splitters
  import opened Factorization

  // ---------- powers ----------

  lemma {:induction false} PowOfOne(e: nat)
    ensures Pow(1, e) == 1
  {
    if e > 0 {
      PowOfOne(e - 1);
    }
  }

  lemma {:induction false} PowOfMinusOne(e: nat)
    ensures Pow(-1, e) == if e % 2 == 0 then 1 else -1
  {
    if e > 0 {
      PowOfMinusOne(e - 1);
    }
  }

  lemma CongDivisor(a: int, b: int, n: int, d: int)
    requires Cong(a, b, n) && Divides(d, n)
    ensures Cong(a, b, d)
  {
    DividesTrans(d, n, a - b);
  }

  /** Modulo an odd number above 1 the numbers 1 and -1 differ. */
  lemma OneIsNotMinusOne(x: int, d: int)
    requires d >= 1 && d % 2 == 1 && Cong(x, 1, d) && Cong(x, -1, d)
    ensures d == 1
  {
    CongSym(x, 1, d);
    CongTrans(1, x, -1, d);
    DividesBound(d, 2);
  }

  // ---------- Monte Carlo finds nothing ----------

  /** The exponents of the odd primes are odd. */
  lemma {:induction false} OddExponent(p: int, n: int, q: int)
    requires p >= 2 && p % 2 == 1 && q >= 1 && q % 2 == 1 && q * p >= 1
    ensures (FirstPowerAbove(p, n, q * p) / p) % 2 == 1
    decreases n - q
  {
    if q * p > n {
      ModUnique(q * p, q, p, 0);
    } else {
      OddTimes(q, p);
      MulMonotone(2, p, q);
      assert p * q == q * p;
      MulAtLeast(p, q * p);
      assert p * (q * p) == (q * p) * p;
      OddExponent(p, n, q * p);
    }
  }

  /** If some power of the start is -1, no odd power has anything but 1 in common with n after 1 is taken off. */
  lemma OddPowerMisses(n: int, b: nat, h: nat, e: nat)
    requires n > 1 && n % 2 == 1 && Cong(Pow(b, h), -1, n) && e % 2 == 1
    ensures var c := Pow(b, e) % n; Gcd(Abs(c - 1), n) == 1 && Cong(Pow(c, h), -1, n)
  {
    var c := Pow(b, e) % n;
    hide Pow, Gcd;
    CongMod(Pow(b, e), n);
    CongPow(c, Pow(b, e), h, n);
    PowPow(b, e, h);
    PowPow(b, h, e);
    assert e * h == h * e;
    CongPow(Pow(b, h), -1, e, n);
    PowOfMinusOne(e);
    CongTrans(Pow(c, h), Pow(Pow(b, h), e), -1, n);
    NothingInCommon(n, c, h);
  }

  lemma NothingInCommon(n: int, c: int, h: nat)
    requires n > 1 && n % 2 == 1 && Cong(Pow(c, h), -1, n)
    ensures Gcd(Abs(c - 1), n) == 1
  {
    hide Pow, Gcd, Divides;
    var d := Gcd(Abs(c - 1), n);
    GcdDivides(Abs(c - 1), n);
    GcdBounds(Abs(c - 1), n);
    if c - 1 < 0 {
      DividesScaled(d, Abs(c - 1), -1);
    }
    CongPow(c, 1, h, d);
    PowOfOne(h);
    CongDivisor(Pow(c, h), -1, n, d);
    OddDivisor(d, n);
    OneIsNotMinusOne(Pow(c, h), d);
  }

  lemma OddDivisor(d: int, n: int)
    requires Divides(d, n) && n % 2 == 1
    ensures d % 2 == 1
  {
    var k :| k * d == n;
    var h := d / 2;
    assert k * (2 * h) == 2 * (k * h);
  }

  lemma {:induction false} MonteCarloMisses(primes: seq<int>, n: int, b: nat, h: nat, fuel: nat)
    requires 1 < n < OVERFLOW_FROM && n % 2 == 1 && fuel >= 62 && Cong(Pow(b, h), -1, n)
    requires forall i :: 0 <= i < |primes| ==> IsPrime(primes[i]) && 3 <= primes[i] <= 100
    ensures MonteCarlo(primes, n, b, fuel) == Some(1)
  {
    hide LoopPower, Pow, Gcd, FirstPowerAbove, IsPrime, Cong;
    if primes != [] {
      var p := primes[0];
      LoopEnds(p, n, fuel);
      OddPrime(p);
      assert 1 * p == p;
      OddExponent(p, n, 1);
      var e := FirstPowerAbove(p, n, p) / p;
      OddPowerMisses(n, b, h, e);
      MonteCarloMisses(primes[1..], n, Pow(b, e) % n, h, fuel);
    }
  }

  // ---------- 1241143 = 547 * 2269 ----------

  const SAMPLE: int := 1241143

  lemma SampleParts()
    ensures IsPrime(547) && IsPrime(2269) && SAMPLE == 547 * 2269
  {
    NoDivisorBelow(547, 24);
    NoDivisorBelow(2269, 48);
  }

  lemma NoDivisorBelow(n: int, m: int)
    requires 2 < m < n < m * m && forall d :: 2 <= d < m ==> n % d != 0
    ensures IsPrime(n)
  {
    var p := SmallestFactor(n);
    PrimeAtLeastTwo(p);
    DividesRem(p, n);
    if p >= m {
      MulMonotone(m, p, m);
      MulMonotone(m, p, p);
    }
  }

  /** Monte Carlo finds nothing from 27, as the seventh power of 27 is -1. */
  lemma SampleMissed(world: World, k: nat)
    requires world.fuel >= 62 && world.rand(k) % 98 == 25
    ensures world.Sought(SAMPLE, k) == Some(1)
  {
    assert Pow(27, 7) == 10460353203;
    hide Pow, MonteCarlo;
    DividesIntro(SAMPLE, Pow(27, 7) + 1, 8428);
    MonteCarloMisses(OddPrimeList(), SAMPLE, 27, 7, world.fuel);
  }

  lemma StuckRound(world: World, k: nat)
    requires world.fuel >= 62 && world.rand(k) % 98 == 25 && world.rand(k + 1) % SAMPLE == 90843
    ensures world.Stuck(SAMPLE, k)
  {
    hide RhoStuck, MonteCarlo;
    SampleMissed(world, k);
    FixedPointSticks(SAMPLE, 90843, 100000);
  }

  /** With these random numbers `factorize` calls itself with this product of two primes for ever. */
  lemma NeverReturns(world: World, depth: nat)
    requires world.fuel >= 62
    requires forall j: nat :: world.rand(2 * j) % 98 == 25 && world.rand(2 * j + 1) % SAMPLE == 90843
    ensures IsPrime(547) && IsPrime(2269) && SAMPLE == 547 * 2269
    ensures world.StuckBefore(SAMPLE, 0, depth) && world.Run(SAMPLE, 0, depth) == Open
  {
    SampleParts();
    hide World.Stuck, World.Run, World.Hangs, World.Negative;
    forall j: nat
      ensures world.Stuck(SAMPLE, 0 + 2 * j)
    {
      StuckRound(world, 2 * j);
    }
    var r := world.RunMeans(SAMPLE, 0, depth);
    assert world.Stuck(SAMPLE, 0 + 2 * r);
  }

  /** With these, none of the first three splitters finds anything, and `pollard_bent` gives a negative number. */
  lemma DividesByZero(world: World, depth: nat)
    requires world.fuel >= 62 && depth > 0
    requires world.rand(0) % 98 == 25 && world.rand(1) % SAMPLE == 981405 && world.rand(2) % SAMPLE == 1576
    ensures IsPrime(547) && IsPrime(2269) && SAMPLE == 547 * 2269
    ensures world.Negative(SAMPLE, 0) && world.Run(SAMPLE, 0, depth) == DivisionByZero
  {
    SampleParts();
    SampleMissed(world, 0);
    SampleCycle();
    SampleMinusOne(world.fuel);
    SampleBent();
    hide RhoFails, Bent, MinusOne, MonteCarlo, RhoStuck;
    world.Excluded(SAMPLE, 0);
    assert world.Negative(SAMPLE, 0);
  }

  lemma SampleCycle()
    ensures RhoFails(SAMPLE, 981405, 100000)
  {
    Coprime(721668, 1241143, 428823, -249341);
    CycleSquares();
    hide *;
    TwoCycleFails(SAMPLE, 981405, 259737, 100000);
  }

  lemma CycleSquares()
    ensures (981405 * 981405 + 1) % SAMPLE == 259737 && (259737 * 259737 + 1) % SAMPLE == 981405
    ensures SAMPLE == 1241143 && Abs(259737 - 981405) == 721668
  {
  }

  /** A power of 5 that has nothing in common with the sample after 1 is taken off. */
  lemma PowerOfFive(k: nat, power: int, y: int, u: int, v: int)
    requires Pow(5, k) == power >= 0 && power % SAMPLE == y >= 1 && u * (y - 1) + v * SAMPLE == 1
    ensures PowLoop(1, 5, k, SAMPLE) == y && SGcd(y - 1, SAMPLE) == 1
  {
    hide Pow, PowLoop, SGcd, Gcd;
    PowLoopIs(5, k, SAMPLE);
    Coprime(y - 1, SAMPLE, u, v);
    SGcdAbs(y - 1, SAMPLE);
  }

  lemma SamplePowers()
    ensures forall k :: k in {5, 7, 8, 9, 11, 13} ==>
              PowLoop(1, 5, k, SAMPLE) >= 1 && SGcd(PowLoop(1, 5, k, SAMPLE) - 1, SAMPLE) == 1
  {
    hide PowLoop, SGcd;
    PowerOfFive(5, 3125, 3125, 229238, -577);
    PowerOfFive(7, 78125, 78125, 145158, -9137);
    PowerOfFive(8, 390625, 390625, 610941, -192281);
    PowerOfFive(9, 1953125, 711982, 110381, -63320);
    PowerOfFive(11, 48828125, 423548, 95301, -32522);
    PowerOfFive(13, 1220703125, 659556, 118643, -63048);
  }

  lemma SampleExponents()
    ensures Pow(2, 3) % SAMPLE == 8 && Pow(3, 2) % SAMPLE == 9 && Pow(5, 1) % SAMPLE == 5
    ensures Pow(7, 1) % SAMPLE == 7 && Pow(11, 1) % SAMPLE == 11 && Pow(13, 1) % SAMPLE == 13
  {
  }

  lemma SampleMinusOne(fuel: nat)
    ensures MinusOne(SAMPLE, fuel) == Some(1)
  {
    hide PowLoop, SGcd;
    GcdWithFive(SAMPLE);
    SamplePowers();
    SampleExponents();
    hide Pow;
    assert TryPowers(5, SAMPLE, 3) == 1;
    assert TryPowers(5, SAMPLE, 0) == 1;
  }

  lemma SampleBent()
    ensures Bent(SAMPLE, 1576) < 0
  {
    assert Divisions(84, 1241143) == 5;
    hide Divisions, SGcd;
    assert BentStep(1576, SAMPLE) == 1492;
    BentIsNegative(SAMPLE, 1576);
  }

  // ---------- a start from which Monte Carlo finds 547 ----------

  /** Raising to the p-th power once more. */
  lemma Raised(b: nat, e: nat, x: nat, p: nat, y: nat)
    requires Pow(b, e) % SAMPLE == x && Pow(x, p) % SAMPLE == y
    ensures Pow(b, e * p) % SAMPLE == y
  {
    hide Pow;
    NextPowerMod(b, e, p, SAMPLE);
  }

  lemma RaisedTo3(b: nat, e: nat)
    requires Pow(b, e) % SAMPLE == 4
    ensures Pow(b, e * 531441) % SAMPLE == 827447
  {
    Powers3();
    hide Pow;
    Raised(b, e, 4, 3, 64);
    Raised(b, e * 3, 64, 3, 262144);
    Raised(b, e * 9, 262144, 3, 420017);
    Raised(b, e * 27, 420017, 3, 231189);
    Raised(b, e * 81, 231189, 3, 1141334);
    Raised(b, e * 243, 1141334, 3, 827447);
    Raised(b, e * 729, 827447, 3, 1063432);
    Raised(b, e * 2187, 1063432, 3, 480944);
    Raised(b, e * 6561, 480944, 3, 578100);
    Raised(b, e * 19683, 578100, 3, 231189);
    Raised(b, e * 59049, 231189, 3, 1141334);
    Raised(b, e * 177147, 1141334, 3, 827447);
  }

  lemma Powers3()
    ensures Pow(4, 3) % SAMPLE == 64
    ensures Pow(64, 3) % SAMPLE == 262144
    ensures Pow(262144, 3) % SAMPLE == 420017
    ensures Pow(420017, 3) % SAMPLE == 231189
    ensures Pow(231189, 3) % SAMPLE == 1141334
    ensures Pow(1141334, 3) % SAMPLE == 827447
    ensures Pow(827447, 3) % SAMPLE == 1063432
    ensures Pow(1063432, 3) % SAMPLE == 480944
    ensures Pow(480944, 3) % SAMPLE == 578100
    ensures Pow(578100, 3) % SAMPLE == 231189
    ensures Pow(231189, 3) % SAMPLE == 1141334
    ensures Pow(1141334, 3) % SAMPLE == 827447
  {
  }

  lemma RaisedTo5(b: nat, e: nat)
    requires Pow(b, e) % SAMPLE == 827447
    ensures Pow(b, e * 390625) % SAMPLE == 176733
  {
    Powers5();
    hide Pow;
    Raised(b, e, 827447, 5, 671651);
    Raised(b, e * 5, 671651, 5, 812053);
    Raised(b, e * 25, 812053, 5, 473726);
    Raised(b, e * 125, 473726, 5, 705575);
    Raised(b, e * 625, 705575, 5, 462147);
    Raised(b, e * 3125, 462147, 5, 160361);
    Raised(b, e * 15625, 160361, 5, 903089);
    Raised(b, e * 78125, 903089, 5, 176733);
  }

  lemma Powers5()
    ensures Pow(827447, 5) % SAMPLE == 671651
    ensures Pow(671651, 5) % SAMPLE == 812053
    ensures Pow(812053, 5) % SAMPLE == 473726
    ensures Pow(473726, 5) % SAMPLE == 705575
    ensures Pow(705575, 5) % SAMPLE == 462147
    ensures Pow(462147, 5) % SAMPLE == 160361
    ensures Pow(160361, 5) % SAMPLE == 903089
    ensures Pow(903089, 5) % SAMPLE == 176733
  {
  }

  lemma RaisedTo7(b: nat, e: nat)
    requires Pow(b, e) % SAMPLE == 176733
    ensures Pow(b, e * 823543) % SAMPLE == 605822
  {
    Powers7();
    hide Pow;
    Raised(b, e, 176733, 7, 412957);
    Raised(b, e * 7, 412957, 7, 837260);
    Raised(b, e * 49, 837260, 7, 1025587);
    Raised(b, e * 343, 1025587, 7, 288162);
    Raised(b, e * 2401, 288162, 7, 653471);
    Raised(b, e * 16807, 653471, 7, 535483);
    Raised(b, e * 117649, 535483, 7, 605822);
  }

  lemma Powers7()
    ensures Pow(176733, 7) % SAMPLE == 412957
    ensures Pow(412957, 7) % SAMPLE == 837260
    ensures Pow(837260, 7) % SAMPLE == 1025587
    ensures Pow(1025587, 7) % SAMPLE == 288162
    ensures Pow(288162, 7) % SAMPLE == 653471
    ensures Pow(653471, 7) % SAMPLE == 535483
    ensures Pow(535483, 7) % SAMPLE == 605822
  {
  }

  lemma RaisedTo11(b: nat, e: nat)
    requires Pow(b, e) % SAMPLE == 605822
    ensures Pow(b, e * 161051) % SAMPLE == 83952
  {
    Powers11();
    hide Pow;
    Raised(b, e, 605822, 11, 313121);
    Raised(b, e * 11, 313121, 11, 653471);
    Raised(b, e * 121, 653471, 11, 844067);
    Raised(b, e * 1331, 844067, 11, 1025587);
    Raised(b, e * 14641, 1025587, 11, 83952);
  }

  lemma Powers11()
    ensures Pow(605822, 11) % SAMPLE == 313121
    ensures Pow(313121, 11) % SAMPLE == 653471
    ensures Pow(653471, 11) % SAMPLE == 844067
    ensures Pow(844067, 11) % SAMPLE == 1025587
    ensures Pow(1025587, 11) % SAMPLE == 83952
  {
  }

  lemma RaisedTo13(b: nat, e: nat)
    requires Pow(b, e) % SAMPLE == 83952
    ensures Pow(b, e * 371293) % SAMPLE == 1118616
  {
    Powers13();
    hide Pow;
    Raised(b, e, 83952, 13, 1118616);
    Raised(b, e * 13, 1118616, 13, 1118616);
    Raised(b, e * 169, 1118616, 13, 1118616);
    Raised(b, e * 2197, 1118616, 13, 1118616);
    Raised(b, e * 28561, 1118616, 13, 1118616);
  }

  lemma Powers13()
    ensures Pow(83952, 13) % SAMPLE == 1118616
    ensures Pow(1118616, 13) % SAMPLE == 1118616
    ensures Pow(1118616, 13) % SAMPLE == 1118616
    ensures Pow(1118616, 13) % SAMPLE == 1118616
    ensures Pow(1118616, 13) % SAMPLE == 1118616
  {
  }

  /** Two numbers with the divisor d, of which a combination is d. */
  lemma GcdIs(a: nat, b: nat, d: nat, u: int, v: int)
    requires d > 0 && b > 0 && Divides(d, a) && Divides(d, b) && u * a + v * b == d
    ensures Gcd(a, b) == d
  {
    hide Divides, Gcd;
    GcdIsGreatest(a, b, d);
    GcdDivides(a, b);
    GcdBounds(a, b);
    DividesScaled(Gcd(a, b), a, u);
    DividesScaled(Gcd(a, b), b, v);
    DividesSum(Gcd(a, b), u * a, v * b);
    DividesBound(Gcd(a, b), d);
    DividesBound(d, Gcd(a, b));
  }

  lemma {:induction false} PrimesPrefix(a: int, b: int)
    requires a <= b
    ensures PrimesUpTo(a) <= PrimesUpTo(b)
    decreases b - a
  {
    hide IsPrime;
    if a < b {
      PrimesPrefix(a, b - 1);
    }
  }

  lemma PrimesToThirteen()
    ensures PrimesUpTo(13) == [2, 3, 5, 7, 11, 13]
  {
    TwoIsPrime();
    ThreeIsPrime();
    FiveIsPrime();
    NoDivisorBelow(7, 3);
    NoDivisorBelow(11, 4);
    NoDivisorBelow(13, 4);
    EvenIsNotPrime(4);
    EvenIsNotPrime(6);
    EvenIsNotPrime(8);
    EvenIsNotPrime(10);
    EvenIsNotPrime(12);
    DividesIntro(3, 9, 3);
    assert !IsPrime(9);
    hide IsPrime, Divides;
    assert PrimesUpTo(3) == [2, 3];
    assert PrimesUpTo(5) == [2, 3, 5];
    assert PrimesUpTo(7) == [2, 3, 5, 7];
    assert PrimesUpTo(9) == [2, 3, 5, 7];
    assert PrimesUpTo(11) == [2, 3, 5, 7, 11];
  }

  /** The list of odd primes starts with these. */
  lemma ListStarts()
    ensures |OddPrimeList()| >= 5
    ensures var s := OddPrimeList(); s[0] == 3 && s[1] == 5 && s[2] == 7 && s[3] == 11 && s[4] == 13
  {
    PrimesToThirteen();
    PrimesPrefix(13, 100);
    hide PrimesUpTo, IsPrime;
    var all := PrimesUpTo(100);
    assert all[..6] == PrimesUpTo(13);
    assert all[1] == all[..6][1] && all[2] == all[..6][2] && all[3] == all[..6][3] && all[4] == all[..6][4];
    assert all[5] == all[..6][5];
  }

  /** The largest powers of these primes not above the sample. */
  lemma SampleExponent(p: int, e: nat, fuel: nat)
    requires fuel >= 62
    requires (p == 3 && e == 531441) || (p == 5 && e == 390625) || (p == 7 && e == 823543) || (p == 11 && e == 161051)
             || (p == 13 && e == 371293)
    ensures LoopPower(p, SAMPLE, p, fuel) == Some(e)
  {
    LoopEnds(p, SAMPLE, fuel);
    hide LoopPower;
    assert FirstPowerAbove(3, 1241143, 3) == 1594323 && FirstPowerAbove(5, 1241143, 5) == 1953125;
    assert FirstPowerAbove(7, 1241143, 7) == 5764801 && FirstPowerAbove(11, 1241143, 11) == 1771561;
    assert FirstPowerAbove(13, 1241143, 13) == 4826809;
  }

  /** What five primes have done to the start 4. */
  lemma SampleRaised(primes: seq<int>, fuel: nat)
    requires fuel >= 62 && |primes| >= 5 && forall j :: 0 <= j < |primes| ==> primes[j] >= 3
    requires primes[0] == 3 && primes[1] == 5 && primes[2] == 7 && primes[3] == 11 && primes[4] == 13
    ensures Pow(4, TotalExponent(primes, SAMPLE, fuel, 1)) % SAMPLE == 827447
    ensures Pow(4, TotalExponent(primes, SAMPLE, fuel, 2)) % SAMPLE == 176733
    ensures Pow(4, TotalExponent(primes, SAMPLE, fuel, 3)) % SAMPLE == 605822
    ensures Pow(4, TotalExponent(primes, SAMPLE, fuel, 4)) % SAMPLE == 83952
    ensures Pow(4, TotalExponent(primes, SAMPLE, fuel, 5)) % SAMPLE == 1118616
    ensures LoopPower(3, SAMPLE, 3, fuel).Some? && LoopPower(5, SAMPLE, 5, fuel).Some?
    ensures LoopPower(7, SAMPLE, 7, fuel).Some? && LoopPower(11, SAMPLE, 11, fuel).Some?
    ensures LoopPower(13, SAMPLE, 13, fuel).Some?
  {
    SampleExponent(3, 531441, fuel);
    SampleExponent(5, 390625, fuel);
    SampleExponent(7, 823543, fuel);
    SampleExponent(11, 161051, fuel);
    SampleExponent(13, 371293, fuel);
    StartsAtFour();
    hide LoopPower, Pow;
    var e := (i: nat) requires i <= |primes| => TotalExponent(primes, SAMPLE, fuel, i);
    assert e(0) == 1 && e(1) == e(0) * 531441;
    RaisedTo3(4, e(0));
    assert e(2) == e(1) * 390625;
    RaisedTo5(4, e(1));
    assert e(3) == e(2) * 823543;
    RaisedTo7(4, e(2));
    assert e(4) == e(3) * 161051;
    RaisedTo11(4, e(3));
    assert e(5) == e(4) * 371293;
    RaisedTo13(4, e(4));
  }

  lemma StartsAtFour()
    ensures Pow(4, 1) % SAMPLE == 4
  {
  }

  /** Nothing is found with the primes 3, 5, 7 and 11, the divisor 547 with 13. */
  lemma SampleMisses(primes: seq<int>, fuel: nat)
    requires fuel >= 62 && |primes| >= 5 && forall j :: 0 <= j < |primes| ==> primes[j] >= 3
    requires primes[0] == 3 && primes[1] == 5 && primes[2] == 7 && primes[3] == 11 && primes[4] == 13
    ensures MissesAt(primes, SAMPLE, 4, fuel, 1) && MissesAt(primes, SAMPLE, 4, fuel, 2)
    ensures MissesAt(primes, SAMPLE, 4, fuel, 3) && MissesAt(primes, SAMPLE, 4, fuel, 4)
    ensures !MissesAt(primes, SAMPLE, 4, fuel, 5) && LoopPower(primes[4], SAMPLE, primes[4], fuel).Some?
    ensures Common(primes, SAMPLE, 4, fuel, 5) == 547
  {
    SampleRaised(primes, fuel);
    SampleGcds();
    hide Pow, LoopPower, Gcd, TotalExponent;
  }

  lemma FourFinds(fuel: nat)
    requires fuel >= 62
    ensures MonteCarlo(OddPrimeList(), SAMPLE, 4, fuel) == Some(547)
  {
    assert SAMPLE > 1;
    hide *;
    var primes := OddPrimeList();
    ListStarts();
    SampleMisses(primes, fuel);
    var k := MonteCarloMeans(primes, SAMPLE, 4, fuel);
    assert k == 4;
  }

  lemma SampleGcds()
    ensures Gcd(827446, SAMPLE) == 1
    ensures Gcd(176732, SAMPLE) == 1
    ensures Gcd(605821, SAMPLE) == 1
    ensures Gcd(83951, SAMPLE) == 1
    ensures Gcd(1118615, SAMPLE) == 547
  {
    hide Gcd;
    Coprime(827446, SAMPLE, 167077, -111387);
    Coprime(176732, SAMPLE, -537036, 76471);
    Coprime(605821, SAMPLE, -570654, 278545);
    Coprime(83951, SAMPLE, -26094, 1765);
    DividesIntro(547, 1118615, 2045);
    DividesIntro(547, SAMPLE, 2269);
    GcdIs(1118615, SAMPLE, 547, 861, -776);
  }

  /** A call that goes well: with such a first random number the two primes are found at once. */
  lemma FoundAtOnce(world: World, k: nat, depth: nat)
    requires world.fuel >= 62 && world.rand(k) % 98 == 2 && depth > 0
    ensures world.Sought(SAMPLE, k) == Some(547) && world.Run(SAMPLE, k, depth) == Done
  {
    hide MonteCarlo, RhoStuck, RhoFails, MinusOne, Bent;
    FourFinds(world.fuel);
  }

  // ---------- two primes with a product above 2^63 ----------

  /** Every prime factor of n is 1 modulo 2^m, if a to the power k 2^(m-1) is -1 modulo n. */
  lemma ProthFactor(n: int, a: int, k: nat, m: nat, r: int)
    requires IsPrime(r) && Divides(r, n) && n % 2 == 1 && m >= 1 && k >= 1
    requires Cong(Pow(a, k * Pow2(m - 1)), -1, n)
    ensures r > Pow2(m)
  {
    hide Pow, IsPrime, Divides, Cong;
    PrimeAtLeastTwo(r);
    OddDivisor(r, n);
    var t, o := TwoPart(r - 1);
    if t >= m {
      Pow2Grows(m, t);
      MulAtLeast(o, Pow2(t));
      assert o * Pow2(t) == Pow2(t) * o;
    } else {
      var x := Pow(a, k * Pow2(m - 1));
      CongDivisor(x, -1, n, r);
      OddPowerOfMinusOne(x, o, r);
      PowerOfOne(a, k, m - 1, t, o, r);
      OneIsNotMinusOne(Pow(x, o), r);
    }
  }

  lemma OddPowerOfMinusOne(x: int, o: nat, r: int)
    requires Cong(x, -1, r) && o % 2 == 1
    ensures Cong(Pow(x, o), -1, r)
  {
    CongPow(x, -1, o, r);
    PowOfMinusOne(o);
  }

  /** By Fermat, since the exponent is a multiple of r - 1. */
  lemma PowerOfOne(a: int, k: nat, e: nat, t: nat, o: nat, r: int)
    requires IsPrime(r) && r % 2 == 1 && t <= e && k >= 1 && r - 1 == Pow2(t) * o
    requires Cong(Pow(a, k * Pow2(e)), -1, r)
    ensures Cong(Pow(Pow(a, k * Pow2(e)), o), 1, r)
  {
    hide *;
    var j := k * Pow2(e - t);
    Pow2Add(t, e - t);
    Regroup(k, Pow2(t), Pow2(e - t), o);
    MulAtLeast(k, Pow2(e));
    NotAMultiple(a, k * Pow2(e), r);
    Fermat(r, a);
    PowPow(a, k * Pow2(e), o);
    PowPow(a, r - 1, j);
    CongPow(Pow(a, r - 1), 1, j, r);
    PowOfOne(j);
  }

  lemma Regroup(k: int, a: int, b: int, o: int)
    ensures (k * (a * b)) * o == (a * o) * (k * b)
  {
    assert (k * (a * b)) * o == ((a * b) * k) * o == (a * (b * k)) * o;
    assert (a * (b * k)) * o == (a * o) * (b * k);
  }

  lemma NotAMultiple(a: int, e: nat, r: int)
    requires IsPrime(r) && r % 2 == 1 && Cong(Pow(a, e), -1, r)
    ensures e > 0 ==> !Divides(r, a)
  {
    if e > 0 && Divides(r, a) {
      DividesScaled(r, a, Pow(a, e - 1));
      var x := Pow(a, e);
      assert x == a * Pow(a, e - 1);
      DividesSum(r, x - -1, x);
      DividesBound(r, 1);
    }
  }

  lemma {:induction false} Pow2Add(s: nat, t: nat)
    ensures Pow2(s + t) == Pow2(s) * Pow2(t)
  {
    if s > 0 {
      Pow2Add(s - 1, t);
      assert 2 * (Pow2(s - 1) * Pow2(t)) == (2 * Pow2(s - 1)) * Pow2(t);
    }
  }

  lemma Proth(n: int, a: int, k: nat, m: nat)
    requires n > 1 && n % 2 == 1 && m >= 1 && k >= 1 && n < Pow2(m) * Pow2(m)
    requires Cong(Pow(a, k * Pow2(m - 1)), -1, n)
    ensures IsPrime(n)
  {
    hide Pow, IsPrime, Divides, Cong;
    var r := SmallestFactor(n);
    ProthFactor(n, a, k, m, r);
    MulMonotone(Pow2(m), r, Pow2(m));
    MulMonotone(Pow2(m), r, r);
  }

  /** Two 32-bit primes whose product does not fit a signed number: `factor` divides by zero on it. */
  lemma LargePrimes()
    ensures var (p, q) := (3221225473, 3489660929);
            IsPrime(p) && IsPrime(q) && p < q < TWO_32 && TWO_63 <= p * q < TWO_64
  {
    FirstLargePrime();
    SecondLargePrime();
  }

  lemma PowersAtTwentySeven()
    ensures Pow2(27) == 0x800_0000 && Pow2(28) == 0x1000_0000 && Pow2(29) == 0x2000_0000 && Pow2(30) == 0x4000_0000
  {
    assert Pow2(3) == 8;
    EightDoublings(3);
    EightDoublings(11);
    EightDoublings(19);
  }

  lemma OneSquare(a: int, k: nat, x: int, y: int, n: int)
    requires n > 0 && Cong(Pow(a, k), x, n) && x * x % n == y
    ensures Cong(Pow(a, 2 * k), y, n)
  {
    PowAdd(a, k, k);
    CongMul(Pow(a, k), x, Pow(a, k), x, n);
    CongMod(x * x, n);
    CongTrans(Pow(a, 2 * k), x * x, x * x % n, n);
  }

  /** n - 1 is -1 modulo n. */
  lemma AsMinusOne(x: int, n: int)
    requires Cong(x, n - 1, n)
    ensures Cong(x, -1, n)
  {
    DividesSelf(n, 1);
    CongTrans(x, n - 1, -1, n);
  }

  lemma SmallPowersOf()
    ensures Pow(5, 12) == 244140625 && Pow(3, 13) == 1594323
  {
  }

  lemma FirstPower()
    ensures Cong(Pow(5, 3 * Pow2(29)), 3221225472, 3221225473)
  {
    hide *;
    SmallPowersOf();
    PowersAtTwentySeven();
    CongRefl(244140625, 3221225473);
    OneSquare(5, 12, 244140625, 229807484, 3221225473);
    OneSquare(5, 24, 229807484, 247425463, 3221225473);
    OneSquare(5, 48, 247425463, 1838654099, 3221225473);
    OneSquare(5, 96, 1838654099, 538601489, 3221225473);
    OneSquare(5, 192, 538601489, 140749519, 3221225473);
    OneSquare(5, 384, 140749519, 3182672916, 3221225473);
    OneSquare(5, 768, 3182672916, 448192265, 3221225473);
    OneSquare(5, 1536, 448192265, 3009749949, 3221225473);
    OneSquare(5, 3072, 3009749949, 511777184, 3221225473);
    OneSquare(5, 6144, 511777184, 1358427440, 3221225473);
    OneSquare(5, 12288, 1358427440, 1800384970, 3221225473);
    OneSquare(5, 24576, 1800384970, 2519378301, 3221225473);
    OneSquare(5, 49152, 2519378301, 1405588668, 3221225473);
    OneSquare(5, 98304, 1405588668, 1445148504, 3221225473);
    OneSquare(5, 196608, 1445148504, 1734477367, 3221225473);
    OneSquare(5, 393216, 1734477367, 211283056, 3221225473);
    OneSquare(5, 786432, 211283056, 1168849724, 3221225473);
    OneSquare(5, 1572864, 1168849724, 1855261384, 3221225473);
    OneSquare(5, 3145728, 1855261384, 764652596, 3221225473);
    OneSquare(5, 6291456, 764652596, 1958494276, 3221225473);
    OneSquare(5, 12582912, 1958494276, 1292405718, 3221225473);
    OneSquare(5, 25165824, 1292405718, 651814490, 3221225473);
    OneSquare(5, 50331648, 651814490, 66931328, 3221225473);
    OneSquare(5, 100663296, 66931328, 2526611335, 3221225473);
    OneSquare(5, 201326592, 2526611335, 1031213943, 3221225473);
    OneSquare(5, 402653184, 1031213943, 1013946479, 3221225473);
    OneSquare(5, 805306368, 1013946479, 3221225472, 3221225473);
  }

  lemma SecondPower()
    ensures Cong(Pow(3, 13 * Pow2(27)), 3489660928, 3489660929)
  {
    hide *;
    SmallPowersOf();
    PowersAtTwentySeven();
    CongRefl(1594323, 3489660929);
    OneSquare(3, 13, 1594323, 1392672017, 3489660929);
    OneSquare(3, 26, 1392672017, 1178393024, 3489660929);
    OneSquare(3, 52, 1178393024, 2206155841, 3489660929);
    OneSquare(3, 104, 2206155841, 2106507513, 3489660929);
    OneSquare(3, 208, 2106507513, 1139259149, 3489660929);
    OneSquare(3, 416, 1139259149, 1143890192, 3489660929);
    OneSquare(3, 832, 1143890192, 1882435536, 3489660929);
    OneSquare(3, 1664, 1882435536, 3373763992, 3489660929);
    OneSquare(3, 3328, 3373763992, 758575992, 3489660929);
    OneSquare(3, 6656, 758575992, 72934420, 3489660929);
    OneSquare(3, 13312, 72934420, 3369885469, 3489660929);
    OneSquare(3, 26624, 3369885469, 725028937, 3489660929);
    OneSquare(3, 53248, 725028937, 1030533309, 3489660929);
    OneSquare(3, 106496, 1030533309, 962117947, 3489660929);
    OneSquare(3, 212992, 962117947, 3231347667, 3489660929);
    OneSquare(3, 425984, 3231347667, 1005229295, 3489660929);
    OneSquare(3, 851968, 1005229295, 340708175, 3489660929);
    OneSquare(3, 1703936, 340708175, 731827882, 3489660929);
    OneSquare(3, 3407872, 731827882, 1938306374, 3489660929);
    OneSquare(3, 6815744, 1938306374, 424291397, 3489660929);
    OneSquare(3, 13631488, 424291397, 2792923286, 3489660929);
    OneSquare(3, 27262976, 2792923286, 3290428437, 3489660929);
    OneSquare(3, 54525952, 3290428437, 1424003439, 3489660929);
    OneSquare(3, 109051904, 1424003439, 1513900834, 3489660929);
    OneSquare(3, 218103808, 1513900834, 1054308003, 3489660929);
    OneSquare(3, 436207616, 1054308003, 1841841630, 3489660929);
    OneSquare(3, 872415232, 1841841630, 3489660928, 3489660929);
  }

  lemma FirstLargePrime()
    ensures IsPrime(3221225473)
  {
    FirstPower();
    PowersAtTwentySeven();
    hide Pow, Cong, Pow2, IsPrime;
    AsMinusOne(Pow(5, 3 * Pow2(29)), 3221225473);
    Proth(3221225473, 5, 3, 30);
  }

  lemma SecondLargePrime()
    ensures IsPrime(3489660929)
  {
    SecondPower();
    PowersAtTwentySeven();
    hide Pow, Cong, Pow2, IsPrime;
    AsMinusOne(Pow(3, 13 * Pow2(27)), 3489660929);
    Proth(3489660929, 3, 13, 28);
  }
}
