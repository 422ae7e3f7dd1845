/** Pollard's p-1 from a random base, with all odd primes below 100: `pollard_monte_carlo`. */
module MonteCarlos {
  import opened Arith
  import opened ModArith
  import opened NumberTheory
  import opened Options
  import opened PrimeTables
  import opened ExponentLoops

  /** The static list of `pollard_monte_carlo`: filled on the first call. */
  class OddPrimes {
    var primes: seq<int>
    var mMax: int

    ghost predicate Valid()
      reads this
    {
      || (primes == [] && mMax == 0)
      || (mMax == 100 && [2] + primes == PrimesUpTo(100))
    }

    constructor ()
      ensures Valid()
    {
      primes := [];
      mMax := 0;
    }

    method Fill()
      requires Valid()
      modifies this
      ensures Valid() && mMax == 100
    {
      hide IsPrime, PrimesUpTo;
      HundredHasThree();
      if primes == [] {
        primes := primes + [3];
      }
      if mMax < 100 {
        TableOfFour();
        mMax := 100;
        var prime := 5;
        while prime <= 100
          invariant prime % 2 == 1 && 5 <= prime <= 101
          invariant [2] + primes == PrimesUpTo(prime - 1)
          invariant mMax == 100
        {
          var isPrime := HasNoOddDivisor(prime);
          TableStep(prime);
          if isPrime {
            primes := primes + [prime];
          }
          prime := prime + 2;
        }
      }
    }

    method HasNoOddDivisor(cur: int) returns (prime: bool)
      requires cur >= 5 && cur % 2 == 1 && [2] + primes == PrimesUpTo(cur - 1)
      ensures prime <==> IsPrime(cur)
    {
      hide IsPrime, Divides, PrimesUpTo;
      ghost var all := [2] + primes;
      PrimesUpToIs(cur - 1);
      DividesRem(2, cur);
      var i := 0;
      while i < |primes|
        invariant 0 <= i <= |primes|
        invariant forall j :: 0 <= j < i + 1 ==> !Divides(all[j], cur)
      {
        var div := primes[i];
        assert div == all[i + 1];
        PrimeAtLeastTwo(div);
        if div * div > cur {
          NoSmallFactor(all, cur, i + 1);
          return true;
        }
        DividesRem(div, cur);
        if cur % div == 0 {
          ProperFactor(div, cur);
          return false;
        }
        i := i + 1;
      }
      NoSmallFactor(all, cur, i + 1);
      return true;
    }
  }

  lemma HundredHasThree()
    ensures |PrimesUpTo(100)| >= 2
  {
    TwoIsPrime();
    ThreeIsPrime();
    hide IsPrime, PrimesUpTo;
    PrimesUpToIs(100);
    var s := PrimesUpTo(100);
    assert 2 in s && 3 in s;
  }

  lemma TableOfFour()
    ensures PrimesUpTo(4) == [2, 3]
  {
    TwoIsPrime();
    ThreeIsPrime();
    EvenIsNotPrime(4);
  }

  lemma TableStep(n: int)
    requires n % 2 == 1 && n >= 3
    ensures PrimesUpTo(n + 1) == PrimesUpTo(n - 1) + (if IsPrime(n) then [n] else [])
  {
    EvenIsNotPrime(n + 1);
  }

  /** What the loop over the primes finds from base b: the first gcd other than 1 and n, else 1. */
  function MonteCarlo(primes: seq<int>, n: int, b: nat, fuel: nat): Option<int>
    requires n >= 1 && forall i :: 0 <= i < |primes| ==> primes[i] >= 3
  {
    if primes == [] then Some(1)
    else
      match LoopPower(primes[0], n, primes[0], fuel)
      case None => None
      case Some(e) =>
        var c := Pow(b, e) % n;
        var g := Gcd(Abs(c - 1), n);
        if g != 1 && g != n then Some(g) else MonteCarlo(primes[1..], n, c, fuel)
  }

  // ---------- what is found, and when ----------

  /** The product of the exponents of the first `i` primes. */
  function TotalExponent(primes: seq<int>, n: int, fuel: nat, i: nat): nat
    requires n >= 1 && i <= |primes| && forall j :: 0 <= j < |primes| ==> primes[j] >= 3
  {
    if i == 0 then 1
    else
      var e := LoopPower(primes[i - 1], n, primes[i - 1], fuel);
      TotalExponent(primes, n, fuel, i - 1) * (if e.Some? then e.value else 0)
  }

  /** What b to that power, less 1, has in common with n. */
  function Common(primes: seq<int>, n: int, b: nat, fuel: nat, i: nat): nat
    requires n >= 1 && i <= |primes| && forall j :: 0 <= j < |primes| ==> primes[j] >= 3
  {
    Gcd(Abs(Pow(b, TotalExponent(primes, n, fuel, i)) % n - 1), n)
  }

  /** The exponent loop of the i-th prime ends, and the gcd with it is 1 or n. */
  ghost predicate MissesAt(primes: seq<int>, n: int, b: nat, fuel: nat, i: nat)
    requires n >= 1 && 0 < i <= |primes| && forall j :: 0 <= j < |primes| ==> primes[j] >= 3
  {
    && LoopPower(primes[i - 1], n, primes[i - 1], fuel).Some?
    && (Common(primes, n, b, fuel, i) == 1 || Common(primes, n, b, fuel, i) == n)
  }

  lemma NextPowerMod(b: nat, x: nat, e: nat, n: int)
    requires n >= 1
    ensures Pow(Pow(b, x) % n, e) % n == Pow(b, x * e) % n
  {
    PowPow(b, x, e);
    CongMod(Pow(b, x), n);
    CongPow(Pow(b, x) % n, Pow(b, x), e, n);
    hide Pow;
    var u, v := Pow(Pow(b, x) % n, e), Pow(b, x * e);
    CongMod(u, n);
    CongMod(v, n);
    CongTrans(u % n, u, v, n);
    CongTrans(u % n, v, v % n, n);
    CongSmall(u % n, v % n, n);
  }

  /**
   The loop goes on while the gcd is 1 or n, and ends with the first that is neither, with 1 if there is none,
   and not at all if an exponent loop before does not end.
   */
  lemma {:induction false} Walk(primes: seq<int>, n: int, b: nat, fuel: nat, i: nat) returns (k: nat)
    requires n > 1 && i <= |primes| && forall j :: 0 <= j < |primes| ==> primes[j] >= 3
    ensures i <= k <= |primes| && forall j :: i < j <= k ==> MissesAt(primes, n, b, fuel, j)
    ensures k < |primes| ==> !MissesAt(primes, n, b, fuel, k + 1)
    ensures MonteCarlo(primes[i..], n, Pow(b, TotalExponent(primes, n, fuel, i)) % n, fuel)
         == if k == |primes| then Some(1)
            else if LoopPower(primes[k], n, primes[k], fuel) == None then None
            else Some(Common(primes, n, b, fuel, k + 1))
    decreases |primes| - i
  {
    hide LoopPower, Pow, Gcd;
    k := i;
    if i < |primes| {
      var p := primes[i];
      assert primes[i..][0] == p && primes[i..][1..] == primes[i + 1..];
      var e := LoopPower(p, n, p, fuel);
      if e.Some? {
        NextPowerMod(b, TotalExponent(primes, n, fuel, i), e.value, n);
        if MissesAt(primes, n, b, fuel, i + 1) {
          k := Walk(primes, n, b, fuel, i + 1);
        }
      }
    }
  }

  lemma StartMod(primes: seq<int>, n: int, b: nat, fuel: nat)
    requires n >= 1 && forall j :: 0 <= j < |primes| ==> primes[j] >= 3
    ensures MonteCarlo(primes, n, Pow(b, 1) % n, fuel) == MonteCarlo(primes, n, b, fuel)
  {
    assert Pow(b, 1) == b * Pow(b, 0) == b;
    if primes != [] {
      var e := LoopPower(primes[0], n, primes[0], fuel);
      if e.Some? {
        NextPowerMod(b, 1, e.value, n);
      }
    }
  }

  /**
   Which divisor is found, from base b: with the product of the exponents of the first primes, the first gcd of
   the power less 1 with n that is neither 1 nor n; 1 if there is none. Every divisor of n modulo which the
   power is 1 there divides the one found.
   */
  lemma MonteCarloMeans(primes: seq<int>, n: int, b: nat, fuel: nat) returns (k: nat)
    requires n > 1 && forall j :: 0 <= j < |primes| ==> primes[j] >= 3
    ensures k <= |primes| && forall j :: 0 < j <= k ==> MissesAt(primes, n, b, fuel, j)
    ensures k < |primes| ==> !MissesAt(primes, n, b, fuel, k + 1)
    ensures MonteCarlo(primes, n, b, fuel)
         == if k == |primes| then Some(1)
            else if LoopPower(primes[k], n, primes[k], fuel) == None then None
            else Some(Common(primes, n, b, fuel, k + 1))
    ensures k < |primes| ==>
              forall p :: p > 0 && Divides(p, n) && Cong(Pow(b, TotalExponent(primes, n, fuel, k + 1)), 1, p) ==>
                Divides(p, Common(primes, n, b, fuel, k + 1))
  {
    k := Walk(primes, n, b, fuel, 0);
    assert primes[0..] == primes && TotalExponent(primes, n, fuel, 0) == 1;
    StartMod(primes, n, b, fuel);
    hide MonteCarlo, LoopPower, Pow, Gcd, TotalExponent, MissesAt, Divides, Cong;
    if k < |primes| {
      forall p | p > 0 && Divides(p, n) && Cong(Pow(b, TotalExponent(primes, n, fuel, k + 1)), 1, p)
        ensures Divides(p, Common(primes, n, b, fuel, k + 1))
      {
        MeetsCommon(Pow(b, TotalExponent(primes, n, fuel, k + 1)), n, p);
      }
    }
  }

  lemma MeetsCommon(x: int, n: int, p: int)
    requires n > 1 && p > 0 && Divides(p, n) && Cong(x, 1, p)
    ensures Divides(p, Gcd(Abs(x % n - 1), n))
  {
    CongMod(x, n);
    DividesTrans(p, n, x % n - x);
    hide Gcd, Divides;
    CongTrans(x % n, x, 1, p);
    DividesScaled(p, x % n - 1, -1);
    GcdIsGreatest(Abs(x % n - 1), n, p);
  }

  /** The list the loop of `pollard_monte_carlo` walks: the primes from 3 to 97. */
  ghost function OddPrimeList(): (s: seq<int>)
    ensures forall i :: 0 <= i < |s| ==> IsPrime(s[i]) && 3 <= s[i] <= 100
  {
    var all := PrimesUpTo(100);
    if |all| == 0 then []
    else
      TwoIsFirst(all);
      all[1..]
  }

  lemma TwoIsFirst(all: seq<int>)
    requires all == PrimesUpTo(100) && |all| >= 1
    ensures forall i :: 0 <= i < |all| - 1 ==> IsPrime(all[1..][i]) && 3 <= all[1..][i] <= 100
  {
    hide IsPrime, PrimesUpTo;
    PrimesUpToIs(100);
    forall i | 0 <= i < |all| - 1
      ensures IsPrime(all[1..][i]) && 3 <= all[1..][i] <= 100
    {
      PrimeAtLeastTwo(all[0]);
      assert all[1..][i] == all[i + 1] && all[0] in all && all[i + 1] in all;
    }
  }

  /**
   `pollard_monte_carlo`, from the random start `b0`, with products that wrap around: if its loops end,
   the result is 1 or a divisor of n other than 1 and n. Below 2^63 - 33 they end, given rounds enough.
   */
  method PollardMonteCarlo(odd: OddPrimes, n: I64, b0: I64, fuel: nat) returns (finished: bool, g: I64)
    requires odd.Valid() && n >= 2 && 2 <= b0 < 100
    modifies odd
    ensures odd.Valid()
    ensures MonteCarlo(OddPrimeList(), n, b0, fuel) == if finished then Some(g) else None
    ensures finished ==> g == 1 || (Divides(g, n) && 1 < g < n)
    ensures EnoughRounds(n, fuel) ==> finished
  {
    hide IsPrime, Divides, Cong, Pow, Gcd, PrimesUpTo, LoopPower;
    odd.Fill();
    var primes := odd.primes;
    ListIs(primes);
    if EnoughRounds(n, fuel) {
      MonteCarloEnds(primes, n, b0, fuel);
    }
    var b: I64 := b0;
    g := 1;
    var i := 0;
    finished := true;
    while i < |primes| && g == 1
      invariant odd.Valid() && 0 <= i <= |primes| && 0 <= b < TWO_63
      invariant g == 1 || (Divides(g, n) && 1 < g < n)
      invariant MonteCarlo(primes, n, b0, fuel) == if g == 1 then MonteCarlo(primes[i..], n, b, fuel) else Some(g)
    {
      var p := primes[i];
      assert p == primes[i..][0] && primes[i..][1..] == primes[i + 1..];
      var cur: I64;
      finished, cur := LargestPower(p, n, fuel);
      if !finished {
        return;
      }
      b := PowMod(b, cur, n);
      GcdBounds(Abs(b - 1), n);
      g := Gcd(Abs(b - 1), n);
      GcdDivides(Abs(b - 1), n);
      if g == n {
        g := 1;
      }
      i := i + 1;
    }
  }

  lemma ListIs(primes: seq<int>)
    requires [2] + primes == PrimesUpTo(100)
    ensures primes == OddPrimeList() && forall i :: 0 <= i < |primes| ==> 3 <= primes[i] <= 100
  {
    hide IsPrime, PrimesUpTo;
    assert PrimesUpTo(100)[1..] == primes;
  }

  /** With rounds enough the loops of `pollard_monte_carlo` end, below 2^63 - 33. */
  lemma {:induction false} MonteCarloEnds(primes: seq<int>, n: int, b: nat, fuel: nat)
    requires n >= 1 && EnoughRounds(n, fuel)
    requires forall i :: 0 <= i < |primes| ==> IsPrime(primes[i]) && 3 <= primes[i] <= 100
    ensures MonteCarlo(primes, n, b, fuel).Some?
  {
    hide LoopPower, Pow, Gcd, EnoughRounds, IsPrime;
    if primes != [] {
      LoopsEndInTime(primes[0], n, fuel);
      var e := LoopPower(primes[0], n, primes[0], fuel).value;
      MonteCarloEnds(primes[1..], n, Pow(b, e) % n, fuel);
    }
  }
}
