/** Trial division, the Miller-Rabin test and `isprime`. */
module Primality {
  import opened Arith
  import opened ModArith
  import opened NumberTheory
  import opened PrimeTables

  /** `d` is the smallest prime factor of `n`, and `n` is larger. */
  ghost predicate SmallestProperFactor(d: int, n: int) {
    && IsPrime(d) && Divides(d, n) && d < n
    && forall e :: 2 <= e < d ==> !Divides(e, n)
  }

  /** No prime up to c whose square is at most n divides n. */
  ghost predicate NoFactorUpTo(n: int, c: int) {
    forall p :: IsPrime(p) && p <= c && p * p <= n ==> !Divides(p, n)
  }

  /**
   `prime_div_trivial`: 1 for a prime, the smallest prime factor for a composite, 0 for "not decided", which
   means that n is m squared or more and none of the primes up to m, or in the table, divides it.
   */
  method PrimeDivTrivial(table: PrimeTable, n: int, m: int) returns (d: int)
    requires table.Valid() && m >= 2
    modifies table
    ensures table.Valid() && (table.counted == old(table.counted) || table.counted == m > old(table.counted))
    ensures d >= 0
    ensures d == 1 ==> IsPrime(n) && n < m * m
    ensures d > 1 ==> SmallestProperFactor(d, n)
    ensures d == 0 <==> n < 2 || (n >= m * m && NoFactorUpTo(n, if table.counted < m then m else table.counted))
  {
    hide IsPrime, Divides;
    MulMonotone(2, m, 2);
    MulMonotone(2, m, m);
    if n == 2 || n == 3 {
      TwoIsPrime();
      ThreeIsPrime();
      return 1;
    }
    if n < 2 {
      return 0;
    }
    if n % 2 == 0 {
      TwoIsPrime();
      DividesRem(2, n);
      return 2;
    }
    var pi := table.GetPrimes(m);
    d := DivideByTable(table, n, m);
  }

  /** The loop over the table, and what is concluded when it finds nothing. */
  method DivideByTable(table: PrimeTable, n: int, m: int) returns (d: int)
    requires n >= 5 && 2 <= m <= table.counted && table.primes == PrimesUpTo(table.counted)
    ensures d >= 0
    ensures d == 1 ==> IsPrime(n) && n < m * m
    ensures d > 1 ==> SmallestProperFactor(d, n) && d <= table.counted && d * d <= n && IsPrime(d) && Divides(d, n)
    ensures d == 0 ==> n >= m * m && NoFactorUpTo(n, table.counted)
  {
    hide IsPrime, Divides, PrimesUpTo, SmallestProperFactor, NoFactorUpTo;
    var primes := table.primes;
    PrimesUpToIs(table.counted);
    var i := 0;
    while i < |primes|
      invariant 0 <= i <= |primes|
      invariant forall j :: 0 <= j < i ==> !Divides(primes[j], n)
    {
      var div := primes[i];
      PrimeAtLeastTwo(div);
      if div * div > n {
        break;
      }
      DividesRem(div, n);
      if n % div == 0 {
        FirstFactor(primes, table.counted, n, i);
        return div;
      }
      i := i + 1;
    }
    if n < m * m {
      Undivided(primes, table.counted, n, m, i);
      return 1;
    }
    NoneUpTo(primes, table.counted, n, i);
    return 0;
  }

  lemma NoneUpTo(table: seq<int>, c: int, n: int, i: nat)
    requires table == PrimesUpTo(c) && i <= |table| && forall j :: 0 <= j < i ==> !Divides(table[j], n)
    requires i < |table| ==> table[i] * table[i] > n
    ensures NoFactorUpTo(n, c)
  {
    hide PrimesUpTo, Divides, IsPrime;
    PrimesUpToIs(c);
    forall p | IsPrime(p) && p <= c && p * p <= n
      ensures !Divides(p, n)
    {
      assert p in table;
      var j :| 0 <= j < |table| && table[j] == p;
      if j >= i {
        PrimeAtLeastTwo(table[i]);
        MulMonotone(table[i], p, table[i]);
        MulMonotone(table[i], p, p);
      }
    }
  }

  lemma Undivided(table: seq<int>, c: int, n: int, m: int, i: nat)
    requires n >= 3 && table == PrimesUpTo(c) && 2 <= m <= c && n < m * m && i <= |table|
    requires forall j :: 0 <= j < i ==> !Divides(table[j], n)
    requires i < |table| ==> table[i] * table[i] > n
    ensures IsPrime(n)
  {
    hide PrimesUpTo, Divides;
    PrimesUpToIs(c);
    TableReaches(table, c, n, m);
    NoSmallFactor(table, n, i);
  }

  lemma TableReaches(table: seq<int>, c: int, n: int, m: int)
    requires table == PrimesUpTo(c) && 2 <= m <= c && n < m * m
    ensures forall p :: IsPrime(p) && p <= n - 1 && p * p <= n ==> p in table
  {
    PrimesUpToIs(c);
    forall p | IsPrime(p) && p * p <= n
      ensures p <= c
    {
      if p > m {
        MulMonotone(m, p, m);
        MulMonotone(m, p, p);
      }
    }
  }

  lemma FirstFactor(table: seq<int>, c: int, n: int, i: nat)
    requires table == PrimesUpTo(c) && i < |table| && n >= 5 && Divides(table[i], n) && table[i] * table[i] <= n
    requires forall j :: 0 <= j < i ==> !Divides(table[j], n)
    ensures SmallestProperFactor(table[i], n) && table[i] <= c && IsPrime(table[i])
  {
    PrimesUpToIs(c);
    assert table[i] in table;
    var d := table[i];
    MulAtLeast(d, d);
    MulMonotone(2, d, d);
    var p := SmallestFactor(n);
    assert !(p > d);
    assert p in table;
    var j :| 0 <= j < |table| && table[j] == p;
    assert j >= i;
  }

  // ---------- Miller-Rabin ----------

  /** The strong probable-prime condition for base `b`, with n - 1 = 2^p * q. */
  ghost predicate StrongProbablePrime(n: int, b: int, p: nat, q: nat)
    requires n > 1
  {
    || Pow(b, q) % n == 1
    || exists i: nat :: i < p && Pow(b, Pow2(i) * q) % n == n - 1
  }

  /** The `i`-th number of the Miller-Rabin sequence. */
  function Square(b: int, q: nat, i: nat, n: int): int
    requires n > 0
  {
    Pow(b, Pow2(i) * q) % n
  }

  lemma SquareStep(b: int, q: nat, i: nat, n: int)
    requires n > 0
    ensures Square(b, q, i + 1, n) == (Square(b, q, i, n) * Square(b, q, i, n)) % n
  {
    var e := Pow2(i) * q;
    assert Pow2(i + 1) * q == e + e;
    PowAdd(b, e, e);
    var x, s := Pow(b, e), Square(b, q, i, n);
    CongMod(x, n);
    CongMul(s, x, s, x, n);
    CongMod(s * s, n);
    CongMod(x * x, n);
    CongTrans((s * s) % n, s * s, x * x, n);
    CongTrans((s * s) % n, x * x, (x * x) % n, n);
    CongSmall((s * s) % n, (x * x) % n, n);
  }

  /** For a prime, the square of a number other than 1 and n-1 is not 1. */
  lemma NotOneSquared(n: int, s: int)
    requires IsPrime(n) && 0 <= s < n && s != 1 && s != n - 1
    ensures (s * s) % n != 1
  {
    if (s * s) % n == 1 {
      CongMod(s * s, n);
      CongSym(1, s * s, n);
      SquareRootsOfOne(n, s);
    }
  }

  /** For a prime, the sequence ends in 1. */
  lemma SequenceEnds(n: int, b: int, p: nat, q: nat)
    requires IsPrime(n) && !Divides(n, b) && n - 1 == Pow2(p) * q
    ensures Square(b, q, p, n) == 1
  {
    Fermat(n, b);
    var x := Pow(b, n - 1);
    CongMod(x, n);
    CongTrans(x % n, x, 1, n);
    CongSmall(x % n, 1, n);
  }

  lemma PrimeGcd(n: int, b: nat)
    requires IsPrime(n) && b >= 1
    ensures Gcd(n, b) == 1 || Gcd(n, b) == n
  {
    GcdDivides(n, b);
    DividesBound(Gcd(n, b), n);
  }

  lemma CoprimeNotDivides(n: int, b: nat)
    requires n >= 2 && Gcd(n, b) == 1
    ensures !Divides(n, b)
  {
    if Divides(n, b) {
      DividesSelf(n, 1);
      GcdIsGreatest(n, b, n);
      DividesBound(n, 1);
    }
  }

  lemma NextIsNotMultiple(n: int, b: int)
    requires n >= 2 && Divides(n, b)
    ensures !Divides(n, b + 1)
  {
    if Divides(n, b + 1) {
      DividesSum(n, b + 1, b);
      DividesBound(n, 1);
    }
  }

  lemma OddMinusOne(n: int, p: nat, q: int)
    requires n % 2 == 1 && p >= 0 && q % 2 == 1 && n - 1 == Pow2(p) * q
    ensures p >= 1
  {
    TimesOne(p, q);
  }

  lemma TimesOne(p: nat, q: int)
    ensures p == 0 ==> Pow2(p) * q == q
  {
  }

  /** The base `miller_rabin` uses when asked for `b0`: at least 2, and the next one if n divides it. */
  ghost function BaseUsed(n: int, b0: int): (b: int)
    ensures b >= 2
  {
    var start := if b0 < 2 then 2 else b0;
    if Divides(n, start) then start + 1 else start
  }

  /** It is the least base from there on that n does not divide. */
  lemma BaseIsLeast(n: int, b0: int)
    requires n >= 2
    ensures var (b, start) := (BaseUsed(n, b0), if b0 < 2 then 2 else b0);
            start <= b && !Divides(n, b) && forall c :: start <= c < b ==> Divides(n, c)
  {
    var start := if b0 < 2 then 2 else b0;
    if Divides(n, start) {
      NextIsNotMultiple(n, start);
    }
    hide Divides;
  }

  /** The strong probable-prime condition, with n - 1 split into a power of two and an odd factor. */
  ghost predicate StrongAt(n: int, b: int)
    requires n > 1
  {
    exists p: nat, q: nat :: q % 2 == 1 && n - 1 == Pow2(p) * q && StrongProbablePrime(n, b, p, q)
  }

  /** Finds a base coprime to n, from b upwards; stops early when n has a common factor below n with it. */
  method CoprimeBase(n: I64, b0: I64) returns (composite: bool, b: I64)
    requires n >= 3 && 2 <= b0 && (b0 == TWO_63 - 1 ==> !Divides(n, b0))
    ensures composite ==> !IsPrime(n)
    ensures composite <==> Gcd(n, BaseUsed(n, b0)) != 1
    ensures !composite ==> b == BaseUsed(n, b0)
  {
    hide IsPrime, Divides, Gcd;
    b := b0;
    var g := Gcd(n, b);
    FirstGcd(n, b0);
    while g != 1
      invariant b0 <= b < TWO_63 && g == Gcd(n, b)
      invariant b == b0 || (b == b0 + 1 && Divides(n, b0) && !Divides(n, b))
      invariant b == TWO_63 - 1 ==> !Divides(n, b)
      decreases Divides(n, b)
    {
      FirstGcd(n, b);
      if n > g {
        if IsPrime(n) {
          PrimeGcd(n, b);
        }
        return true, b;
      }
      NextIsNotMultiple(n, b);
      NextIsCoprime(n, b);
      b := b + 1;
      g := Gcd(n, b);
    }
    composite := false;
  }

  lemma FirstGcd(n: int, b: nat)
    requires n >= 3 && b >= 1
    ensures 1 <= Gcd(n, b) <= n && (Gcd(n, b) == n <==> Divides(n, b))
  {
    GcdDivides(n, b);
    DividesBound(Gcd(n, b), n);
    DividesSelf(n, 1);
    GcdIsGreatest(n, b, n);
    hide Gcd, Divides;
    if Divides(n, b) {
      DividesBound(n, Gcd(n, b));
    }
  }

  lemma NextIsCoprime(n: int, b: nat)
    requires n >= 3 && b >= 1 && Divides(n, b)
    ensures Gcd(n, b + 1) == 1
  {
    hide Gcd, Divides;
    var d := Gcd(n, b + 1);
    GcdDivides(n, b + 1);
    DividesTrans(d, n, b);
    DividesSum(d, b + 1, b);
    DividesBound(d, 1);
    FirstGcd(n, b + 1);
  }

  /** A number has one power of two and one odd factor. */
  lemma {:induction false} SplitOnce(p: nat, q: int, r: nat, t: int)
    requires Pow2(p) * q == Pow2(r) * t && q % 2 == 1 && t % 2 == 1
    ensures p == r && q == t
  {
    TimesOne(p, q);
    TimesOne(r, t);
    if p > 0 {
      HalveOnce(p, q);
    }
    if r > 0 {
      HalveOnce(r, t);
    }
    hide Pow2;
    if p > 0 && r > 0 {
      SplitOnce(p - 1, q, r - 1, t);
    }
  }

  lemma HalveOnce(p: nat, q: int)
    requires p > 0
    ensures Pow2(p) * q == 2 * (Pow2(p - 1) * q)
  {
    assert Pow2(p) == 2 * Pow2(p - 1);
  }

  /** One split decides the condition. */
  lemma StrongExactly(n: int, b: int, p: nat, q: nat)
    requires n > 1 && q % 2 == 1 && n - 1 == Pow2(p) * q
    ensures StrongAt(n, b) <==> StrongProbablePrime(n, b, p, q)
  {
    hide StrongProbablePrime;
    if StrongAt(n, b) {
      var r: nat, t: nat :| t % 2 == 1 && n - 1 == Pow2(r) * t && StrongProbablePrime(n, b, r, t);
      SplitOnce(p, q, r, t);
    }
  }

  /**
   `miller_rabin` accepts 2 and the odd numbers that are coprime to the base it uses and strong probable primes
   to it, and nothing else. No prime is ever rejected, whatever the base.
   */
  method MillerRabin(n: I64, b0: I64) returns (result: bool)
    requires n > 2 && b0 == TWO_63 - 1 ==> !Divides(n, b0)
    ensures IsPrime(n) ==> result
    ensures result <==> n == 2 || (n > 2 && n % 2 == 1 && Gcd(n, BaseUsed(n, b0)) == 1 && StrongAt(n, BaseUsed(n, b0)))
  {
    hide IsPrime, Divides, Square, StrongProbablePrime, StrongAt, Gcd, BaseUsed;
    if n == 2 {
      return true;
    }
    if n < 2 || n % 2 == 0 {
      if IsPrime(n) {
        PrimeAtLeastTwo(n);
        OddPrime(n);
      }
      return false;
    }
    var start: I64 := if b0 < 2 then 2 else b0;
    SameBase(n, b0);
    var composite, b := CoprimeBase(n, start);
    if composite {
      return false;
    }
    var n_1: I64 := n - 1;
    var p, q := TransformNum(n_1);
    OddMinusOne(n, p, q);
    StrongExactly(n, b, p, q);
    result := StrongTest(n, b, p, q);
  }

  lemma SameBase(n: int, b0: int)
    ensures BaseUsed(n, b0) == BaseUsed(n, if b0 < 2 then 2 else b0)
  {
  }

  /** The power and its squares. */
  method StrongTest(n: I64, b: I64, p: I64, q: I64) returns (result: bool)
    requires n >= 3 && b >= 2 && Gcd(n, b) == 1 && p >= 1 && q > 0 && q % 2 == 1 && n - 1 == Pow2(p) * q
    ensures IsPrime(n) ==> result
    ensures result <==> StrongProbablePrime(n, b, p, q)
  {
    hide IsPrime, Divides, Square, StrongProbablePrime, Gcd;
    var n_1: I64 := n - 1;
    var rem := PowMod(b, q, n);
    SquareZero(b, q, n);
    if rem == 1 || rem == n_1 {
      Accepted(n, b, p, q, 0);
      return true;
    }
    var i: I64 := 1;
    while i < p
      invariant 1 <= i <= p
      invariant rem == Square(b, q, i - 1, n) && 0 <= rem < n && rem != n_1
      invariant forall j: nat :: j < i ==> Square(b, q, j, n) != n_1
      invariant IsPrime(n) ==> rem != 1
    {
      SquareStep(b, q, i - 1, n);
      if IsPrime(n) {
        NotOneSquared(n, rem);
      }
      NonNegative(rem);
      rem := MulMod(rem, rem, n);
      if rem == n_1 {
        Accepted(n, b, p, q, i);
        return true;
      }
      i := i + 1;
    }
    if IsPrime(n) {
      CoprimeNotDivides(n, b);
      SequenceEnds(n, b, p, q);
      SquareStep(b, q, p - 1, n);
      NotOneSquared(n, rem);
    }
    Rejected(n, b, p, q);
    return false;
  }

  lemma Rejected(n: int, b: int, p: nat, q: nat)
    requires n >= 3 && Square(b, q, 0, n) != 1 && forall j: nat :: j < p ==> Square(b, q, j, n) != n - 1
    ensures !StrongProbablePrime(n, b, p, q)
  {
    SquareZero(b, q, n);
    hide Pow, Pow2;
    forall i: nat | i < p
      ensures Pow(b, Pow2(i) * q) % n != n - 1
    {
      assert Square(b, q, i, n) != n - 1;
    }
  }

  lemma NonNegative(x: int)
    ensures x * x >= 0
  {
  }

  lemma SquareZero(b: int, q: nat, n: int)
    requires n > 0
    ensures Square(b, q, 0, n) == Pow(b, q) % n
  {
    assert Pow2(0) * q == q;
  }

  lemma Accepted(n: int, b: int, p: nat, q: nat, i: nat)
    requires n >= 3 && i < p
    requires Square(b, q, i, n) == n - 1 || Pow(b, q) % n == 1
    ensures StrongProbablePrime(n, b, p, q)
  {
  }

  /**
   `isprime`, given the outcome `lucas` of `lucas_selfridge`, which is asked only when nothing else decides: from
   29 squared on, exactly the strong probable primes to base 2 without a small factor that pass the last test.
   */
  method IsPrimeTest(table: PrimeTable, n: I64, lucas: bool) returns (result: bool)
    requires table.Valid()
    modifies table
    ensures table.Valid()
    ensures n < 29 * 29 ==> (result <==> IsPrime(n))
    ensures (lucas <==> IsPrime(n)) ==> (result <==> IsPrime(n))
    ensures n >= 29 * 29 ==>
              (result <==> lucas && n % 2 == 1 && StrongAt(n, 2)
                           && NoFactorUpTo(n, if table.counted < 29 then 29 else table.counted))
  {
    hide Divides, Gcd, StrongAt, IsPrime, BaseUsed;
    var div := PrimeDivTrivial(table, n, 29);
    if div == 1 {
      return true;
    }
    if div > 1 {
      FactorIsNotPrime(div, n);
      return false;
    }
    if n > 2 {
      BaseTwo(n);
    }
    var strong := MillerRabin(n, 2);
    if !strong {
      return false;
    }
    return lucas;
  }

  lemma FactorIsNotPrime(d: int, n: int)
    requires SmallestProperFactor(d, n)
    ensures !IsPrime(n)
  {
    PrimeAtLeastTwo(d);
  }

  lemma BaseTwo(n: int)
    requires n > 2
    ensures BaseUsed(n, 2) == 2 && (n % 2 == 1 ==> Gcd(n, 2) == 1)
  {
    hide Gcd, IsPrime, Divides;
    if Divides(n, 2) {
      DividesBound(n, 2);
    }
    TwoIsPrime();
    FirstGcd(n, 2);
    GcdDivides(n, 2);
    DividesBound(Gcd(n, 2), 2);
    if Gcd(n, 2) == 2 {
      DividesRem(2, n);
    }
  }
}
