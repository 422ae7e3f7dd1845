/** The incremental table of primes behind `get_primes`, and trial division by it. */
module PrimeTables {
  import opened Arith
  import opened NumberTheory

  /** All primes up to `b`, in increasing order. */
  ghost function PrimesUpTo(b: int): seq<int>
    decreases if b < 2 then 0 else b
  {
    if b < 2 then [] else PrimesUpTo(b - 1) + (if IsPrime(b) then [b] else [])
  }

  ghost predicate Increasing(s: seq<int>) {
    forall i, j :: 0 <= i < j < |s| ==> s[i] < s[j]
  }

  /** The table is increasing and holds the primes up to `b` and nothing else. */
  lemma {:induction false} PrimesUpToIs(b: int)
    ensures Increasing(PrimesUpTo(b))
    ensures forall i :: 0 <= i < |PrimesUpTo(b)| ==> IsPrime(PrimesUpTo(b)[i]) && PrimesUpTo(b)[i] <= b
    ensures forall p :: IsPrime(p) && p <= b ==> p in PrimesUpTo(b)
    decreases if b < 2 then 0 else b
  {
    hide IsPrime;
    if b >= 2 {
      PrimesUpToIs(b - 1);
    } else {
      forall p | IsPrime(p)
        ensures p >= 2
      {
        PrimeAtLeastTwo(p);
      }
    }
  }

  lemma PrimeAtLeastTwo(p: int)
    requires IsPrime(p)
    ensures p >= 2
  {
  }

  lemma {:induction false} NoNewPrimes(a: int, b: int)
    requires a <= b && forall p :: a < p <= b ==> !IsPrime(p)
    ensures PrimesUpTo(b) == PrimesUpTo(a)
    decreases b - a
  {
    hide IsPrime;
    if a < b {
      NoNewPrimes(a, b - 1);
    }
  }

  /** The table for a smaller bound is a prefix of the table for a larger one. */
  lemma {:induction false} PrimesPrefix(a: int, b: int)
    requires a <= b
    ensures PrimesUpTo(a) <= PrimesUpTo(b)
    decreases b - a
  {
    hide IsPrime;
    if a < b {
      PrimesPrefix(a, b - 1);
    }
  }

  /** Every number above 1 has a smallest prime factor; it is the number itself or at most its square root. */
  lemma SmallestFactor(n: int) returns (p: int)
    requires n >= 2
    ensures IsPrime(p) && Divides(p, n) && p <= n
    ensures forall d :: 2 <= d < p ==> !Divides(d, n)
    ensures p == n || p * p <= n
  {
    p := 2;
    DividesSelf(n, 1);
    while !Divides(p, n)
      invariant 2 <= p <= n
      invariant forall d :: 2 <= d < p ==> !Divides(d, n)
      decreases n - p
    {
      p := p + 1;
    }
    forall d | 2 <= d < p
      ensures !Divides(d, p)
    {
      if Divides(d, p) {
        DividesTrans(d, p, n);
      }
    }
    if p != n {
      FactorBound(p, n);
    }
  }

  lemma FactorBound(p: int, n: int)
    requires 2 <= p < n && Divides(p, n)
    requires forall d :: 2 <= d < p ==> !Divides(d, n)
    ensures p * p <= n
  {
    var k :| k * p == n;
    if k <= 1 {
      MulMonotone(k, 1, p);
    }
    DividesIntro(k, n, p);
    MulMonotone(p, k, p);
  }

  lemma OddPrime(p: int)
    requires IsPrime(p) && p > 2
    ensures p % 2 == 1
  {
    DividesRem(2, p);
  }

  /** How many leading elements of an increasing list are at most `b` (`std::upper_bound`). */
  function UpperBound(s: seq<int>, b: int): (k: nat)
    ensures k <= |s|
  {
    if s == [] || s[0] > b then 0 else 1 + UpperBound(s[1..], b)
  }

  lemma {:induction false} UpperBoundIs(s: seq<int>, b: int, k: nat)
    requires k <= |s| && (forall i :: 0 <= i < k ==> s[i] <= b) && (forall i :: k <= i < |s| ==> s[i] > b)
    ensures UpperBound(s, b) == k
  {
    if s != [] && k > 0 {
      UpperBoundIs(s[1..], b, k - 1);
    }
  }

  lemma UpperBoundOfTable(c: int, b: int)
    requires b <= c
    ensures UpperBound(PrimesUpTo(c), b) == |PrimesUpTo(b)|
    ensures PrimesUpTo(c)[..|PrimesUpTo(b)|] == PrimesUpTo(b)
  {
    hide IsPrime, PrimesUpTo, UpperBound;
    var s, t := PrimesUpTo(c), PrimesUpTo(b);
    PrimesPrefix(b, c);
    PrimesUpToIs(b);
    PrimesUpToIs(c);
    forall i | |t| <= i < |s|
      ensures s[i] > b
    {
      assert forall j :: 0 <= j < |t| ==> t[j] == s[j] < s[i];
      assert s[i] !in t;
    }
    UpperBoundIs(s, b, |t|);
  }

  class PrimeTable {
    var primes: seq<int>
    var counted: int

    /** Untouched, or exactly the primes up to the largest bound asked for. */
    ghost predicate Valid()
      reads this
    {
      || (counted == 0 && primes == [])
      || (counted >= 2 && primes == PrimesUpTo(counted))
    }

    constructor ()
      ensures Valid() && counted == 0
    {
      primes := [];
      counted := 0;
    }

    /** Trial division of `cur` by the table. */
    method HasNoDivisor(cur: int) returns (prime: bool)
      requires cur >= 3 && primes == PrimesUpTo(cur - 1)
      ensures prime <==> IsPrime(cur)
    {
      hide IsPrime, Divides, PrimesUpTo;
      PrimesUpToIs(cur - 1);
      var i := 0;
      while i < |primes|
        invariant 0 <= i <= |primes|
        invariant forall j :: 0 <= j < i ==> !Divides(primes[j], cur) && primes[j] * primes[j] <= cur
      {
        var div := primes[i];
        PrimeAtLeastTwo(div);
        if div * div > cur {
          NoSmallFactor(primes, cur, i);
          return true;
        }
        DividesRem(div, cur);
        if cur % div == 0 {
          ProperFactor(div, cur);
          return false;
        }
        i := i + 1;
      }
      NoSmallFactor(primes, cur, i);
      return true;
    }

    /** `get_primes`. Asking a fresh table for bound 1 is the one call that spoils it. */
    method GetPrimes(b: int) returns (pi: nat)
      requires Valid()
      modifies this
      ensures Valid() <==> !(old(counted) == 0 && b == 1)
      ensures !(old(counted) == 0 && b == 1) ==>
                && counted == (if b > old(counted) then b else old(counted))
                && pi == |PrimesUpTo(b)| <= |primes| && primes[..pi] == PrimesUpTo(b)
      ensures old(counted) == 0 && b == 1 ==> primes == [2] && counted == 1 && pi == 1
    {
      hide IsPrime;
      if counted >= b {
        pi := UpperBound(primes, b);
        if counted >= 2 {
          UpperBoundOfTable(counted, b);
        }
        return;
      }
      if counted == 0 {
        primes := primes + [2];
        counted := 2;
        TwoIsPrime();
      }
      var first := 3;
      if counted != 2 {
        LastPrime(counted);
        first := primes[|primes| - 1] + 2;
      }
      var cur := first;
      while cur <= b
        invariant cur % 2 == 1 && 3 <= cur && (cur <= b + 2 || cur == 3)
        invariant primes == PrimesUpTo(cur - 1) && counted == old(if counted == 0 then 2 else counted)
        decreases b - cur
      {
        var curIsPrime := HasNoDivisor(cur);
        if curIsPrime {
          primes := primes + [cur];
        }
        EvenIsNotPrime(cur + 1);
        cur := cur + 2;
      }
      if b >= 2 {
        NoPrimesBetween(b, cur - 1);
      }
      counted := b;
      pi := |primes|;
    }

    /** Any history of calls other than with bound 1 leaves exactly the primes up to the largest bound. */
    method History(bounds: seq<int>)
      requires Valid() && forall i :: 0 <= i < |bounds| ==> bounds[i] != 1
      modifies this
      ensures Valid()
      ensures counted == Largest(old(counted), bounds)
    {
      var i := 0;
      while i < |bounds|
        invariant 0 <= i <= |bounds| && Valid()
        invariant counted == Largest(old(counted), bounds[..i])
      {
        var pi := GetPrimes(bounds[i]);
        assert bounds[..i + 1][..i] == bounds[..i];
        i := i + 1;
      }
      assert bounds[..i] == bounds;
    }
  }

  function Largest(start: int, s: seq<int>): int {
    if s == [] then start
    else var l := Largest(start, s[..|s| - 1]); if s[|s| - 1] > l then s[|s| - 1] else l
  }

  lemma TwoIsPrime()
    ensures IsPrime(2) && PrimesUpTo(2) == [2]
  {
    assert PrimesUpTo(1) == [];
  }

  lemma EvenIsNotPrime(n: int)
    requires n > 2 && n % 2 == 0
    ensures !IsPrime(n)
  {
    DividesRem(2, n);
  }

  lemma NoPrimesBetween(b: int, c: int)
    requires b >= 2 && c % 2 == 0 && (b <= c <= b + 1)
    ensures PrimesUpTo(b) == PrimesUpTo(c)
  {
    hide IsPrime;
    if b < c {
      EvenIsNotPrime(c);
    }
  }

  /** The last prime of a table is odd, and the next odd number is where the search goes on. */
  lemma LastPrime(c: int)
    requires c > 2
    ensures var s := PrimesUpTo(c);
            s != [] && s[|s| - 1] % 2 == 1 && 3 <= s[|s| - 1] <= c && PrimesUpTo(s[|s| - 1] + 1) == s
  {
    ThreeIsPrime();
    hide IsPrime, PrimesUpTo;
    var s := PrimesUpTo(c);
    PrimesUpToIs(c);
    assert 3 in s;
    var last := s[|s| - 1];
    var at :| 0 <= at < |s| && s[at] == 3;
    assert last >= 3;
    OddPrime(last);
    forall p | last < p <= c
      ensures !IsPrime(p)
    {
      assert p !in s;
    }
    NoNewPrimes(last, c);
    EvenIsNotPrime(last + 1);
    NoNewPrimes(last, last + 1);
  }

  lemma ThreeIsPrime()
    ensures IsPrime(3)
  {
    DividesRem(2, 3);
  }

  lemma ProperFactor(d: int, n: int)
    requires 2 <= d < n && Divides(d, n)
    ensures !IsPrime(n)
  {
  }

  /** No prime of the table up to the square root divides `n`: then `n` is prime. */
  lemma NoSmallFactor(table: seq<int>, n: int, i: nat)
    requires n >= 3 && i <= |table| && Increasing(table)
    requires forall p :: IsPrime(p) && p <= n - 1 && p * p <= n ==> p in table
    requires forall j :: 0 <= j < i ==> !Divides(table[j], n)
    requires i < |table| ==> table[i] >= 2 && table[i] * table[i] > n
    ensures IsPrime(n)
  {
    var p := SmallestFactor(n);
    if p != n {
      assert p in table;
      var j :| 0 <= j < |table| && table[j] == p;
      if j >= i {
        MulMonotone(table[i], p, p);
        MulMonotone(table[i], p, table[i]);
      }
    }
  }
}
