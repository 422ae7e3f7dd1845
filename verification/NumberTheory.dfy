/** Divisibility, primes, powers and Fermat's little theorem. */
module NumberTheory {
  import opened Arith
  import opened Pigeonhole

  ghost predicate Divides(d: int, n: int) {
    exists k: int :: k * d == n
  }

  /** a and b leave the same remainder modulo n. */
  ghost predicate Cong(a: int, b: int, n: int) {
    Divides(n, a - b)
  }

  ghost predicate IsPrime(p: int) {
    p >= 2 && forall d :: 2 <= d < p ==> !Divides(d, p)
  }

  lemma DividesIntro(d: int, n: int, k: int)
    requires n == k * d
    ensures Divides(d, n)
  {
  }

  lemma DividesRem(d: int, n: int)
    requires d > 0
    ensures Divides(d, n) <==> n % d == 0
  {
    DivMod(n, d);
    if n % d == 0 {
      DividesIntro(d, n, n / d);
    }
    if Divides(d, n) {
      var k :| k * d == n;
      ModUnique(n, k, d, 0);
    }
  }

  lemma DividesSum(d: int, a: int, b: int)
    requires Divides(d, a) && Divides(d, b)
    ensures Divides(d, a + b) && Divides(d, a - b)
  {
    var k :| k * d == a;
    var l :| l * d == b;
    assert (k + l) * d == k * d + l * d;
    assert (k - l) * d == k * d - l * d;
    DividesIntro(d, a + b, k + l);
    DividesIntro(d, a - b, k - l);
  }

  lemma DividesScaled(d: int, a: int, c: int)
    requires Divides(d, a)
    ensures Divides(d, c * a) && Divides(d, a * c)
  {
    var k :| k * d == a;
    assert (c * k) * d == c * (k * d);
    DividesIntro(d, c * a, c * k);
  }

  lemma DividesSelf(d: int, c: int)
    ensures Divides(d, c * d) && Divides(d, d) && Divides(1, d)
  {
    DividesIntro(d, c * d, c);
    DividesIntro(d, d, 1);
    DividesIntro(1, d, d);
  }

  lemma DividesTrans(a: int, b: int, c: int)
    requires Divides(a, b) && Divides(b, c)
    ensures Divides(a, c)
  {
    var k :| k * b == c;
    DividesScaled(a, b, k);
  }

  lemma DividesBound(d: int, n: int)
    requires Divides(d, n) && n > 0
    ensures d <= n
  {
    if d > 0 {
      var k :| k * d == n;
      if k >= 1 {
        MulAtLeast(k, d);
      } else {
        MulMonotone(k, 0, d);
      }
    }
  }

  lemma CongMul(a: int, b: int, c: int, d: int, n: int)
    requires Cong(a, b, n) && Cong(c, d, n)
    ensures Cong(a * c, b * d, n)
  {
    DividesScaled(n, a - b, c);
    DividesScaled(n, c - d, b);
    assert a * c - b * d == c * (a - b) + b * (c - d);
    DividesSum(n, c * (a - b), b * (c - d));
  }

  lemma CongTrans(a: int, b: int, c: int, n: int)
    requires Cong(a, b, n) && Cong(b, c, n)
    ensures Cong(a, c, n)
  {
    DividesSum(n, a - b, b - c);
  }

  lemma CongSym(a: int, b: int, n: int)
    requires Cong(a, b, n)
    ensures Cong(b, a, n)
  {
    DividesScaled(n, a - b, -1);
    assert (-1) * (a - b) == b - a;
  }

  lemma CongRefl(a: int, n: int)
    ensures Cong(a, a, n)
  {
    DividesIntro(n, 0, 0);
  }

  lemma CongMod(a: int, n: int)
    requires n > 0
    ensures Cong(a % n, a, n) && Cong(a, a % n, n)
  {
    DivMod(a, n);
    DividesIntro(n, a - a % n, a / n);
    CongSym(a, a % n, n);
  }

  /** Remainders are equal exactly for congruent numbers. */
  lemma CongSmall(a: int, b: int, n: int)
    requires n > 0 && Cong(a, b, n) && 0 <= a < n && 0 <= b < n
    ensures a == b
  {
    var k :| k * n == a - b;
    SmallMultiple(k, n);
  }

  // ---------- powers ----------

  function Pow(b: int, e: nat): int {
    if e == 0 then 1 else b * Pow(b, e - 1)
  }

  lemma {:induction false} PowAdd(b: int, m: nat, n: nat)
    ensures Pow(b, m + n) == Pow(b, m) * Pow(b, n)
  {
    if m > 0 {
      PowAdd(b, m - 1, n);
      assert b * (Pow(b, m - 1) * Pow(b, n)) == (b * Pow(b, m - 1)) * Pow(b, n);
    }
  }

  lemma {:induction false} PowSquare(b: int, n: nat)
    ensures Pow(b * b, n) == Pow(b, 2 * n)
  {
    if n > 0 {
      PowSquare(b, n - 1);
      assert Pow(b, 2 * n) == b * Pow(b, 2 * n - 1) == b * (b * Pow(b, 2 * (n - 1)));
      assert b * (b * Pow(b, 2 * (n - 1))) == (b * b) * Pow(b, 2 * (n - 1));
    }
  }

  lemma {:induction false} CongPow(a: int, b: int, e: nat, n: int)
    requires Cong(a, b, n)
    ensures Cong(Pow(a, e), Pow(b, e), n)
  {
    if e == 0 {
      CongRefl(1, n);
    } else {
      CongPow(a, b, e - 1, n);
      CongMul(a, b, Pow(a, e - 1), Pow(b, e - 1), n);
    }
  }

  lemma {:induction false} PowPow(b: int, e: nat, h: nat)
    ensures Pow(b, e * h) == Pow(Pow(b, e), h)
  {
    if h == 0 {
      assert e * h == 0;
    } else {
      PowPow(b, e, h - 1);
      assert e * h == e + e * (h - 1);
      PowAdd(b, e, e * (h - 1));
    }
  }

  // ---------- Euclid's lemma ----------

  lemma {:induction false} EuclidBelow(p: int, a: int, b: int)
    requires IsPrime(p) && 1 <= a < p && Divides(p, a * b)
    ensures Divides(p, b)
    decreases a
  {
    if a == 1 {
      assert a * b == b;
    } else {
      DividesRem(a, p);
      DivMod(p, a);
      var q, r := p / a, p % a;
      assert r * b == b * p - q * (a * b) by { assert p == q * a + r; assert (q * a) * b == q * (a * b); }
      DividesSelf(p, b);
      DividesScaled(p, a * b, q);
      DividesSum(p, b * p, q * (a * b));
      EuclidBelow(p, r, b);
    }
  }

  /** A prime that divides a product divides one of the factors. */
  lemma Euclid(p: int, a: int, b: int)
    requires IsPrime(p) && Divides(p, a * b)
    ensures Divides(p, a) || Divides(p, b)
  {
    DivMod(a, p);
    var q, r := a / p, a % p;
    if r == 0 {
      DividesIntro(p, a, q);
    } else {
      assert r * b == a * b - (q * b) * p by { assert a == q * p + r; assert (q * p) * b == (q * b) * p; }
      DividesSelf(p, q * b);
      DividesSum(p, a * b, (q * b) * p);
      EuclidBelow(p, r, b);
    }
  }

  /** Only 1 and -1 are square roots of 1 modulo a prime. */
  lemma SquareRootsOfOne(p: int, x: int)
    requires IsPrime(p) && 0 <= x < p && Cong(x * x, 1, p)
    ensures x == 1 || x == p - 1
  {
    assert x * x - 1 == (x - 1) * (x + 1);
    Euclid(p, x - 1, x + 1);
    if Divides(p, x - 1) {
      CongSmall(x, 1, p);
    } else {
      assert (x + 1) - p == x - (p - 1);
      DividesSelf(p, 1);
      DividesSum(p, x + 1, p);
      CongSmall(x, p - 1, p);
    }
  }

  // ---------- Fermat's little theorem ----------

  function Product(s: seq<int>): int {
    if s == [] then 1 else s[0] * Product(s[1..])
  }

  lemma {:induction false} ProductSplit(s: seq<int>, i: nat)
    requires i < |s|
    ensures Product(s) == s[i] * Product(s[..i] + s[i + 1..])
  {
    if i == 0 {
      assert s[..0] + s[1..] == s[1..];
    } else {
      var t := s[1..];
      ProductSplit(t, i - 1);
      assert t[..i - 1] + t[i..] == (s[..i] + s[i + 1..])[1..];
      var rest := Product(t[..i - 1] + t[i..]);
      assert s[0] * (s[i] * rest) == s[i] * (s[0] * rest);
    }
  }

  lemma ProductHead(s: seq<int>)
    requires s != []
    ensures Product(s) == s[0] * Product(s[1..])
  {
  }

  lemma {:induction false} ProductPermuted(s: seq<int>, t: seq<int>)
    requires multiset(s) == multiset(t)
    ensures Product(s) == Product(t)
  {
    hide Product;
    assert |s| == |multiset(s)| == |multiset(t)| == |t|;
    if s != [] {
      assert s[0] in multiset(s);
      var i: nat :| i < |t| && t[i] == s[0];
      var rest := t[..i] + t[i + 1..];
      ProductSplit(t, i);
      ProductHead(s);
      RestPermuted(s, t, i);
      ProductPermuted(s[1..], rest);
    } else {
      assert t == [];
    }
  }

  lemma RestPermuted(s: seq<int>, t: seq<int>, i: nat)
    requires multiset(s) == multiset(t) && s != [] && i < |t| && t[i] == s[0]
    ensures multiset(s[1..]) == multiset(t[..i] + t[i + 1..])
  {
    assert s == [s[0]] + s[1..];
    assert t == t[..i] + [t[i]] + t[i + 1..];
    assert multiset(s[1..]) == multiset(s) - multiset{s[0]};
    assert multiset(t[..i] + t[i + 1..]) == multiset(t) - multiset{t[i]};
  }

  lemma {:induction false} DistinctOnce<T>(s: seq<T>, x: T)
    requires Distinct(s)
    ensures multiset(s)[x] == if x in s then 1 else 0
  {
    if s != [] {
      DistinctOnce(s[1..], x);
      assert s == [s[0]] + s[1..];
    }
  }

  function Upto(n: nat): (s: seq<int>)
    ensures |s| == n && forall i :: 0 <= i < n ==> s[i] == i + 1
  {
    if n == 0 then [] else Upto(n - 1) + [n]
  }

  /** b, 2b, ..., nb modulo p. */
  function Scaled(b: int, p: int, n: nat): (s: seq<int>)
    requires p > 0
    ensures |s| == n && forall i :: 0 <= i < n ==> s[i] == (b * (i + 1)) % p
  {
    if n == 0 then [] else Scaled(b, p, n - 1) + [(b * n) % p]
  }

  lemma {:induction false} ProductAppend(s: seq<int>, x: int)
    ensures Product(s + [x]) == Product(s) * x
  {
    if s == [] {
      assert s + [x] == [x];
    } else {
      ProductAppend(s[1..], x);
      assert (s + [x])[1..] == s[1..] + [x];
      assert s[0] * (Product(s[1..]) * x) == (s[0] * Product(s[1..])) * x;
    }
  }

  lemma {:induction false} ScaledProduct(b: int, p: int, n: nat)
    requires p > 0
    ensures Cong(Product(Scaled(b, p, n)), Pow(b, n) * Product(Upto(n)), p)
  {
    if n == 0 {
      CongRefl(1, p);
    } else {
      ScaledProduct(b, p, n - 1);
      ProductAppend(Scaled(b, p, n - 1), (b * n) % p);
      ProductAppend(Upto(n - 1), n);
      ScaledStep(b, p, n, Pow(b, n - 1), Product(Upto(n - 1)), Product(Scaled(b, p, n - 1)));
    }
  }

  lemma ScaledStep(b: int, p: int, n: int, c: int, f: int, x: int)
    requires p > 0 && Cong(x, c * f, p)
    ensures Cong(x * ((b * n) % p), (b * c) * (f * n), p)
  {
    CongMod(b * n, p);
    CongMul(x, c * f, (b * n) % p, b * n, p);
    assert (c * f) * (b * n) == (b * c) * (f * n);
  }

  lemma ScaledDistinct(b: int, p: int)
    requires IsPrime(p) && !Divides(p, b)
    ensures var s := Scaled(b, p, p - 1);
            Distinct(s) && forall i :: 0 <= i < p - 1 ==> 1 <= s[i] < p
  {
    var s := Scaled(b, p, p - 1);
    forall i | 0 <= i < p - 1
      ensures 1 <= s[i] < p
    {
      ScaledNonZero(b, p, i + 1);
    }
    forall i, j | 0 <= i < j < p - 1
      ensures s[i] != s[j]
    {
      ScaledNonZero(b, p, j - i);
      if s[i] == s[j] {
        var x, y := b * (i + 1), b * (j + 1);
        ModDifference(x, y, p);
        assert y - x == b * (j - i);
        DividesIntro(p, b * (j - i), y / p - x / p);
        DividesRem(p, b * (j - i));
      }
    }
  }

  lemma ScaledNonZero(b: int, p: int, i: int)
    requires IsPrime(p) && !Divides(p, b) && 1 <= i < p
    ensures 1 <= (b * i) % p < p
  {
    DivMod(b * i, p);
    DividesRem(p, b * i);
    if Divides(p, b * i) {
      Euclid(p, b, i);
      DividesBound(p, i);
    }
  }

  lemma {:induction false} FactorialNotDivisible(p: int, n: nat)
    requires IsPrime(p) && n < p
    ensures !Divides(p, Product(Upto(n)))
  {
    if n == 0 {
      if Divides(p, 1) { DividesBound(p, 1); }
    } else {
      FactorialNotDivisible(p, n - 1);
      ProductAppend(Upto(n - 1), n);
      if Divides(p, Product(Upto(n - 1)) * n) {
        Euclid(p, Product(Upto(n - 1)), n);
        DividesBound(p, n);
      }
    }
  }

  lemma ScaledIsPermutation(b: int, p: int)
    requires IsPrime(p) && !Divides(p, b)
    ensures multiset(Scaled(b, p, p - 1)) == multiset(Upto(p - 1))
  {
    var s, t := Scaled(b, p, p - 1), Upto(p - 1);
    ScaledDistinct(b, p);
    DistinctFillsRange(s, 1, p);
    forall x
      ensures multiset(s)[x] == multiset(t)[x]
    {
      DistinctOnce(s, x);
      DistinctOnce(t, x);
      if 1 <= x < p {
        assert t[x - 1] == x;
      }
    }
  }

  lemma CancelFactor(p: int, c: int, f: int)
    requires IsPrime(p) && Cong(f, c * f, p) && !Divides(p, f)
    ensures Cong(c, 1, p)
  {
    CongSym(f, c * f, p);
    assert c * f - f == (c - 1) * f;
    Euclid(p, c - 1, f);
  }

  /** Fermat's little theorem. */
  lemma Fermat(p: int, b: int)
    requires IsPrime(p) && !Divides(p, b)
    ensures Cong(Pow(b, p - 1), 1, p)
  {
    ScaledIsPermutation(b, p);
    ProductPermuted(Scaled(b, p, p - 1), Upto(p - 1));
    ScaledProduct(b, p, p - 1);
    FactorialNotDivisible(p, p - 1);
    hide *;
    CancelFactor(p, Pow(b, p - 1), Product(Upto(p - 1)));
  }
}
