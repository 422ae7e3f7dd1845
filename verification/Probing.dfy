/**
 The order in which a hash index looks at its slots (`stbds_hm_find_slot`,
 `stbds_hmput_key`, and the copy loop of `stbds_make_hash_index`).

 A slot count is a power of two, at least one bucket of eight slots, so the
 masks `x & (slot_count-1)` and `x & 7` of the source are `x % slotCount` and
 `x % 8` here.
 */
module Probing {
  import opened Arith
  import opened Pigeonhole

  const BUCKET_LENGTH: nat := 8

  ghost predicate SlotCount(n: nat) {
    exists e: nat :: n == 8 * Pow2(e)
  }

  lemma SlotCountDoubles(n: nat)
    requires SlotCount(n)
    ensures SlotCount(2 * n) && n % 8 == 0 && n >= 8
  {
    var e: nat :| n == 8 * Pow2(e);
    assert 2 * n == 8 * Pow2(e + 1);
  }

  lemma SlotCountHalves(n: nat)
    requires SlotCount(n) && n > 8
    ensures SlotCount(n / 2) && n % 16 == 0
  {
    var e: nat :| n == 8 * Pow2(e);
    assert Pow2(0) == 1;
    assert Pow2(e) == 2 * Pow2(e - 1);
    hide Pow2;
    Sixteens(n, Pow2(e - 1));
  }

  lemma Sixteens(n: nat, h: nat)
    requires n == 16 * h
    ensures n / 2 == 8 * h && n % 16 == 0
  {
  }

  /** The position after `round` steps of 8, 16, 24, ... from `start`. */
  function RoundPos(start: nat, n: nat, round: nat): (pos: nat)
    requires n > 0
    ensures start < n ==> pos < n
  {
    if round == 0 then start else (RoundPos(start, n, round - 1) + 8 * round) % n
  }

  lemma FirstRound(start: nat, n: nat)
    requires n > 0
    ensures RoundPos(start, n, 0) == start
  {
  }

  lemma NextRound(start: nat, n: nat, r: nat)
    requires n > 0 && start < n
    ensures RoundPos(start, n, r + 1) == (RoundPos(start, n, r) + 8 * (r + 1)) % n < n
  {
  }

  /** The `k`-th slot looked at: bucket by bucket, wrapping around inside each bucket. */
  function Probe(start: nat, n: nat, k: nat): (slot: nat)
    requires n > 0
  {
    var pos := RoundPos(start, n, k / 8);
    pos - pos % 8 + (pos + k) % 8
  }

  /** The slot `d` places after `pos`, wrapping around inside the bucket that starts at `bucket`. */
  function Around(pos: nat, bucket: nat, d: nat): int {
    if pos + d < bucket + 8 then pos + d else pos + d - 8
  }

  lemma ProbeInRound(start: nat, n: nat, r: nat, k: nat, pos: nat)
    requires n > 0 && 8 * r <= k < 8 * r + 8 && pos == RoundPos(start, n, r)
    ensures Probe(start, n, k) == Around(pos, pos - pos % 8, k - 8 * r)
  {
    hide RoundPos;
    assert k / 8 == r;
    AroundBucket(pos, r, k);
  }

  lemma AroundBucket(pos: nat, r: nat, k: nat)
    requires 8 * r <= k < 8 * r + 8
    ensures pos - pos % 8 + (pos + k) % 8 == Around(pos, pos - pos % 8, k - 8 * r)
  {
    assert (pos + k) % 8 == (pos % 8 + (k - 8 * r)) % 8;
  }

  function Triangle(r: nat): nat {
    if r == 0 then 0 else Triangle(r - 1) + r
  }

  lemma {:induction false} TriangleDifference(r: nat, s: nat)
    requires r <= s
    ensures 2 * (Triangle(s) - Triangle(r)) == (s - r) * (s + r + 1)
    decreases s
  {
    if r < s {
      TriangleDifference(r, s - 1);
      assert (s - r) * (s + r + 1) == (s - 1 - r) * (s + r) + 2 * s;
    }
  }

  /** Half of an even product with an odd factor. */
  lemma OddHalf(a: nat, b: nat, z: int) returns (h: nat)
    requires a % 2 == 1 && a * b == 2 * z
    ensures b == 2 * h && a * h == z
  {
    var k := a / 2;
    assert a * b == 2 * (k * b) + b by { assert a == 2 * k + 1; }
    h := b / 2;
    assert b == 2 * h;
    assert a * (2 * h) == 2 * (a * h);
  }

  lemma TwiceMultiple(c: int, e: nat)
    ensures c * Pow2(e + 1) == 2 * (c * Pow2(e))
  {
    var p := Pow2(e);
    assert Pow2(e + 1) == 2 * p;
    hide Pow2;
    assert c * (2 * p) == 2 * (c * p);
  }

  /** 2^e divides a product with an odd factor only by dividing the other factor. */
  lemma {:induction false} OddFactor(a: nat, b: nat, c: nat, e: nat) returns (q: nat)
    requires a % 2 == 1 && a * b == c * Pow2(e)
    ensures b == q * Pow2(e)
  {
    if e == 0 {
      q := b;
    } else {
      TwiceMultiple(c, e - 1);
      hide Pow2;
      var h := OddHalf(a, b, c * Pow2(e - 1));
      q := OddFactor(a, h, c, e - 1);
      TwiceMultiple(q, e - 1);
    }
  }

  /** A positive product with an odd factor is a multiple of 2^e only if the other factor reaches 2^e. */
  lemma OddFactorBound(a: nat, b: nat, c: int, e: nat)
    requires a % 2 == 1 && b > 0 && a * b == c * Pow2(e)
    ensures b >= Pow2(e)
  {
    MulAtLeast(a, b);
    if c < 0 {
      MulAtLeast(-c, Pow2(e));
    }
    var q := OddFactor(a, b, c, e);
    if q > 0 {
      MulAtLeast(q, Pow2(e));
    }
  }

  lemma OddTerm(d: nat, t: nat)
    requires (d + t) % 2 == 1 && d % 2 == 0
    ensures t % 2 == 1 && t * d == d * t
  {
  }

  lemma OppositeParity(d: nat, t: nat, c: int, e: nat)
    requires 0 < d < Pow2(e) && 0 < t < Pow2(e) && (d + t) % 2 == 1
    ensures d * t != c * Pow2(e)
  {
    if d * t == c * Pow2(e) {
      if d % 2 == 1 {
        OddFactorBound(d, t, c, e);
      } else {
        OddTerm(d, t);
        OddFactorBound(t, d, c, e);
      }
    }
  }

  /** Distinct rounds below 2^e have triangular numbers that differ modulo 2^e. */
  lemma TrianglesDiffer(r: nat, s: nat, e: nat, c: int)
    requires r < s < Pow2(e)
    ensures Triangle(s) - Triangle(r) != c * Pow2(e)
  {
    TriangleDifference(r, s);
    TwiceMultiple(1, e);
    TwiceMultiple(c, e);
    OddDouble(s);
    hide *;
    var d, t := s - r, s + r + 1;
    assert d + t == 2 * s + 1;
    OppositeParity(d, t, c, e + 1);
  }

  lemma OddDouble(s: nat)
    ensures (2 * s + 1) % 2 == 1
  {
  }

  /** 8x + o modulo 8m, for an offset o inside a bucket. */
  lemma ScaledMod(x: nat, o: nat, m: nat, n: nat)
    requires m > 0 && o < 8 && n == 8 * m
    ensures (8 * x + o) % n == 8 * (x % m) + o
  {
    DivMod(x, m);
    var q := x / m;
    assert q * n == 8 * (q * m);
    ModUnique(8 * x + o, q, n, 8 * (x % m) + o);
  }

  lemma StepClosed(prev: nat, n: nat, m: nat, round: nat, t: nat, o: nat)
    requires m > 0 && n == 8 * m && o < 8 && prev == 8 * (t % m) + o
    ensures (prev + 8 * round) % n == 8 * ((t + round) % m) + o
  {
    ScaledMod(t % m + round, o, m, n);
    ModAdd(t, round, m);
  }

  /** The bucket of a position, and its place inside the bucket, round by round. */
  lemma {:induction false} RoundPosClosed(start: nat, m: nat, n: nat, round: nat)
    requires m > 0 && n == 8 * m && start < n
    ensures RoundPos(start, n, round) == 8 * ((start / 8 + Triangle(round)) % m) + start % 8
  {
    if round > 0 {
      RoundPosClosed(start, m, n, round - 1);
      StepClosed(RoundPos(start, n, round - 1), n, m, round, start / 8 + Triangle(round - 1), start % 8);
    } else {
      ModUnique(start / 8, 0, m, start / 8);
    }
  }

  /** Where the k-th probe lands, bucket and place inside the bucket apart. */
  lemma ProbeClosed(start: nat, m: nat, n: nat, k: nat)
    requires m > 0 && n == 8 * m && start < n
    ensures var p := Probe(start, n, k);
            p / 8 == (start / 8 + Triangle(k / 8)) % m && p % 8 == (start + k) % 8 && p < n
  {
    var pos, b := RoundPos(start, n, k / 8), (start / 8 + Triangle(k / 8)) % m;
    assert Probe(start, n, k) == pos - pos % 8 + (pos + k) % 8;
    hide *;
    RoundPosClosed(start, m, n, k / 8);
    DivMod(start / 8 + Triangle(k / 8), m);
    InBucket(pos, b, start, k, m);
  }

  lemma InBucket(pos: nat, b: nat, start: nat, k: nat, m: nat)
    requires b < m && pos == 8 * b + start % 8
    ensures var p := pos - pos % 8 + (pos + k) % 8;
            p / 8 == b && p % 8 == (start + k) % 8 && p < 8 * m
  {
    assert pos % 8 == start % 8;
    SamePlace(pos, b, start, k);
    assert pos - pos % 8 == 8 * b;
  }

  lemma SamePlace(pos: nat, b: nat, start: nat, k: nat)
    requires pos == 8 * b + start % 8
    ensures (pos + k) % 8 == (start + k) % 8
  {
    assert pos + k == 8 * (b - start / 8) + (start + k);
  }

  lemma BucketsDiffer(b: nat, r: nat, s: nat, e: nat)
    requires r < s < Pow2(e)
    ensures (b + Triangle(r)) % Pow2(e) != (b + Triangle(s)) % Pow2(e)
  {
    var x, y, m := b + Triangle(r), b + Triangle(s), Pow2(e);
    if x % m == y % m {
      ModDifference(x, y, m);
      TrianglesDiffer(r, s, e, y / m - x / m);
    }
  }

  lemma SlotsDiffer(p: nat, q: nat, start: nat, i: nat, j: nat)
    requires i < j && p % 8 == (start + i) % 8 && q % 8 == (start + j) % 8
    requires i / 8 < j / 8 ==> p / 8 != q / 8
    ensures p != q
  {
  }

  /** No two of the first `n` probes look at the same slot. */
  lemma ProbeInjective(start: nat, n: nat, e: nat, i: nat, j: nat)
    requires n == 8 * Pow2(e) && start < n && i < j < n
    ensures Probe(start, n, i) != Probe(start, n, j)
  {
    ProbeClosed(start, Pow2(e), n, i);
    ProbeClosed(start, Pow2(e), n, j);
    assert j / 8 < Pow2(e);
    if i / 8 < j / 8 {
      BucketsDiffer(start / 8, i / 8, j / 8, e);
    }
    SlotsDiffer(Probe(start, n, i), Probe(start, n, j), start, i, j);
  }

  lemma ProbeInRange(start: nat, n: nat, k: nat)
    requires SlotCount(n) && start < n
    ensures Probe(start, n, k) < n
  {
    var e: nat :| n == 8 * Pow2(e);
    ProbeClosed(start, Pow2(e), n, k);
  }

  ghost function FirstProbes(start: nat, n: nat, count: nat): (s: seq<int>)
    requires n > 0
    ensures |s| == count
    ensures forall k :: 0 <= k < count ==> s[k] == Probe(start, n, k)
  {
    if count == 0 then [] else FirstProbes(start, n, count - 1) + [Probe(start, n, count - 1)]
  }

  lemma FirstProbesDistinct(start: nat, n: nat, s: seq<int>)
    requires SlotCount(n) && start < n && s == FirstProbes(start, n, n)
    ensures Distinct(s) && forall k :: 0 <= k < n ==> 0 <= s[k] < n
  {
    var e: nat :| n == 8 * Pow2(e);
    forall i, j | 0 <= i < j < n
      ensures s[i] != s[j]
    {
      ProbeInjective(start, n, e, i, j);
    }
    forall k | 0 <= k < n
      ensures 0 <= s[k] < n
    {
      ProbeInRange(start, n, k);
    }
  }

  /** The first `n` probes, that is `n / 8` rounds, look at every slot exactly once. */
  lemma ProbeCoversOnce(start: nat, n: nat, slot: nat)
    requires SlotCount(n) && start < n && slot < n
    ensures exists k :: 0 <= k < n && Probe(start, n, k) == slot
    ensures forall i, j :: 0 <= i < j < n ==> Probe(start, n, i) != Probe(start, n, j)
  {
    var s := FirstProbes(start, n, n);
    FirstProbesDistinct(start, n, s);
    DistinctFillsRange(s, 0, n);
    assert slot in s;
    var k :| 0 <= k < n && s[k] == slot;
    assert Probe(start, n, k) == slot;
    forall i, j | 0 <= i < j < n
      ensures Probe(start, n, i) != Probe(start, n, j)
    {
      assert s[i] != s[j];
    }
  }
}
