/** Counting facts shared by the probe sequence and by Fermat's little theorem. */
module Pigeonhole {

  ghost predicate Distinct<T>(s: seq<T>) {
    forall i, j :: 0 <= i < j < |s| ==> s[i] != s[j]
  }

  ghost function Range(lo: int, hi: int): (r: set<int>)
    requires lo <= hi
    ensures forall i :: i in r <==> lo <= i < hi
    ensures |r| == hi - lo
    decreases hi - lo
  {
    if lo == hi then {} else Range(lo, hi - 1) + {hi - 1}
  }

  ghost function Elements<T>(s: seq<T>): set<T> {
    set x | x in s
  }

  lemma {:induction false} DistinctSize<T>(s: seq<T>)
    requires Distinct(s)
    ensures |Elements(s)| == |s|
  {
    if s == [] {
      assert Elements(s) == {};
    } else {
      var n := |s| - 1;
      DistinctSize(s[..n]);
      assert s[n] !in s[..n];
      assert s == s[..n] + [s[n]];
      assert Elements(s) == Elements(s[..n]) + {s[n]};
    }
  }

  lemma SubsetOfSameSize<T>(a: set<T>, b: set<T>)
    requires a <= b && |a| == |b|
    ensures a == b
  {
    assert b == a + (b - a);
    assert |b| == |a| + |b - a|;
  }

  /** As many distinct numbers as the interval is long: every number of the interval occurs. */
  lemma DistinctFillsRange(s: seq<int>, lo: int, hi: int)
    requires lo <= hi && |s| == hi - lo
    requires Distinct(s)
    requires forall i :: 0 <= i < |s| ==> lo <= s[i] < hi
    ensures forall v :: lo <= v < hi ==> v in s
  {
    DistinctSize(s);
    SubsetOfSameSize(Elements(s), Range(lo, hi));
    forall v | lo <= v < hi
      ensures v in s
    {
      assert v in Range(lo, hi);
    }
  }

  lemma SomeKey<K, V>(m: map<K, V>) returns (k: K)
    requires |m| != 0
    ensures k in m
  {
    assert |m.Keys| == |m|;
    assert m.Keys != {};
    k :| k in m.Keys;
  }
}
