/** Bytes, little-endian words and the bits of a flag word. */
module Bytes {
  import opened Arith

  type Byte = b: int | 0 <= b < 256

  /** The low `k` bytes of `v`, least significant first. */
  function Le(v: nat, k: nat): (s: seq<Byte>)
    ensures |s| == k
  {
    if k == 0 then [] else [v % 256] + Le(v / 256, k - 1)
  }

  function FromLe(s: seq<Byte>): nat {
    if s == [] then 0 else s[0] + 256 * FromLe(s[1..])
  }

  function Pow256(k: nat): (p: nat)
    ensures p >= 1
  {
    if k == 0 then 1 else 256 * Pow256(k - 1)
  }

  /** Reading back a word gives its low bytes. */
  lemma {:induction false} LeRoundTrip(v: nat, k: nat)
    ensures FromLe(Le(v, k)) == v % Pow256(k)
  {
    if k > 0 {
      LeRoundTrip(v / 256, k - 1);
      var p := Pow256(k - 1);
      assert Le(v, k)[1..] == Le(v / 256, k - 1);
      DivMod(v / 256, p);
      var q := (v / 256) / p;
      assert q * (256 * p) == 256 * (q * p);
      ModUnique(v, q, 256 * p, v % 256 + 256 * ((v / 256) % p));
    } else {
      ModUnique(v, v, 1, 0);
    }
  }

  lemma LeExact(v: nat, k: nat)
    requires v < Pow256(k)
    ensures FromLe(Le(v, k)) == v
  {
    LeRoundTrip(v, k);
    ModUnique(v, 0, Pow256(k), v);
  }

  lemma {:induction false} FromLeBound(s: seq<Byte>)
    ensures FromLe(s) < Pow256(|s|)
  {
    if s != [] {
      FromLeBound(s[1..]);
    }
  }

  lemma {:induction false} LeOfFromLe(s: seq<Byte>)
    ensures Le(FromLe(s), |s|) == s
  {
    if s != [] {
      var v, w := FromLe(s), FromLe(s[1..]);
      LeOfFromLe(s[1..]);
      FirstByte(s[0], w);
      assert v == s[0] + 256 * w && Le(v, |s|) == [v % 256] + Le(v / 256, |s| - 1);
      hide Le, FromLe;
      assert s == [s[0]] + s[1..];
    }
  }

  lemma FirstByte(b: Byte, w: nat)
    ensures (b + 256 * w) % 256 == b && (b + 256 * w) / 256 == w
  {
  }

  /** Byte `i` is the i-th from the low end. */
  lemma {:induction false} LeByte(v: nat, k: nat, i: nat)
    requires i < k
    ensures Le(v, k)[i] == v / Pow256(i) % 256
  {
    if i > 0 {
      LeByte(v / 256, k - 1, i - 1);
      DivTwice(v, 256, Pow256(i - 1));
    }
  }

  /** Four bytes and the number they stand for. */
  lemma LeFour(a: Byte, b: Byte, c: Byte, d: Byte)
    ensures Le(a + 0x100 * (b as int) + 0x1_0000 * (c as int) + 0x100_0000 * (d as int), 4) == [a, b, c, d]
  {
    var s, t, u, v := [a, b, c, d], [b, c, d], [c, d], [d];
    assert s[1..] == t && t[1..] == u && u[1..] == v && v[1..] == [];
    assert FromLe(v) == d && FromLe(u) == c + 256 * FromLe(v) && FromLe(t) == b + 256 * FromLe(u);
    assert FromLe(s) == a + 256 * FromLe(t);
    hide FromLe, Le;
    LeOfFromLe(s);
  }

  /** The bytes, each times its power of 256, added up. */
  function SumOfBytes(s: seq<Byte>): nat {
    if s == [] then 0 else SumOfBytes(s[..|s| - 1]) + s[|s| - 1] * Pow256(|s| - 1)
  }

  lemma {:induction false} SumShift(b: Byte, s: seq<Byte>)
    ensures SumOfBytes([b] + s) == b + 256 * SumOfBytes(s)
  {
    if s == [] {
      assert ([b] + s)[..0] == [];
      assert Pow256(0) == 1;
    } else {
      var n, t, last := |s|, s[..|s| - 1], s[|s| - 1];
      SumShift(b, t);
      assert ([b] + s)[..n] == [b] + t && ([b] + s)[n] == last;
      assert last * (256 * Pow256(n - 1)) == 256 * (last * Pow256(n - 1));
    }
  }

  /** Reading a word is adding up its bytes, the first one counting least. */
  lemma {:induction false} FromLeSum(s: seq<Byte>)
    ensures FromLe(s) == SumOfBytes(s)
  {
    if s != [] {
      FromLeSum(s[1..]);
      SumShift(s[0], s[1..]);
      assert [s[0]] + s[1..] == s;
    }
  }

  lemma WordSizes()
    ensures Pow256(3) == 0x100_0000 && Pow256(4) == TWO_32 && Pow256(8) == TWO_64
  {
    assert Pow256(1) == 256;
    assert Pow256(2) == 0x1_0000;
    assert Pow256(3) == 0x100_0000;
    assert Pow256(4) == 0x1_0000_0000;
    assert Pow256(5) == 0x100_0000_0000;
    assert Pow256(6) == 0x1_0000_0000_0000;
    assert Pow256(7) == 0x100_0000_0000_0000;
  }

  function Zeros(k: nat): (s: seq<Byte>)
    ensures |s| == k
  {
    if k == 0 then [] else [0] + Zeros(k - 1)
  }

  /** The part of a C string that `strlen` sees. */
  function CString(s: seq<Byte>): (r: seq<Byte>)
    ensures |r| <= |s| && 0 !in r
    ensures 0 !in s ==> r == s
    ensures r <= s && (r != s ==> s[|r|] == 0)
  {
    if s == [] || s[0] == 0 then [] else [s[0]] + CString(s[1..])
  }

  // ---------- bits ----------

  /** `w & (1 << i)`. */
  predicate Bit(w: nat, i: nat) {
    if i == 0 then w % 2 == 1 else Bit(w / 2, i - 1)
  }

  /** `w | (1 << i)`. */
  function SetBit(w: nat, i: nat): nat {
    if i == 0 then (if w % 2 == 1 then w else w + 1) else w % 2 + 2 * SetBit(w / 2, i - 1)
  }

  lemma {:induction false} BitIs(w: nat, i: nat)
    ensures Bit(w, i) <==> w / Pow2(i) % 2 == 1
  {
    if i > 0 {
      BitIs(w / 2, i - 1);
      DivTwice(w, 2, Pow2(i - 1));
    }
  }

  lemma {:induction false} SetBitSets(w: nat, i: nat, j: nat)
    ensures Bit(SetBit(w, i), j) <==> i == j || Bit(w, j)
  {
    if i > 0 && j > 0 {
      SetBitSets(w / 2, i - 1, j - 1);
      assert SetBit(w, i) / 2 == SetBit(w / 2, i - 1);
    } else if j > 0 {
      assert SetBit(w, 0) / 2 == w / 2;
    }
  }

  lemma {:induction false} SetBitBound(w: nat, i: nat, k: nat)
    requires w < Pow2(k) && i < k
    ensures SetBit(w, i) < Pow2(k)
  {
    HalfBound(w, Pow2(k - 1));
    if i > 0 {
      SetBitBound(w / 2, i - 1, k - 1);
      DoubleBound(w, SetBit(w / 2, i - 1), Pow2(k - 1));
    }
  }

  lemma HalfBound(w: nat, half: nat)
    requires w < 2 * half
    ensures w / 2 < half && (w % 2 == 0 ==> w + 1 < 2 * half)
  {
  }

  lemma DoubleBound(w: nat, t: nat, half: nat)
    requires t < half
    ensures w % 2 + 2 * t < 2 * half
  {
  }

  lemma {:induction false} NoBits(i: nat)
    ensures !Bit(0, i)
  {
    if i > 0 {
      NoBits(i - 1);
    }
  }

  lemma Pow2Of32()
    ensures Pow2(32) == TWO_32
  {
    assert Pow2(8) == 256;
    assert Pow2(16) == 0x1_0000 by { assert Pow2(12) == 4096; }
    assert Pow2(24) == 0x100_0000 by { assert Pow2(20) == 0x10_0000; }
    assert Pow2(28) == 0x1000_0000;
  }
}
