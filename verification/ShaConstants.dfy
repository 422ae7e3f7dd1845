/** Where the constants of FIPS 180-4 come from: roots of the first primes. */
module ShaConstants {
  import opened Arith
  import opened NumberTheory
  import opened PrimeTables
  import opened Fips180
  import opened ShaVectors

  // ---------- the first 64 primes ----------

  function FirstPrimes(): (s: seq<int>)
    ensures |s| == 64
  {
    [2, 3, 5, 7, 11, 13, 17, 19]
    + [23, 29, 31, 37, 41, 43, 47, 53]
    + [59, 61, 67, 71, 73, 79, 83, 89]
    + [97, 101, 103, 107, 109, 113, 127, 131]
    + [137, 139, 149, 151, 157, 163, 167, 173]
    + [179, 181, 191, 193, 197, 199, 211, 223]
    + [227, 229, 233, 239, 241, 251, 257, 263]
    + [269, 271, 277, 281, 283, 293, 307, 311]
  }

  /** Not divisible by a prime below 18, other than itself. */
  predicate Undivided(n: int) {
    && (n == 2 || n % 2 != 0) && (n == 3 || n % 3 != 0) && (n == 5 || n % 5 != 0) && (n == 7 || n % 7 != 0)
    && (n == 11 || n % 11 != 0) && (n == 13 || n % 13 != 0) && (n == 17 || n % 17 != 0)
  }

  lemma UndividedIsPrime(n: int)
    requires 2 <= n <= 311
    ensures IsPrime(n) <==> Undivided(n)
  {
    var p := SmallestFactor(n);
    PrimeAtLeastTwo(p);
    if p >= 18 {
      MulMonotone(18, p, 18);
      MulMonotone(18, p, p);
    }
    DividesRem(p, n);
    if p < 18 {
      SmallPrimesOnly(p);
    }
    hide Divides, IsPrime;
    if IsPrime(n) {
      OwnFactor(n);
    }
  }

  /** A prime below 18 is one of seven. */
  lemma SmallPrimesOnly(p: int)
    requires IsPrime(p) && p < 18
    ensures p == 2 || p == 3 || p == 5 || p == 7 || p == 11 || p == 13 || p == 17
  {
    DividesRem(2, p);
    DividesRem(3, p);
  }

  lemma OwnFactor(n: int)
    requires IsPrime(n)
    ensures Undivided(n)
  {
    forall d | 2 <= d < n
      ensures n % d != 0
    {
      DividesRem(d, n);
    }
  }

  lemma Window0(n: int)
    requires 2 <= n <= 7
    ensures Undivided(n) <==> n in {2, 3, 5, 7}
  {
  }

  lemma Window1(n: int)
    requires 8 <= n <= 19
    ensures Undivided(n) <==> n in {11, 13, 17, 19}
  {
  }

  lemma Window2(n: int)
    requires 20 <= n <= 37
    ensures Undivided(n) <==> n in {23, 29, 31, 37}
  {
  }

  lemma Window3(n: int)
    requires 38 <= n <= 53
    ensures Undivided(n) <==> n in {41, 43, 47, 53}
  {
  }

  lemma Window4(n: int)
    requires 54 <= n <= 71
    ensures Undivided(n) <==> n in {59, 61, 67, 71}
  {
  }

  lemma Window5(n: int)
    requires 72 <= n <= 89
    ensures Undivided(n) <==> n in {73, 79, 83, 89}
  {
  }

  lemma Window6(n: int)
    requires 90 <= n <= 107
    ensures Undivided(n) <==> n in {97, 101, 103, 107}
  {
  }

  lemma Window7(n: int)
    requires 108 <= n <= 131
    ensures Undivided(n) <==> n in {109, 113, 127, 131}
  {
  }

  lemma Window8(n: int)
    requires 132 <= n <= 151
    ensures Undivided(n) <==> n in {137, 139, 149, 151}
  {
  }

  lemma Window9(n: int)
    requires 152 <= n <= 173
    ensures Undivided(n) <==> n in {157, 163, 167, 173}
  {
  }

  lemma Window10(n: int)
    requires 174 <= n <= 193
    ensures Undivided(n) <==> n in {179, 181, 191, 193}
  {
  }

  lemma Window11(n: int)
    requires 194 <= n <= 223
    ensures Undivided(n) <==> n in {197, 199, 211, 223}
  {
  }

  lemma Window12(n: int)
    requires 224 <= n <= 239
    ensures Undivided(n) <==> n in {227, 229, 233, 239}
  {
  }

  lemma Window13(n: int)
    requires 240 <= n <= 263
    ensures Undivided(n) <==> n in {241, 251, 257, 263}
  {
  }

  lemma Window14(n: int)
    requires 264 <= n <= 281
    ensures Undivided(n) <==> n in {269, 271, 277, 281}
  {
  }

  lemma Window15(n: int)
    requires 282 <= n <= 296
    ensures Undivided(n) <==> n in {283, 293}
  {
  }

  lemma Window16(n: int)
    requires 297 <= n <= 311
    ensures Undivided(n) <==> n in {307, 311}
  {
  }

  lemma PrimesAre(n: int)
    requires 2 <= n <= 311
    ensures IsPrime(n) <==> n in FirstPrimes()
  {
    UndividedIsPrime(n);
    hide Undivided, IsPrime;
    if n <= 7 {
      Window0(n);
    } else if n <= 19 {
      Window1(n);
    } else if n <= 37 {
      Window2(n);
    } else if n <= 53 {
      Window3(n);
    } else if n <= 71 {
      Window4(n);
    } else if n <= 89 {
      Window5(n);
    } else if n <= 107 {
      Window6(n);
    } else if n <= 131 {
      Window7(n);
    } else if n <= 151 {
      Window8(n);
    } else if n <= 173 {
      Window9(n);
    } else if n <= 193 {
      Window10(n);
    } else if n <= 223 {
      Window11(n);
    } else if n <= 239 {
      Window12(n);
    } else if n <= 263 {
      Window13(n);
    } else if n <= 281 {
      Window14(n);
    } else if n <= 296 {
      Window15(n);
    } else {
      Window16(n);
    }
    Members(n);
  }

  lemma Members(n: int)
    ensures n in FirstPrimes() <==>
              n in {2, 3, 5, 7, 11, 13, 17, 19} ||
              n in {23, 29, 31, 37, 41, 43, 47, 53} ||
              n in {59, 61, 67, 71, 73, 79, 83, 89} ||
              n in {97, 101, 103, 107, 109, 113, 127, 131} ||
              n in {137, 139, 149, 151, 157, 163, 167, 173} ||
              n in {179, 181, 191, 193, 197, 199, 211, 223} ||
              n in {227, 229, 233, 239, 241, 251, 257, 263} ||
              n in {269, 271, 277, 281, 283, 293, 307, 311}
  {
  }

  /** Increasing sequences with the same members are equal. */
  lemma {:induction false} SameIncreasing(s: seq<int>, t: seq<int>)
    requires forall i, j :: 0 <= i < j < |s| ==> s[i] < s[j]
    requires forall i, j :: 0 <= i < j < |t| ==> t[i] < t[j]
    requires forall x :: x in s <==> x in t
    ensures s == t
  {
    if s != [] {
      assert s[0] in s && s[0] in t;
    }
    if t != [] {
      assert t[0] in t && t[0] in s;
    }
    if s != [] {
      assert s[0] == t[0];
      forall x
        ensures x in s[1..] <==> x in t[1..]
      {
        TailMembers(s, x);
        TailMembers(t, x);
      }
      SameIncreasing(s[1..], t[1..]);
    }
  }

  lemma TailMembers(s: seq<int>, x: int)
    requires s != [] && forall i, j :: 0 <= i < j < |s| ==> s[i] < s[j]
    ensures x in s[1..] <==> x in s && x != s[0]
  {
    if x in s && x != s[0] {
      var i :| 0 <= i < |s| && s[i] == x;
      assert s[1..][i - 1] == x;
    }
  }

  lemma {:induction false} RisingTo(s: seq<int>, i: nat, j: nat)
    requires i < j < |s| && forall k :: 0 <= k < |s| - 1 ==> s[k] < s[k + 1]
    ensures s[i] < s[j]
    decreases j
  {
    if i < j - 1 {
      RisingTo(s, i, j - 1);
    }
    assert s[j - 1] < s[j - 1 + 1];
  }

  lemma Rising0()
    ensures forall k :: 0 <= k < 8 ==> FirstPrimes()[k] < FirstPrimes()[k + 1]
  {
    var s := FirstPrimes();
    assert s[0] == 2;
    assert s[1] == 3;
    assert s[2] == 5;
    assert s[3] == 7;
    assert s[4] == 11;
    assert s[5] == 13;
    assert s[6] == 17;
    assert s[7] == 19;
    assert s[8] == 23;
  }

  lemma Rising1()
    ensures forall k :: 8 <= k < 16 ==> FirstPrimes()[k] < FirstPrimes()[k + 1]
  {
    var s := FirstPrimes();
    assert s[8] == 23;
    assert s[9] == 29;
    assert s[10] == 31;
    assert s[11] == 37;
    assert s[12] == 41;
    assert s[13] == 43;
    assert s[14] == 47;
    assert s[15] == 53;
    assert s[16] == 59;
  }

  lemma Rising2()
    ensures forall k :: 16 <= k < 24 ==> FirstPrimes()[k] < FirstPrimes()[k + 1]
  {
    var s := FirstPrimes();
    assert s[16] == 59;
    assert s[17] == 61;
    assert s[18] == 67;
    assert s[19] == 71;
    assert s[20] == 73;
    assert s[21] == 79;
    assert s[22] == 83;
    assert s[23] == 89;
    assert s[24] == 97;
  }

  lemma Rising3()
    ensures forall k :: 24 <= k < 32 ==> FirstPrimes()[k] < FirstPrimes()[k + 1]
  {
    var s := FirstPrimes();
    assert s[24] == 97;
    assert s[25] == 101;
    assert s[26] == 103;
    assert s[27] == 107;
    assert s[28] == 109;
    assert s[29] == 113;
    assert s[30] == 127;
    assert s[31] == 131;
    assert s[32] == 137;
  }

  lemma Rising4()
    ensures forall k :: 32 <= k < 40 ==> FirstPrimes()[k] < FirstPrimes()[k + 1]
  {
    var s := FirstPrimes();
    assert s[32] == 137;
    assert s[33] == 139;
    assert s[34] == 149;
    assert s[35] == 151;
    assert s[36] == 157;
    assert s[37] == 163;
    assert s[38] == 167;
    assert s[39] == 173;
    assert s[40] == 179;
  }

  lemma Rising5()
    ensures forall k :: 40 <= k < 48 ==> FirstPrimes()[k] < FirstPrimes()[k + 1]
  {
    var s := FirstPrimes();
    assert s[40] == 179;
    assert s[41] == 181;
    assert s[42] == 191;
    assert s[43] == 193;
    assert s[44] == 197;
    assert s[45] == 199;
    assert s[46] == 211;
    assert s[47] == 223;
    assert s[48] == 227;
  }

  lemma Rising6()
    ensures forall k :: 48 <= k < 56 ==> FirstPrimes()[k] < FirstPrimes()[k + 1]
  {
    var s := FirstPrimes();
    assert s[48] == 227;
    assert s[49] == 229;
    assert s[50] == 233;
    assert s[51] == 239;
    assert s[52] == 241;
    assert s[53] == 251;
    assert s[54] == 257;
    assert s[55] == 263;
    assert s[56] == 269;
  }

  lemma Rising7()
    ensures forall k :: 56 <= k < 63 ==> FirstPrimes()[k] < FirstPrimes()[k + 1]
  {
    var s := FirstPrimes();
    assert s[56] == 269;
    assert s[57] == 271;
    assert s[58] == 277;
    assert s[59] == 281;
    assert s[60] == 283;
    assert s[61] == 293;
    assert s[62] == 307;
    assert s[63] == 311;
  }

  /** The table of primes up to 311 is these 64. */
  lemma FirstPrimesAre()
    ensures PrimesUpTo(311) == FirstPrimes()
  {
    hide FirstPrimes, PrimesUpTo, IsPrime, Divides;
    var s, t := PrimesUpTo(311), FirstPrimes();
    PrimesUpToIs(311);
    Rising0();
    Rising1();
    Rising2();
    Rising3();
    Rising4();
    Rising5();
    Rising6();
    Rising7();
    assert forall k :: 0 <= k < |t| - 1 ==> t[k] < t[k + 1];
    forall i, j | 0 <= i < j < |t|
      ensures t[i] < t[j]
    {
      RisingTo(t, i, j);
    }
    forall x
      ensures x in s <==> x in t
    {
      if x in s {
        var i :| 0 <= i < |s| && s[i] == x;
        PrimeAtLeastTwo(x);
        PrimesAre(x);
      }
      if x in t {
        InRange(x);
        PrimesAre(x);
      }
    }
    SameIncreasing(s, t);
  }

  lemma InRange(x: int)
    requires x in FirstPrimes()
    ensures 2 <= x <= 311
  {
    Members(x);
    hide FirstPrimes;
  }

  // ---------- their roots ----------

  function Cube(x: int): int { x * x * x }

  /** The cube root of p lies in the interval of length 2^-32 that starts at r + k / 2^32. */
  predicate CubeRootAt(p: int, k: int, r: nat) {
    && Cube(r) <= p < Cube(r + 1)
    && Cube(r * TWO_32 + k) <= p * Cube(TWO_32) < Cube(r * TWO_32 + k + 1)
  }

  /** The square root of p does. */
  predicate SquareRootAt(p: int, k: int, r: nat) {
    && r * r <= p < (r + 1) * (r + 1)
    && (r * TWO_32 + k) * (r * TWO_32 + k) <= p * (TWO_32 * TWO_32) < (r * TWO_32 + k + 1) * (r * TWO_32 + k + 1)
  }

  /** `k` is the first 32 bits of the fraction of the cube root of p. */
  ghost predicate CubeRootBits(p: int, k: int) {
    exists r: nat :: CubeRootAt(p, k, r)
  }

  /** `k` is the first 32 bits of the fraction of the square root of p. */
  ghost predicate SquareRootBits(p: int, k: int) {
    exists r: nat :: SquareRootAt(p, k, r)
  }

  lemma CubeRoots0(t: nat)
    requires 0 <= t < 8
    ensures CubeRootBits(FirstPrimes()[t], K256()[t] as int)
  {
    KRow0();
    hide K256;
    var s := FirstPrimes();
    if t == 0 {
      assert CubeRootAt(2, 0x428a2f98, 1);
    } else if t == 1 {
      assert CubeRootAt(3, 0x71374491, 1);
    } else if t == 2 {
      assert CubeRootAt(5, 0xb5c0fbcf, 1);
    } else if t == 3 {
      assert CubeRootAt(7, 0xe9b5dba5, 1);
    } else if t == 4 {
      assert CubeRootAt(11, 0x3956c25b, 2);
    } else if t == 5 {
      assert CubeRootAt(13, 0x59f111f1, 2);
    } else if t == 6 {
      assert CubeRootAt(17, 0x923f82a4, 2);
    } else {
      assert CubeRootAt(19, 0xab1c5ed5, 2);
    }
  }

  lemma CubeRoots1(t: nat)
    requires 8 <= t < 16
    ensures CubeRootBits(FirstPrimes()[t], K256()[t] as int)
  {
    KRow1();
    hide K256;
    var s := FirstPrimes();
    if t == 8 {
      assert CubeRootAt(23, 0xd807aa98, 2);
    } else if t == 9 {
      assert CubeRootAt(29, 0x12835b01, 3);
    } else if t == 10 {
      assert CubeRootAt(31, 0x243185be, 3);
    } else if t == 11 {
      assert CubeRootAt(37, 0x550c7dc3, 3);
    } else if t == 12 {
      assert CubeRootAt(41, 0x72be5d74, 3);
    } else if t == 13 {
      assert CubeRootAt(43, 0x80deb1fe, 3);
    } else if t == 14 {
      assert CubeRootAt(47, 0x9bdc06a7, 3);
    } else {
      assert CubeRootAt(53, 0xc19bf174, 3);
    }
  }

  lemma CubeRoots2(t: nat)
    requires 16 <= t < 24
    ensures CubeRootBits(FirstPrimes()[t], K256()[t] as int)
  {
    KRow2();
    hide K256;
    var s := FirstPrimes();
    if t == 16 {
      assert CubeRootAt(59, 0xe49b69c1, 3);
    } else if t == 17 {
      assert CubeRootAt(61, 0xefbe4786, 3);
    } else if t == 18 {
      assert CubeRootAt(67, 0x0fc19dc6, 4);
    } else if t == 19 {
      assert CubeRootAt(71, 0x240ca1cc, 4);
    } else if t == 20 {
      assert CubeRootAt(73, 0x2de92c6f, 4);
    } else if t == 21 {
      assert CubeRootAt(79, 0x4a7484aa, 4);
    } else if t == 22 {
      assert CubeRootAt(83, 0x5cb0a9dc, 4);
    } else {
      assert CubeRootAt(89, 0x76f988da, 4);
    }
  }

  lemma CubeRoots3(t: nat)
    requires 24 <= t < 32
    ensures CubeRootBits(FirstPrimes()[t], K256()[t] as int)
  {
    KRow3();
    hide K256;
    var s := FirstPrimes();
    if t == 24 {
      assert CubeRootAt(97, 0x983e5152, 4);
    } else if t == 25 {
      assert CubeRootAt(101, 0xa831c66d, 4);
    } else if t == 26 {
      assert CubeRootAt(103, 0xb00327c8, 4);
    } else if t == 27 {
      assert CubeRootAt(107, 0xbf597fc7, 4);
    } else if t == 28 {
      assert CubeRootAt(109, 0xc6e00bf3, 4);
    } else if t == 29 {
      assert CubeRootAt(113, 0xd5a79147, 4);
    } else if t == 30 {
      assert CubeRootAt(127, 0x06ca6351, 5);
    } else {
      assert CubeRootAt(131, 0x14292967, 5);
    }
  }

  lemma CubeRoots4(t: nat)
    requires 32 <= t < 40
    ensures CubeRootBits(FirstPrimes()[t], K256()[t] as int)
  {
    KRow4();
    hide K256;
    var s := FirstPrimes();
    if t == 32 {
      assert CubeRootAt(137, 0x27b70a85, 5);
    } else if t == 33 {
      assert CubeRootAt(139, 0x2e1b2138, 5);
    } else if t == 34 {
      assert CubeRootAt(149, 0x4d2c6dfc, 5);
    } else if t == 35 {
      assert CubeRootAt(151, 0x53380d13, 5);
    } else if t == 36 {
      assert CubeRootAt(157, 0x650a7354, 5);
    } else if t == 37 {
      assert CubeRootAt(163, 0x766a0abb, 5);
    } else if t == 38 {
      assert CubeRootAt(167, 0x81c2c92e, 5);
    } else {
      assert CubeRootAt(173, 0x92722c85, 5);
    }
  }

  lemma CubeRoots5(t: nat)
    requires 40 <= t < 48
    ensures CubeRootBits(FirstPrimes()[t], K256()[t] as int)
  {
    KRow5();
    hide K256;
    var s := FirstPrimes();
    if t == 40 {
      assert CubeRootAt(179, 0xa2bfe8a1, 5);
    } else if t == 41 {
      assert CubeRootAt(181, 0xa81a664b, 5);
    } else if t == 42 {
      assert CubeRootAt(191, 0xc24b8b70, 5);
    } else if t == 43 {
      assert CubeRootAt(193, 0xc76c51a3, 5);
    } else if t == 44 {
      assert CubeRootAt(197, 0xd192e819, 5);
    } else if t == 45 {
      assert CubeRootAt(199, 0xd6990624, 5);
    } else if t == 46 {
      assert CubeRootAt(211, 0xf40e3585, 5);
    } else {
      assert CubeRootAt(223, 0x106aa070, 6);
    }
  }

  lemma CubeRoots6(t: nat)
    requires 48 <= t < 56
    ensures CubeRootBits(FirstPrimes()[t], K256()[t] as int)
  {
    KRow6();
    hide K256;
    var s := FirstPrimes();
    if t == 48 {
      assert CubeRootAt(227, 0x19a4c116, 6);
    } else if t == 49 {
      assert CubeRootAt(229, 0x1e376c08, 6);
    } else if t == 50 {
      assert CubeRootAt(233, 0x2748774c, 6);
    } else if t == 51 {
      assert CubeRootAt(239, 0x34b0bcb5, 6);
    } else if t == 52 {
      assert CubeRootAt(241, 0x391c0cb3, 6);
    } else if t == 53 {
      assert CubeRootAt(251, 0x4ed8aa4a, 6);
    } else if t == 54 {
      assert CubeRootAt(257, 0x5b9cca4f, 6);
    } else {
      assert CubeRootAt(263, 0x682e6ff3, 6);
    }
  }

  lemma CubeRoots7(t: nat)
    requires 56 <= t < 64
    ensures CubeRootBits(FirstPrimes()[t], K256()[t] as int)
  {
    KRow7();
    hide K256;
    var s := FirstPrimes();
    if t == 56 {
      assert CubeRootAt(269, 0x748f82ee, 6);
    } else if t == 57 {
      assert CubeRootAt(271, 0x78a5636f, 6);
    } else if t == 58 {
      assert CubeRootAt(277, 0x84c87814, 6);
    } else if t == 59 {
      assert CubeRootAt(281, 0x8cc70208, 6);
    } else if t == 60 {
      assert CubeRootAt(283, 0x90befffa, 6);
    } else if t == 61 {
      assert CubeRootAt(293, 0xa4506ceb, 6);
    } else if t == 62 {
      assert CubeRootAt(307, 0xbef9a3f7, 6);
    } else {
      assert CubeRootAt(311, 0xc67178f2, 6);
    }
  }

  /** The constants of SHA-256 are the first 32 bits of the fractions of the cube roots of the first 64 primes. */
  lemma CubeRoots(t: nat)
    requires t < 64
    ensures CubeRootBits(FirstPrimes()[t], K256()[t] as int)
  {
    hide *;
    if t < 8 {
      CubeRoots0(t);
    } else if t < 16 {
      CubeRoots1(t);
    } else if t < 24 {
      CubeRoots2(t);
    } else if t < 32 {
      CubeRoots3(t);
    } else if t < 40 {
      CubeRoots4(t);
    } else if t < 48 {
      CubeRoots5(t);
    } else if t < 56 {
      CubeRoots6(t);
    } else {
      CubeRoots7(t);
    }
  }

  /** The first hash value of SHA-256 is that of the square roots of the first eight primes. */
  lemma SquareRoots()
    ensures var (h, p) := (First256(), FirstPrimes());
            && SquareRootBits(p[0], h.a as int) && SquareRootBits(p[1], h.b as int)
            && SquareRootBits(p[2], h.c as int) && SquareRootBits(p[3], h.d as int)
            && SquareRootBits(p[4], h.e as int) && SquareRootBits(p[5], h.f as int)
            && SquareRootBits(p[6], h.g as int) && SquareRootBits(p[7], h.h as int)
  {
    assert SquareRootAt(2, 0x6a09e667, 1);
    assert SquareRootAt(3, 0xbb67ae85, 1);
    assert SquareRootAt(5, 0x3c6ef372, 2);
    assert SquareRootAt(7, 0xa54ff53a, 2);
    assert SquareRootAt(11, 0x510e527f, 3);
    assert SquareRootAt(13, 0x9b05688c, 3);
    assert SquareRootAt(17, 0x1f83d9ab, 4);
    assert SquareRootAt(19, 0x5be0cd19, 4);
  }

  /** Those of SHA-1 are the square roots of 2, 3, 5 and 10, times 2^30. */
  lemma RootsOfSha1(t: nat)
    ensures var (k, n) := (K1(t) as int, if t < 20 then 2 else if t < 40 then 3 else if t < 60 then 5 else 10);
            k * k <= n * 0x1000_0000_0000_0000 < (k + 1) * (k + 1)
  {
  }
}
