/** SHA-1 and SHA-256 as FIPS 180-4 defines them: padding, schedules, rounds and the chain of hash values. */
module Fips180 {
  import opened Arith
  import opened Bytes

  type Octets = seq<bv8>

  // ---------- words (sections 3.2 and 4.1) ----------

  /** Addition modulo 2^32. */
  function Add(x: bv32, y: bv32): bv32 {
    x + y
  }

  lemma AddComm(x: bv32, y: bv32)
    ensures Add(x, y) == Add(y, x)
  {
  }

  lemma WordAssoc(x: bv32, y: bv32, z: bv32)
    ensures (x + y) + z == x + (y + z)
  {
  }

  lemma AddAssoc(x: bv32, y: bv32, z: bv32)
    ensures Add(Add(x, y), z) == Add(x, Add(y, z))
  {
    calc {
      Add(Add(x, y), z);
      Add(x + y, z);
      (x + y) + z;
      { WordAssoc(x, y, z); }
      x + (y + z);
      Add(x, y + z);
      Add(x, Add(y, z));
    }
  }

  function Rotr(x: bv32, n: bv6): bv32
    requires 0 < n < 32
  {
    (x >> n) | (x << (32 - n))
  }

  function Rotl(x: bv32, n: bv6): bv32
    requires 0 < n < 32
  {
    (x << n) | (x >> (32 - n))
  }

  function Ch(x: bv32, y: bv32, z: bv32): bv32 {
    (x & y) ^ (!x & z)
  }

  function Parity(x: bv32, y: bv32, z: bv32): bv32 {
    x ^ y ^ z
  }

  function Maj(x: bv32, y: bv32, z: bv32): bv32 {
    (x & y) ^ (x & z) ^ (y & z)
  }

  function BigSigma0(x: bv32): bv32 {
    Rotr(x, 2) ^ Rotr(x, 13) ^ Rotr(x, 22)
  }

  function BigSigma1(x: bv32): bv32 {
    Rotr(x, 6) ^ Rotr(x, 11) ^ Rotr(x, 25)
  }

  function Sigma0(x: bv32): bv32 {
    Rotr(x, 7) ^ Rotr(x, 18) ^ (x >> 3)
  }

  function Sigma1(x: bv32): bv32 {
    Rotr(x, 17) ^ Rotr(x, 19) ^ (x >> 10)
  }

  function Word(b0: bv8, b1: bv8, b2: bv8, b3: bv8): bv32 {
    ((b0 as bv32) << 24) | ((b1 as bv32) << 16) | ((b2 as bv32) << 8) | (b3 as bv32)
  }

  function Byte0(w: bv32): bv8 { (w & 0xff) as bv8 }
  function Byte1(w: bv32): bv8 { ((w >> 8) & 0xff) as bv8 }
  function Byte2(w: bv32): bv8 { ((w >> 16) & 0xff) as bv8 }
  function Byte3(w: bv32): bv8 { ((w >> 24) & 0xff) as bv8 }

  /** Byte `k` of a word, counted from the least significant. */
  function Lane(w: bv32, k: nat): bv8
    requires k < 4
  {
    if k == 0 then Byte0(w) else if k == 1 then Byte1(w) else if k == 2 then Byte2(w) else Byte3(w)
  }

  function WordBytes(w: bv32): (r: Octets)
    ensures |r| == 4
  {
    [Lane(w, 3), Lane(w, 2), Lane(w, 1), Lane(w, 0)]
  }

  function WordsBytes(ws: seq<bv32>): (r: Octets)
    ensures |r| == 4 * |ws|
  {
    if ws == [] then [] else WordBytes(ws[0]) + WordsBytes(ws[1..])
  }

  lemma {:induction false} WordsBytesNext(ws: seq<bv32>, i: nat)
    requires i < |ws|
    ensures WordsBytes(ws[..i + 1]) == WordsBytes(ws[..i]) + WordBytes(ws[i])
  {
    hide WordBytes;
    if i == 0 {
      assert ws[..1][1..] == [] && WordsBytes([]) == [] && ws[..0] == [];
    } else {
      WordsBytesNext(ws[1..], i - 1);
      assert ws[1..][..i] == ws[..i + 1][1..] && ws[1..][..i - 1] == ws[..i][1..];
    }
  }

  // ---------- padding (section 5.1.1) ----------

  function ZeroOctets(k: nat): (r: Octets)
    ensures |r| == k && forall i :: 0 <= i < k ==> r[i] == 0
  {
    if k == 0 then [] else ZeroOctets(k - 1) + [0]
  }

  /** The low `k` bytes of a number, most significant first. */
  function BigEndian(n: nat, k: nat): (r: Octets)
    ensures |r| == k
  {
    if k == 0 then [] else BigEndian(n / 256, k - 1) + [(n % 256) as bv8]
  }

  /** The number of zero bytes that fills up to 56 modulo 64 after the byte 0x80. */
  function ZeroCount(length: nat): (k: nat)
    ensures k < 64 && (length + 1 + k) % 64 == 56
  {
    (119 - length % 64) % 64
  }

  /** A message padded, its bit length field holding `bits`. */
  function PadWith(m: Octets, bits: nat): (r: Octets)
    ensures |r| % 64 == 0
  {
    PadFills(|m|, ZeroCount(|m|));
    m + [0x80] + ZeroOctets(ZeroCount(|m|)) + BigEndian(bits, 8)
  }

  lemma PadFills(length: nat, zeros: nat)
    requires (length + 1 + zeros) % 64 == 56
    ensures (length + 1 + zeros + 8) % 64 == 0
  {
    var q := (length + 1 + zeros) / 64;
    assert length + 1 + zeros == 64 * q + 56;
  }

  function Pad(m: Octets): Octets {
    PadWith(m, 8 * |m|)
  }

  /** Word `t` of a block. */
  function BlockWord(block: Octets, t: nat): bv32
    requires |block| == 64 && t < 16
  {
    Word(block[4 * t], block[4 * t + 1], block[4 * t + 2], block[4 * t + 3])
  }

  // ---------- SHA-256 (section 6.2) ----------

  function K256(): (k: seq<bv32>)
    ensures |k| == 64
  {
    [0x428a2f98, 0x71374491, 0xb5c0fbcf, 0xe9b5dba5, 0x3956c25b, 0x59f111f1, 0x923f82a4, 0xab1c5ed5]
    + [0xd807aa98, 0x12835b01, 0x243185be, 0x550c7dc3, 0x72be5d74, 0x80deb1fe, 0x9bdc06a7, 0xc19bf174]
    + [0xe49b69c1, 0xefbe4786, 0x0fc19dc6, 0x240ca1cc, 0x2de92c6f, 0x4a7484aa, 0x5cb0a9dc, 0x76f988da]
    + [0x983e5152, 0xa831c66d, 0xb00327c8, 0xbf597fc7, 0xc6e00bf3, 0xd5a79147, 0x06ca6351, 0x14292967]
    + [0x27b70a85, 0x2e1b2138, 0x4d2c6dfc, 0x53380d13, 0x650a7354, 0x766a0abb, 0x81c2c92e, 0x92722c85]
    + [0xa2bfe8a1, 0xa81a664b, 0xc24b8b70, 0xc76c51a3, 0xd192e819, 0xd6990624, 0xf40e3585, 0x106aa070]
    + [0x19a4c116, 0x1e376c08, 0x2748774c, 0x34b0bcb5, 0x391c0cb3, 0x4ed8aa4a, 0x5b9cca4f, 0x682e6ff3]
    + [0x748f82ee, 0x78a5636f, 0x84c87814, 0x8cc70208, 0x90befffa, 0xa4506ceb, 0xbef9a3f7, 0xc67178f2]
  }

  datatype Regs = Regs(a: bv32, b: bv32, c: bv32, d: bv32, e: bv32, f: bv32, g: bv32, h: bv32)

  function W256(block: Octets, t: nat): bv32
    requires |block| == 64
  {
    if t < 16 then BlockWord(block, t)
    else
      Add(Add(Add(Sigma1(W256(block, t - 2)), W256(block, t - 7)), Sigma0(W256(block, t - 15))), W256(block, t - 16))
  }

  function Round256(r: Regs, k: bv32, w: bv32): Regs {
    var t1 := Add(Add(Add(Add(r.h, BigSigma1(r.e)), Ch(r.e, r.f, r.g)), k), w);
    var t2 := Add(BigSigma0(r.a), Maj(r.a, r.b, r.c));
    Regs(Add(t1, t2), r.a, r.b, r.c, Add(r.d, t1), r.e, r.f, r.g)
  }

  /** The working variables after `t` rounds. */
  function Rounds256(r: Regs, block: Octets, t: nat): Regs
    requires |block| == 64 && t <= 64
  {
    if t == 0 then r else Round256(Rounds256(r, block, t - 1), K256()[t - 1], W256(block, t - 1))
  }

  function AddRegs(x: Regs, y: Regs): Regs {
    Regs(Add(x.a, y.a), Add(x.b, y.b), Add(x.c, y.c), Add(x.d, y.d), Add(x.e, y.e), Add(x.f, y.f), Add(x.g, y.g),
         Add(x.h, y.h))
  }

  /** The next hash value from the one before and a block. */
  function Compress256(r: Regs, block: Octets): Regs
    requires |block| == 64
  {
    AddRegs(r, Rounds256(r, block, 64))
  }

  function First256(): Regs {
    Regs(0x6a09e667, 0xbb67ae85, 0x3c6ef372, 0xa54ff53a, 0x510e527f, 0x9b05688c, 0x1f83d9ab, 0x5be0cd19)
  }

  function Chain256(m: Octets): Regs
    requires |m| % 64 == 0
  {
    if m == [] then First256() else Compress256(Chain256(m[..|m| - 64]), m[|m| - 64..])
  }

  function Digest256(r: Regs): (d: Octets)
    ensures |d| == 32
  {
    WordsBytes([r.a, r.b, r.c, r.d, r.e, r.f, r.g, r.h])
  }

  /** SHA-256 of a message of less than 2^64 bits. */
  function Sha256(m: Octets): Octets {
    Digest256(Chain256(Pad(m)))
  }

  // ---------- SHA-1 (section 6.1) ----------

  datatype Regs5 = Regs5(a: bv32, b: bv32, c: bv32, d: bv32, e: bv32)

  function K1(t: nat): bv32 {
    if t < 20 then 0x5a827999 else if t < 40 then 0x6ed9eba1 else if t < 60 then 0x8f1bbcdc else 0xca62c1d6
  }

  function F1(t: nat, x: bv32, y: bv32, z: bv32): bv32 {
    if t < 20 then Ch(x, y, z) else if t < 40 then Parity(x, y, z) else if t < 60 then Maj(x, y, z) else Parity(x, y, z)
  }

  function W1(block: Octets, t: nat): bv32
    requires |block| == 64
  {
    if t < 16 then BlockWord(block, t)
    else Rotl(W1(block, t - 3) ^ W1(block, t - 8) ^ W1(block, t - 14) ^ W1(block, t - 16), 1)
  }

  function Round1(r: Regs5, t: nat, w: bv32): Regs5 {
    Regs5(Add(Add(Add(Add(Rotl(r.a, 5), F1(t, r.b, r.c, r.d)), r.e), K1(t)), w), r.a, Rotl(r.b, 30), r.c, r.d)
  }

  function Rounds1(r: Regs5, block: Octets, t: nat): Regs5
    requires |block| == 64
  {
    if t == 0 then r else Round1(Rounds1(r, block, t - 1), t - 1, W1(block, t - 1))
  }

  function Compress1(r: Regs5, block: Octets): Regs5
    requires |block| == 64
  {
    var s := Rounds1(r, block, 80);
    Regs5(Add(r.a, s.a), Add(r.b, s.b), Add(r.c, s.c), Add(r.d, s.d), Add(r.e, s.e))
  }

  function First1(): Regs5 {
    Regs5(0x67452301, 0xefcdab89, 0x98badcfe, 0x10325476, 0xc3d2e1f0)
  }

  function Chain1(m: Octets): Regs5
    requires |m| % 64 == 0
  {
    if m == [] then First1() else Compress1(Chain1(m[..|m| - 64]), m[|m| - 64..])
  }

  function Digest1(r: Regs5): (d: Octets)
    ensures |d| == 20
  {
    WordsBytes([r.a, r.b, r.c, r.d, r.e])
  }

  /** SHA-1 of a message of less than 2^64 bits. */
  function Sha1(m: Octets): Octets {
    Digest1(Chain1(Pad(m)))
  }

  // ---------- facts about the padding ----------

  lemma {:induction false} BigEndianByte(n: nat, k: nat, i: nat)
    requires i < k
    ensures BigEndian(n, k)[k - 1 - i] == ((n / Pow256(i)) % 256) as bv8
  {
    if i > 0 {
      BigEndianByte(n / 256, k - 1, i - 1);
      DivTwice(n, 256, Pow256(i - 1));
    }
  }

  lemma ModParts(n: nat, p: nat)
    requires p > 0
    ensures n % (256 * p) / 256 == n / 256 % p && n % (256 * p) % 256 == n % 256
  {
    var q, r := n / 256, n % 256;
    DivMod(q, p);
    var t := q % p;
    assert (q / p) * (256 * p) == 256 * ((q / p) * p);
    ModUnique(n, q / p, 256 * p, 256 * t + r);
  }

  /** The length field holds the length modulo 2^64. */
  lemma {:induction false} BigEndianMod(n: nat, k: nat)
    ensures BigEndian(n % Pow256(k), k) == BigEndian(n, k)
  {
    if k > 0 {
      ModParts(n, Pow256(k - 1));
      BigEndianMod(n / 256, k - 1);
    }
  }

  /** The padding stops at the first length that is 56 modulo 64. */
  lemma ZeroCountLeast(length: nat, z: nat)
    requires z <= ZeroCount(length)
    ensures (length + 1 + z) % 64 == 56 <==> z == ZeroCount(length)
  {
    var r, k := length % 64, ZeroCount(length);
    assert (length + 1 + z) % 64 == (r + 1 + z) % 64;
    assert if r < 56 then k == 55 - r else k == 119 - r;
  }

  lemma {:induction false} BigEndianSame(a: nat, b: nat, k: nat)
    ensures BigEndian(a, k) == BigEndian(b, k) <==> a % Pow256(k) == b % Pow256(k)
  {
    if k > 0 {
      var p := Pow256(k - 1);
      BigEndianSame(a / 256, b / 256, k - 1);
      ModParts(a, p);
      ModParts(b, p);
      var x, y := a % (256 * p), b % (256 * p);
      assert x == y <==> x / 256 == y / 256 && x % 256 == y % 256;
      SameLast(BigEndian(a / 256, k - 1), (a % 256) as bv8, BigEndian(b / 256, k - 1), (b % 256) as bv8);
      ByteSame(a % 256, b % 256);
    } else {
      ModUnique(a, a, 1, 0);
      ModUnique(b, b, 1, 0);
    }
  }

  lemma SameLast(s: Octets, x: bv8, t: Octets, y: bv8)
    requires |s| == |t|
    ensures s + [x] == t + [y] <==> s == t && x == y
  {
    if s + [x] == t + [y] {
      assert s == (s + [x])[..|s|] && x == (s + [x])[|s|];
    }
  }

  lemma NextByte(x: bv8)
    requires x != 255
    ensures (x + 1) as int == x as int + 1
  {
  }

  lemma ByteBack(a: int, c: bv8)
    requires 0 <= a < 256 && c as int == a
    ensures a as bv8 == c
  {
  }

  lemma {:induction false} ByteValue(a: nat)
    requires a < 256
    ensures (a as bv8) as int == a
  {
    if a > 0 {
      ByteValue(a - 1);
      var c := (a - 1) as bv8;
      assert c != 255;
      NextByte(c);
      ByteBack(a, c + 1);
    } else {
      ByteBack(0, 0);
    }
  }

  lemma ByteSame(a: nat, b: nat)
    requires a < 256 && b < 256
    ensures a as bv8 == b as bv8 <==> a == b
  {
    ByteValue(a);
    ByteValue(b);
    var x, y := a as bv8, b as bv8;
    if x == y {
      assert x as int == y as int;
    }
  }

  // ---------- messages cut into blocks ----------

  /** The whole blocks of a message, and the bytes after them. */
  function Whole(m: Octets): (w: Octets)
    ensures |w| % 64 == 0
  {
    m[..|m| - |m| % 64]
  }

  function Rest(m: Octets): (r: Octets)
    ensures |r| == |m| % 64
  {
    m[|m| - |m| % 64..]
  }

  /** One more byte either joins the rest or completes a block. */
  lemma OneMoreByte(m: Octets, byte: bv8)
    ensures var n := m + [byte];
            if |m| % 64 == 63
            then Whole(n) == Whole(m) + (Rest(m) + [byte]) && Rest(n) == []
            else Whole(n) == Whole(m) && Rest(n) == Rest(m) + [byte]
  {
    var k := |m| - |m| % 64;
    LengthNext(|m|);
    PartsNext(m, byte, k);
    assert m[k..] + [byte] == Rest(m) + [byte];
  }

  lemma LengthNext(n: nat)
    ensures n % 64 == 63 ==> n + 1 - (n + 1) % 64 == n + 1
    ensures n % 64 != 63 ==> n + 1 - (n + 1) % 64 == n - n % 64
  {
  }

  lemma PartsNext(m: Octets, byte: bv8, k: nat)
    requires k <= |m|
    ensures (m + [byte])[..k] == m[..k] && (m + [byte])[k..] == m[k..] + [byte]
    ensures (m + [byte])[..|m| + 1] == m[..k] + (m[k..] + [byte]) && (m + [byte])[|m| + 1..] == []
  {
  }

  lemma LastBlock(w: Octets, block: Octets)
    requires |w| % 64 == 0 && |block| == 64
    ensures |w + block| % 64 == 0
    ensures Chain256(w + block) == Compress256(Chain256(w), block)
    ensures Chain1(w + block) == Compress1(Chain1(w), block)
  {
    hide Compress256, Compress1;
    var m := w + block;
    assert m[..|m| - 64] == w && m[|m| - 64..] == block;
  }

  lemma ZerosGrow(m: Octets)
    ensures m + ZeroOctets(0) == m
  {
  }

  lemma ZerosNext(m: Octets, z: nat)
    ensures (m + ZeroOctets(z)) + [0] == m + ZeroOctets(z + 1)
  {
  }

  lemma AllWhole(m: Octets)
    requires |m| % 64 == 0
    ensures Whole(m) == m
  {
  }

  function Joined(parts: seq<Octets>): Octets {
    if parts == [] then [] else parts[0] + Joined(parts[1..])
  }

  lemma {:induction false} JoinedNext(parts: seq<Octets>, i: nat)
    requires i < |parts|
    ensures Joined(parts[..i + 1]) == Joined(parts[..i]) + parts[i]
  {
    if i == 0 {
      assert parts[..1][1..] == [] && parts[..0] == [];
      assert Joined(parts[..1]) == parts[0] + Joined([]);
    } else {
      JoinedNext(parts[1..], i - 1);
      assert parts[1..][..i] == parts[..i + 1][1..] && parts[1..][..i - 1] == parts[..i][1..];
    }
  }

  lemma JoinedNone(parts: seq<Octets>, m: Octets)
    ensures m == m + Joined(parts[..0]) && parts[..|parts|] == parts
  {
  }
}
