/** mtx/src/sha256.c: a circular 16-word schedule, renamed registers, one byte at a time. */
module Sha256Stream {
  import opened Arith
  import opened Bytes
  import opened Fips180

  // ---------- the schedule ----------

  /** `w` holds words `first`.. of the schedule in its first `done` places, words 16 earlier after that. */
  ghost predicate Schedule(w: seq<bv32>, block: Octets, first: nat, done: nat)
    requires |block| == 64 && |w| == 16 && done <= 16
  {
    forall j :: 0 <= j < 16 ==>
      && (j < done ==> w[j] == W256(block, first + j))
      && (j >= done && first >= 16 ==> w[j] == W256(block, first - 16 + j))
  }

  lemma ScheduleAt(w: seq<bv32>, block: Octets, first: nat, done: nat, j: nat)
    requires |block| == 64 && |w| == 16 && j < 16 && first >= 16 && done <= 16
    requires Schedule(w, block, first, done)
    ensures w[j] == W256(block, if j < done then first + j else first - 16 + j)
  {
    hide W256;
  }

  lemma NextWord(w: seq<bv32>, block: Octets, first: nat, j: nat)
    requires |block| == 64 && |w| == 16 && j < 16 && first >= 16
    requires Schedule(w, block, first, j)
    ensures Add(w[j], Add(Add(w[(j + 9) % 16], Sigma0(w[(j + 1) % 16])), Sigma1(w[(j + 14) % 16])))
            == W256(block, first + j)
  {
    hide *;
    var t := first + j;
    ScheduleAt(w, block, first, j, (j + 9) % 16);
    ScheduleAt(w, block, first, j, (j + 1) % 16);
    ScheduleAt(w, block, first, j, (j + 14) % 16);
    ScheduleAt(w, block, first, j, j);
    LaterWord(block, t);
    SumOrder(W256(block, t - 16), W256(block, t - 7), Sigma0(W256(block, t - 15)), Sigma1(W256(block, t - 2)));
  }

  lemma LaterWord(block: Octets, t: nat)
    requires |block| == 64 && t >= 16
    ensures W256(block, t)
         == Add(Add(Add(Sigma1(W256(block, t - 2)), W256(block, t - 7)), Sigma0(W256(block, t - 15))),
                 W256(block, t - 16))
  {
    hide Sigma0, Sigma1, Add, BlockWord;
  }

  lemma SumOrder(p: bv32, q: bv32, r: bv32, s: bv32)
    ensures Add(p, Add(Add(q, r), s)) == Add(Add(Add(s, q), r), p)
  {
    hide *;
    AddComm(p, Add(Add(q, r), s));
    AddComm(Add(q, r), s);
    AddAssoc(s, q, r);
  }

  lemma FirstWords(block: Octets, t: nat)
    requires |block| == 64 && t < 16
    ensures W256(block, t) == Word(block[4 * t], block[4 * t + 1], block[4 * t + 2], block[4 * t + 3])
  {
    hide Word;
  }

  lemma ScheduleGrows(before: seq<bv32>, after: seq<bv32>, block: Octets, first: nat, j: nat)
    requires |block| == 64 && |before| == 16 == |after| && j < 16
    requires Schedule(before, block, first, j)
    requires after == before[j := W256(block, first + j)]
    ensures Schedule(after, block, first, j + 1)
  {
    hide W256;
  }

  /** `update_w`: the next sixteen words replace the last sixteen. */
  method UpdateW(w: array<bv32>, i: nat, buffer: array<bv8>)
    requires w.Length == 16 && buffer.Length == 64 && i % 16 == 0
    requires i >= 16 ==> Schedule(w[..], buffer[..], i - 16, 16)
    modifies w
    ensures Schedule(w[..], buffer[..], i, 16)
  {
    ScheduleStarts(w[..], buffer[..], i);
    hide *;
    var j := 0;
    while j < 16
      invariant j <= 16
      invariant Schedule(w[..], buffer[..], i, j)
    {
      ghost var before := w[..];
      if i < 16 {
        w[j] := Word(buffer[4 * j], buffer[4 * j + 1], buffer[4 * j + 2], buffer[4 * j + 3]);
        FirstWords(buffer[..], j);
      } else {
        var a := w[(j + 1) % 16];
        var b := w[(j + 14) % 16];
        var s0, s1 := Sigma0(a), Sigma1(b);
        NextWord(before, buffer[..], i, j);
        w[j] := Add(w[j], Add(Add(w[(j + 9) % 16], s0), s1));
      }
      ScheduleGrows(before, w[..], buffer[..], i, j);
      j := j + 1;
    }
  }

  lemma ScheduleStarts(w: seq<bv32>, block: Octets, i: nat)
    requires |w| == 16 && |block| == 64 && i % 16 == 0
    requires i >= 16 ==> Schedule(w, block, i - 16, 16)
    ensures Schedule(w, block, i, 0)
  {
    hide W256;
  }

  // ---------- one round ----------

  function Step1(e: bv32, f: bv32, g: bv32): bv32 {
    Add(BigSigma1(e), Ch(e, f, g))
  }

  function Step2(a: bv32, b: bv32, c: bv32): bv32 {
    Add(BigSigma0(a), Maj(a, b, c))
  }

  /** The sum the code forms for a round. */
  function Temp(r: Regs, k: bv32, w: bv32): bv32 {
    Add(Add(Add(r.h, Step1(r.e, r.f, r.g)), k), w)
  }

  /** Instead of shifting eight registers, the code writes two and renames. */
  lemma RoundInPlace(r: Regs, k: bv32, w: bv32)
    ensures Round256(r, k, w)
         == Regs(Add(Temp(r, k, w), Step2(r.a, r.b, r.c)), r.a, r.b, r.c, Add(Temp(r, k, w), r.d), r.e, r.f, r.g)
  {
    hide BigSigma0, BigSigma1, Ch, Maj, Add;
    AddAssoc(r.h, BigSigma1(r.e), Ch(r.e, r.f, r.g));
    AddComm(r.d, Temp(r, k, w));
  }

  lemma RoundsNext(r: Regs, block: Octets, t: nat)
    requires |block| == 64 && t < 64
    ensures Rounds256(r, block, t + 1) == Round256(Rounds256(r, block, t), K256()[t], W256(block, t))
  {
    hide Round256, W256;
  }

  /** One line pair of the unrolled loop: what the names hold before and after. */
  lemma UnrolledRound(first: Regs, block: Octets, t: nat, r: Regs, k: bv32, w: bv32, next: Regs)
    requires |block| == 64 && t < 64 && r == Rounds256(first, block, t)
    requires k == K256()[t] && w == W256(block, t)
    requires next
             == Regs(Add(Temp(r, k, w), Step2(r.a, r.b, r.c)), r.a, r.b, r.c, Add(Temp(r, k, w), r.d), r.e, r.f, r.g)
    ensures next == Rounds256(first, block, t + 1)
  {
    hide *;
    RoundsNext(first, block, t);
    RoundInPlace(r, k, w);
  }

  lemma TempIs(r: Regs, k: bv32, w: bv32)
    ensures Temp(r, k, w) == Add(Add(Add(r.h, Step1(r.e, r.f, r.g)), k), w)
  {
    hide Add, Step1;
  }

  /** The body of the inner loop: four rounds, the registers renamed after each. */
  method FourRounds(ghost first: Regs, ghost block: Octets, i: nat, j: nat, r: Regs, w: array<bv32>) returns (q: Regs)
    requires |block| == 64 && w.Length == 16 && j + 4 <= 16 && i + 16 <= 64
    requires r == Rounds256(first, block, i + j) && Schedule(w[..], block, i, 16)
    ensures q == Rounds256(first, block, i + j + 4)
  {
    hide *;
    var a, b, c, d := r.a, r.b, r.c, r.d;
    var e, f, g, h := r.e, r.f, r.g, r.h;
    var temp: bv32;
    WordsReady(w[..], block, i, j);

    temp := Add(Add(Add(h, Step1(e, f, g)), K256()[i + j + 0]), w[j + 0]);
    h := Add(temp, d);
    d := Add(temp, Step2(a, b, c));
    ghost var r1 := Regs(d, a, b, c, h, e, f, g);
    TempIs(r, K256()[i + j], w[j]);
    UnrolledRound(first, block, i + j, r, K256()[i + j], w[j], r1);

    temp := Add(Add(Add(g, Step1(h, e, f)), K256()[i + j + 1]), w[j + 1]);
    g := Add(temp, c);
    c := Add(temp, Step2(d, a, b));
    ghost var r2 := Regs(c, d, a, b, g, h, e, f);
    TempIs(r1, K256()[i + j + 1], w[j + 1]);
    UnrolledRound(first, block, i + j + 1, r1, K256()[i + j + 1], w[j + 1], r2);

    temp := Add(Add(Add(f, Step1(g, h, e)), K256()[i + j + 2]), w[j + 2]);
    f := Add(temp, b);
    b := Add(temp, Step2(c, d, a));
    ghost var r3 := Regs(b, c, d, a, f, g, h, e);
    TempIs(r2, K256()[i + j + 2], w[j + 2]);
    UnrolledRound(first, block, i + j + 2, r2, K256()[i + j + 2], w[j + 2], r3);

    temp := Add(Add(Add(e, Step1(f, g, h)), K256()[i + j + 3]), w[j + 3]);
    e := Add(temp, a);
    a := Add(temp, Step2(b, c, d));
    q := Regs(a, b, c, d, e, f, g, h);
    TempIs(r3, K256()[i + j + 3], w[j + 3]);
    UnrolledRound(first, block, i + j + 3, r3, K256()[i + j + 3], w[j + 3], q);
  }

  lemma WordsReady(w: seq<bv32>, block: Octets, i: nat, j: nat)
    requires |block| == 64 && |w| == 16 && j + 4 <= 16 && Schedule(w, block, i, 16)
    ensures w[j] == W256(block, i + j) && w[j + 1] == W256(block, i + j + 1)
    ensures w[j + 2] == W256(block, i + j + 2) && w[j + 3] == W256(block, i + j + 3)
  {
    hide W256;
  }

  /** The eight state words as one value. */
  function RegsOf(s: seq<bv32>): Regs
    requires |s| == 8
  {
    Regs(s[0], s[1], s[2], s[3], s[4], s[5], s[6], s[7])
  }

  method AllRounds(first: Regs, buffer: array<bv8>) returns (r: Regs)
    requires buffer.Length == 64
    ensures r == Rounds256(first, buffer[..], 64)
  {
    hide *;
    r := first;
    var w := new bv32[16];
    NoRounds(first, buffer[..]);
    var i := 0;
    while i < 64
      invariant i % 16 == 0 && i <= 64
      invariant i >= 16 ==> Schedule(w[..], buffer[..], i - 16, 16)
      invariant r == Rounds256(first, buffer[..], i)
    {
      UpdateW(w, i, buffer);
      r := SixteenRounds(first, buffer[..], i, r, w);
      i := i + 16;
    }
  }

  /** `sha256_block`. */
  method Block(state: array<bv32>, buffer: array<bv8>)
    requires state.Length == 8 && buffer.Length == 64
    modifies state
    ensures RegsOf(state[..]) == Compress256(old(RegsOf(state[..])), buffer[..])
  {
    hide Rounds256, AddRegs;
    var first := Regs(state[0], state[1], state[2], state[3], state[4], state[5], state[6], state[7]);
    var r := AllRounds(first, buffer);
    AddInto(state, r);
  }

  method SixteenRounds(ghost first: Regs, ghost block: Octets, i: nat, r: Regs, w: array<bv32>) returns (q: Regs)
    requires |block| == 64 && w.Length == 16 && i + 16 <= 64
    requires r == Rounds256(first, block, i) && Schedule(w[..], block, i, 16)
    ensures q == Rounds256(first, block, i + 16)
  {
    hide *;
    q := r;
    var j := 0;
    while j < 16
      invariant j % 4 == 0 && j <= 16 && Schedule(w[..], block, i, 16)
      invariant q == Rounds256(first, block, i + j)
    {
      q := FourRounds(first, block, i, j, q, w);
      j := j + 4;
    }
  }

  method AddInto(state: array<bv32>, r: Regs)
    requires state.Length == 8
    modifies state
    ensures RegsOf(state[..]) == AddRegs(RegsOf(old(state[..])), r)
  {
    hide Add;
    state[0] := Add(state[0], r.a);
    state[1] := Add(state[1], r.b);
    state[2] := Add(state[2], r.c);
    state[3] := Add(state[3], r.d);
    state[4] := Add(state[4], r.e);
    state[5] := Add(state[5], r.f);
    state[6] := Add(state[6], r.g);
    state[7] := Add(state[7], r.h);
  }

  lemma NoRounds(r: Regs, block: Octets)
    requires |block| == 64
    ensures Rounds256(r, block, 0) == r
  {
  }

  // ---------- the stream ----------

  /** What the fields of a stream that has taken the message `m` hold. */
  ghost predicate Absorbed(state: seq<bv32>, buffer: Octets, counter: nat, bits: nat, m: Octets) {
    && |state| == 8 && |buffer| == 64
    && counter == |m| % 64 && bits == 8 * |m| % TWO_64
    && RegsOf(state) == Chain256(Whole(m)) && buffer[..counter] == Rest(m)
  }

  /** `n_bits += 8` in 64 bits. */
  function MoreBits(n: nat): nat {
    (n + 8) % TWO_64
  }

  function MoreCount(counter: nat): nat {
    (counter + 1) % 64
  }

  lemma CountersStep(length: nat)
    ensures MoreCount(length % 64) == (length + 1) % 64 && MoreBits(8 * length % TWO_64) == 8 * (length + 1) % TWO_64
  {
    ModAdd(length, 1, 64);
    ModAdd(8 * length, 8, TWO_64);
    assert 8 * length + 8 == 8 * (length + 1);
  }

  lemma AbsorbedByte(state: seq<bv32>, buffer: Octets, counter: nat, bits: nat, m: Octets, byte: bv8, after: seq<bv32>)
    requires Absorbed(state, buffer, counter, bits, m)
    requires |after| == 8
    requires if counter == 63 then RegsOf(after) == Compress256(RegsOf(state), buffer[counter := byte])
             else after == state
    ensures Absorbed(after, buffer[counter := byte], MoreCount(counter), MoreBits(bits), m + [byte])
  {
    CountersStep(|m|);
    hide RegsOf, Chain256, Compress256, Whole, Rest, MoreBits, MoreCount;
    OneMoreByte(m, byte);
    var b := buffer[counter := byte];
    assert b[..counter + 1] == buffer[..counter] + [byte];
    if counter == 63 {
      assert b[..64] == b;
      LastBlock(Whole(m), b);
    }
  }

  method StoreByte(buffer: array<bv8>, i: nat, byte: bv8)
    requires i < buffer.Length
    modifies buffer
    ensures buffer[..] == old(buffer[..])[i := byte]
  {
    buffer[i] := byte;
  }

  /** Counts a stored byte, and hashes the block when the buffer is full. */
  method BlockIfFull(state: array<bv32>, buffer: array<bv8>, counter: nat) returns (next: nat)
    requires state.Length == 8 && buffer.Length == 64 && counter < 64
    modifies state
    ensures next == MoreCount(counter)
    ensures if counter == 63 then RegsOf(state[..]) == Compress256(old(RegsOf(state[..])), buffer[..])
            else state[..] == old(state[..])
  {
    hide Compress256, RegsOf;
    next := counter + 1;
    if next == 64 {
      next := 0;
      Block(state, buffer);
    }
  }

  class Sha256State {
    const state: array<bv32>
    const buffer: array<bv8>
    var n_bits: nat
    var buffer_counter: nat
    /** Everything appended so far. */
    ghost var msg: Octets

    ghost predicate Valid()
      reads this, state, buffer
    {
      Absorbed(state[..], buffer[..], buffer_counter, n_bits, msg)
    }

    /** `sha256_init`. */
    constructor ()
      ensures Valid() && msg == [] && fresh(state) && fresh(buffer)
    {
      state := new bv32[8];
      buffer := new bv8[64];
      n_bits := 0;
      buffer_counter := 0;
      msg := [];
      new;
      hide Compress256;
      state[0] := 0x6a09e667;
      state[1] := 0xbb67ae85;
      state[2] := 0x3c6ef372;
      state[3] := 0xa54ff53a;
      state[4] := 0x510e527f;
      state[5] := 0x9b05688c;
      state[6] := 0x1f83d9ab;
      state[7] := 0x5be0cd19;
    }

    /** `sha256_append_byte`. */
    method AppendByte(byte: bv8)
      requires Valid()
      modifies this, state, buffer
      ensures Valid() && msg == old(msg) + [byte]
    {
      ghost var s, b, c, n := state[..], buffer[..], buffer_counter, n_bits;
      assert Absorbed(s, b, c, n, msg);
      assert state.Length == 8 && buffer.Length == 64 && c < 64;
      hide *;
      StoreByte(buffer, buffer_counter, byte);
      n_bits := MoreBits(n_bits);
      buffer_counter := BlockIfFull(state, buffer, buffer_counter);
      AbsorbedByte(s, b, c, n, msg, byte, state[..]);
      msg := msg + [byte];
    }

    /** `sha256_append`. */
    method Append(src: Octets)
      requires Valid()
      modifies this, state, buffer
      ensures Valid() && msg == old(msg) + src
    {
      hide *;
      ghost var m := msg;
      var i := 0;
      assert m + src[..0] == m;
      while i < |src|
        invariant i <= |src| && Valid() && msg == m + src[..i]
      {
        AppendByte(src[i]);
        assert (m + src[..i]) + [src[i]] == m + src[..i + 1];
        i := i + 1;
      }
      assert src[..i] == src;
    }

    /** Any number of calls of `sha256_append`. */
    method AppendAll(parts: seq<Octets>)
      requires Valid()
      modifies this, state, buffer
      ensures Valid() && msg == old(msg) + Joined(parts)
    {
      hide *;
      ghost var m := msg;
      var i := 0;
      JoinedNone(parts, m);
      while i < |parts|
        invariant i <= |parts| && Valid() && msg == m + Joined(parts[..i])
      {
        JoinedNext(parts, i);
        Append(parts[i]);
        i := i + 1;
      }
    }

    lemma Facts()
      requires Valid()
      ensures state.Length == 8 && buffer.Length == 64 && n_bits == 8 * |msg| % TWO_64 && buffer_counter == |msg| % 64
      ensures RegsOf(state[..]) == Chain256(Whole(msg))
    {
    }

    /** Zero bytes until the counter is at 56. */
    method AppendZeros()
      requires Valid() && |msg| > 0
      modifies this, state, buffer
      ensures Valid() && msg == old(msg) + ZeroOctets(ZeroCount(|old(msg)| - 1))
    {
      hide *;
      ghost var m, z := msg, 0;
      ZerosGrow(m);
      Facts();
      while buffer_counter != 56
        invariant Valid() && z <= ZeroCount(|m| - 1) && msg == m + ZeroOctets(z) && buffer_counter == |msg| % 64
        decreases ZeroCount(|m| - 1) - z
      {
        ZeroCountLeast(|m| - 1, z);
        AppendByte(0);
        ZerosNext(m, z);
        z := z + 1;
        Facts();
      }
      ZeroCountLeast(|m| - 1, z);
    }

    /** The eight bytes of a bit length, most significant first. */
    method AppendLength(bits: nat)
      requires Valid()
      modifies this, state, buffer
      ensures Valid() && msg == old(msg) + BigEndian(bits, 8)
    {
      hide *;
      ghost var m, field := msg, BigEndian(bits, 8);
      var i := 8;
      assert m + field[..0] == m;
      while i > 0
        invariant i <= 8 && Valid() && msg == m + field[..8 - i]
      {
        i := i - 1;
        BigEndianByte(bits, 8, i);
        AppendByte(((bits / Pow256(i)) % 256) as bv8);
        assert (m + field[..7 - i]) + [field[7 - i]] == m + field[..8 - i];
      }
      assert field[..8] == field;
    }

    /** `sha256_finalize`. */
    method Finalize()
      requires Valid()
      modifies this, state, buffer
      ensures Valid() && msg == Pad(old(msg)) && RegsOf(state[..]) == Chain256(Pad(old(msg)))
    {
      hide *;
      ghost var m := msg;
      Facts();
      var bits := n_bits;
      AppendByte(0x80);
      AppendZeros();
      AppendLength(bits);
      Padded(m);
      Facts();
    }

    /** `sha256_finalize_bytes`. */
    method FinalizeBytes(dst: array<bv8>)
      requires Valid() && dst.Length >= 32 && dst != buffer
      modifies this, state, buffer, dst
      ensures dst[..32] == Sha256(old(msg)) && dst[32..] == old(dst[32..])
    {
      hide *;
      Finalize();
      Facts();
      WriteDigest(state, dst);
      ShaIs(old(msg));
    }
  }

  lemma ShaIs(m: Octets)
    ensures Sha256(m) == Digest256(Chain256(Pad(m)))
  {
    hide Digest256, Chain256, Pad;
  }

  lemma DigestIs(s: seq<bv32>)
    requires |s| == 8
    ensures Digest256(RegsOf(s)) == WordsBytes(s)
  {
    hide WordsBytes;
    var r := RegsOf(s);
    assert [r.a, r.b, r.c, r.d, r.e, r.f, r.g, r.h] == s;
  }

  method WriteDigest(state: array<bv32>, dst: array<bv8>)
    requires state.Length == 8 && dst.Length >= 32
    modifies dst
    ensures dst[..32] == Digest256(RegsOf(state[..])) && dst[32..] == old(dst[32..])
  {
    hide *;
    ghost var tail, s := dst[32..], state[..];
    DigestIs(s);
    var i := 0;
    NoWords(s, dst[..]);
    while i < 8
      invariant i <= 8 && dst[32..] == tail
      invariant dst[..4 * i] == WordsBytes(s[..i])
    {
      WordsBytesNext(s, i);
      StoreWord(dst, 4 * i, state[i]);
      assert dst[32..] == dst[4 * i + 4..][32 - 4 * i - 4..];
      i := i + 1;
    }
    assert s[..8] == s;
  }

  lemma NoWords(s: seq<bv32>, d: Octets)
    ensures d[..0] == WordsBytes(s[..0])
  {
  }

  lemma Padded(m: Octets)
    ensures ((m + [0x80]) + ZeroOctets(ZeroCount(|m|))) + BigEndian(8 * |m| % TWO_64, 8) == Pad(m)
    ensures Whole(Pad(m)) == Pad(m)
  {
    WordSizes();
    hide Pow256, ZeroOctets, ZeroCount;
    BigEndianMod(8 * |m|, 8);
    hide BigEndian;
    AllWhole(Pad(m));
  }

  lemma LaneAt(w: bv32, j: nat)
    requires j < 4
    ensures WordBytes(w)[3 - j] == Lane(w, j)
  {
    hide Lane;
  }

  lemma Extend(d: Octets, e: Octets, lo: nat, hi: nat, b: bv8)
    requires lo <= hi < |d| && e == d[hi := b]
    ensures e[lo..hi + 1] == d[lo..hi] + [b] && e[..lo] == d[..lo]
    ensures forall k :: hi < k <= |d| ==> e[k..] == d[k..]
  {
  }

  /** The bytes of one word of the digest, most significant first. */
  method StoreWord(dst: array<bv8>, p: nat, w: bv32)
    requires p + 4 <= dst.Length
    modifies dst
    ensures dst[..p + 4] == old(dst[..p]) + WordBytes(w) && dst[p + 4..] == old(dst[p + 4..])
  {
    hide *;
    ghost var bytes := WordBytes(w);
    var j := 4;
    while j > 0
      invariant j <= 4
      invariant dst[..p] == old(dst[..p]) && dst[p + 4..] == old(dst[p + 4..])
      invariant dst[p..p + 4 - j] == bytes[..4 - j]
    {
      j := j - 1;
      LaneAt(w, j);
      ghost var d := dst[..];
      dst[p + 3 - j] := Lane(w, j);
      Extend(d, dst[..], p, p + 3 - j, Lane(w, j));
      assert bytes[..4 - j] == bytes[..3 - j] + [bytes[3 - j]];
    }
    assert dst[..p + 4] == dst[..p] + dst[p..p + 4];
    assert bytes[..4] == bytes;
  }

  /** `sha256_bytes`. */
  method Sha256Bytes(src: Octets, dst: array<bv8>)
    requires dst.Length >= 32
    modifies dst
    ensures dst[..32] == Sha256(src) && dst[32..] == old(dst[32..])
  {
    hide *;
    var sha := new Sha256State();
    sha.Append(src);
    assert [] + src == src;
    sha.FinalizeBytes(dst);
  }

  /** However a message is cut into calls of `sha256_append`, the digest is that of the whole. */
  method Sha256Parts(parts: seq<Octets>, dst: array<bv8>)
    requires dst.Length >= 32
    modifies dst
    ensures dst[..32] == Sha256(Joined(parts))
  {
    hide *;
    var sha := new Sha256State();
    sha.AppendAll(parts);
    assert [] + Joined(parts) == Joined(parts);
    sha.FinalizeBytes(dst);
  }
}
