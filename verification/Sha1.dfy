/** mtx/src/sha1.c: SHA-1 over a buffer seen both as bytes and as little-endian words, and HMAC on top of it. */
module Sha1Stream {
  import opened Arith
  import opened Bytes
  import opened Fips180

  // ---------- bytes inside words ----------

  function Put0(w: bv32, b: bv8): bv32 { (w & 0xffffff00) | (b as bv32) }
  function Put1(w: bv32, b: bv8): bv32 { (w & 0xffff00ff) | ((b as bv32) << 8) }
  function Put2(w: bv32, b: bv8): bv32 { (w & 0xff00ffff) | ((b as bv32) << 16) }
  function Put3(w: bv32, b: bv8): bv32 { (w & 0x00ffffff) | ((b as bv32) << 24) }

  /** A word with byte `k` replaced, as a byte store into the union does. */
  function SetLane(w: bv32, k: nat, b: bv8): bv32
    requires k < 4
  {
    if k == 0 then Put0(w, b) else if k == 1 then Put1(w, b) else if k == 2 then Put2(w, b) else Put3(w, b)
  }

  lemma PutSets0(w: bv32, b: bv8)
    ensures Byte0(Put0(w, b)) == b
    ensures Byte1(Put0(w, b)) == Byte1(w)
    ensures Byte2(Put0(w, b)) == Byte2(w)
    ensures Byte3(Put0(w, b)) == Byte3(w)
  {
  }

  lemma PutSets1(w: bv32, b: bv8)
    ensures Byte0(Put1(w, b)) == Byte0(w)
    ensures Byte1(Put1(w, b)) == b
    ensures Byte2(Put1(w, b)) == Byte2(w)
    ensures Byte3(Put1(w, b)) == Byte3(w)
  {
  }

  lemma PutSets2(w: bv32, b: bv8)
    ensures Byte0(Put2(w, b)) == Byte0(w)
    ensures Byte1(Put2(w, b)) == Byte1(w)
    ensures Byte2(Put2(w, b)) == b
    ensures Byte3(Put2(w, b)) == Byte3(w)
  {
  }

  lemma PutSets3(w: bv32, b: bv8)
    ensures Byte0(Put3(w, b)) == Byte0(w)
    ensures Byte1(Put3(w, b)) == Byte1(w)
    ensures Byte2(Put3(w, b)) == Byte2(w)
    ensures Byte3(Put3(w, b)) == b
  {
  }

  lemma SetLaneSets(w: bv32, k: nat, b: bv8, j: nat)
    requires k < 4 && j < 4
    ensures Lane(SetLane(w, k, b), j) == if j == k then b else Lane(w, j)
  {
    hide Byte0, Byte1, Byte2, Byte3, Put0, Put1, Put2, Put3;
    if k == 0 {
      PutSets0(w, b);
    } else if k == 1 {
      PutSets1(w, b);
    } else if k == 2 {
      PutSets2(w, b);
    } else {
      PutSets3(w, b);
    }
  }

  lemma LanesMakeWord(w: bv32)
    ensures w == Word(Lane(w, 3), Lane(w, 2), Lane(w, 1), Lane(w, 0))
  {
  }

  function SwapBytes(a: bv32): bv32 {
    (a << 24) | ((a << 8) & 0x00ff0000) | ((a >> 8) & 0x0000ff00) | (a >> 24)
  }

  lemma SwapReverses(a: bv32, k: nat)
    requires k < 4
    ensures Lane(SwapBytes(a), k) == Lane(a, 3 - k)
  {
  }

  lemma ChooseForm(b: bv32, c: bv32, d: bv32)
    ensures d ^ (b & (c ^ d)) == Ch(b, c, d)
  {
  }

  lemma MajorityForm(b: bv32, c: bv32, d: bv32)
    ensures (b & c) | (d & (b | c)) == Maj(b, c, d)
  {
  }

  // ---------- one block ----------

  /** Before round `i` the buffer holds the words of the schedule that rounds from `i` on still need. */
  ghost predicate Circular(buffer: seq<bv32>, block: Octets, i: nat)
    requires |block| == 64 && |buffer| == 16
  {
    forall t :: 0 <= t && i - 16 <= t < (if i < 16 then 16 else i) ==> buffer[t % 16] == W1(block, t)
  }

  lemma CircularAt(buffer: seq<bv32>, block: Octets, i: nat, t: nat)
    requires |block| == 64 && |buffer| == 16 && Circular(buffer, block, i)
    requires i - 16 <= t < (if i < 16 then 16 else i)
    ensures buffer[t % 16] == W1(block, t)
  {
    hide W1;
  }

  lemma CircularNext(before: seq<bv32>, after: seq<bv32>, block: Octets, i: nat)
    requires |block| == 64 && |before| == 16 == |after| && Circular(before, block, i)
    requires after == if i < 16 then before else before[i % 16 := W1(block, i)]
    ensures Circular(after, block, i + 1)
  {
    hide W1;
    forall t | 0 <= t && i + 1 - 16 <= t < (if i + 1 < 16 then 16 else i + 1)
      ensures after[t % 16] == W1(block, t)
    {
      if i < 16 {
        CircularAt(before, block, i, t);
      } else if t < i {
        SamePlace(t, i);
        CircularAt(before, block, i, t);
      }
    }
  }

  lemma SamePlace(t: nat, i: nat)
    requires i - 16 < t < i
    ensures t % 16 != i % 16
  {
  }

  lemma LaterWord(block: Octets, t: nat)
    requires |block| == 64 && t >= 16
    ensures W1(block, t) == Rotl(W1(block, t - 3) ^ W1(block, t - 8) ^ W1(block, t - 14) ^ W1(block, t - 16), 1)
  {
    hide Rotl, BlockWord;
  }

  lemma FourPlaces(buffer: seq<bv32>, block: Octets, i: nat)
    requires |block| == 64 && |buffer| == 16 && i >= 16 && Circular(buffer, block, i)
    ensures buffer[(i + 13) % 16] == W1(block, i - 3) && buffer[(i + 8) % 16] == W1(block, i - 8)
    ensures buffer[(i + 2) % 16] == W1(block, i - 14) && buffer[i % 16] == W1(block, i - 16)
  {
    hide *;
    CircularAt(buffer, block, i, i - 3);
    CircularAt(buffer, block, i, i - 8);
    CircularAt(buffer, block, i, i - 14);
    CircularAt(buffer, block, i, i - 16);
    Wraps(i);
  }

  lemma Wraps(i: nat)
    requires i >= 16
    ensures (i + 13) % 16 == (i - 3) % 16 && (i + 8) % 16 == (i - 8) % 16
    ensures (i + 2) % 16 == (i - 14) % 16 && i % 16 == (i - 16) % 16
  {
  }

  lemma NextWord(buffer: seq<bv32>, block: Octets, i: nat)
    requires |block| == 64 && |buffer| == 16 && i >= 16 && Circular(buffer, block, i)
    ensures Rotl(buffer[(i + 13) % 16] ^ buffer[(i + 8) % 16] ^ buffer[(i + 2) % 16] ^ buffer[i % 16], 1)
            == W1(block, i)
  {
    hide *;
    FourPlaces(buffer, block, i);
    LaterWord(block, i);
  }

  /** The selected function with its constant added, in the forms the code uses. */
  method Mix(i: nat, b: bv32, c: bv32, d: bv32) returns (t: bv32)
    requires i < 80
    ensures t == Add(F1(i, b, c, d), K1(i))
  {
    ChooseForm(b, c, d);
    MajorityForm(b, c, d);
    hide Add, Ch, Maj;
    if i < 20 {
      t := Add(d ^ (b & (c ^ d)), 0x5a827999);
    } else if i < 40 {
      t := Add(b ^ c ^ d, 0x6ed9eba1);
    } else if i < 60 {
      t := Add((b & c) | (d & (b | c)), 0x8f1bbcdc);
    } else {
      t := Add(b ^ c ^ d, 0xca62c1d6);
    }
  }

  lemma SumOrder(f: bv32, k: bv32, r: bv32, e: bv32, w: bv32)
    ensures Add(Add(f, k), Add(Add(r, e), w)) == Add(Add(Add(Add(r, f), e), k), w)
  {
    hide *;
    AddAssoc(Add(f, k), Add(r, e), w);
    AddComm(Add(f, k), Add(r, e));
    AddAssoc(Add(r, e), f, k);
    AddAssoc(r, e, f);
    AddComm(e, f);
    AddAssoc(r, f, e);
  }

  lemma RoundsNext(r: Regs5, block: Octets, t: nat, f: bv32)
    requires |block| == 64
    requires var q := Rounds1(r, block, t); f == Add(F1(t, q.b, q.c, q.d), K1(t))
    ensures var q := Rounds1(r, block, t);
            Rounds1(r, block, t + 1)
            == Regs5(Add(f, Add(Add(Rotl(q.a, 5), q.e), W1(block, t))), q.a, Rotl(q.b, 30), q.c, q.d)
  {
    var q := Rounds1(r, block, t);
    SumOrder(F1(t, q.b, q.c, q.d), K1(t), Rotl(q.a, 5), q.e, W1(block, t));
    hide Add, F1, K1, Rotl, W1;
  }

  /** The eighty rounds of `sha1_hashBlock`; the schedule overwrites the buffer. */
  method EightyRounds(first: Regs5, buffer: array<bv32>, ghost block: Octets) returns (r: Regs5)
    requires buffer.Length == 16 && |block| == 64 && Circular(buffer[..], block, 0)
    modifies buffer
    ensures r == Rounds1(first, block, 80)
  {
    hide *;
    var a, b, c, d, e := first.a, first.b, first.c, first.d, first.e;
    NoRounds(first, block);
    var i := 0;
    while i < 80
      invariant i <= 80 && Circular(buffer[..], block, i)
      invariant Regs5(a, b, c, d, e) == Rounds1(first, block, i)
    {
      ghost var before := buffer[..];
      var t: bv32;
      if i >= 16 {
        NextWord(before, block, i);
        t := buffer[(i + 13) % 16] ^ buffer[(i + 8) % 16] ^ buffer[(i + 2) % 16] ^ buffer[i % 16];
        buffer[i % 16] := Rotl(t, 1);
        assert buffer[..] == before[i % 16 := W1(block, i)];
      }
      CircularNext(before, buffer[..], block, i);
      CircularAt(buffer[..], block, i + 1, i);
      t := Mix(i, b, c, d);
      RoundsNext(first, block, i, t);
      t := Add(t, Add(Add(Rotl(a, 5), e), buffer[i % 16]));
      e := d;
      d := c;
      c := Rotl(b, 30);
      b := a;
      a := t;
      i := i + 1;
    }
    r := Regs5(a, b, c, d, e);
  }

  lemma NoRounds(r: Regs5, block: Octets)
    requires |block| == 64
    ensures Rounds1(r, block, 0) == r
  {
  }

  function RegsOf(s: seq<bv32>): Regs5
    requires |s| == 5
  {
    Regs5(s[0], s[1], s[2], s[3], s[4])
  }

  /** The buffer spells the bytes of `tail`, each word with its bytes reversed. */
  ghost predicate Spells(buffer: seq<bv32>, tail: Octets)
    requires |buffer| == 16 && |tail| <= 64
  {
    forall o :: 0 <= o < |tail| ==> Lane(buffer[o / 4], 3 - o % 4) == tail[o]
  }

  lemma SpelledBlock(buffer: seq<bv32>, block: Octets)
    requires |buffer| == 16 && |block| == 64 && Spells(buffer, block)
    ensures Circular(buffer, block, 0)
  {
    forall t | 0 <= t < 16
      ensures buffer[t % 16] == W1(block, t)
    {
      SpelledWord(buffer, block, t);
    }
  }

  lemma SpelledByte(buffer: seq<bv32>, block: Octets, t: nat, k: nat)
    requires |buffer| == 16 && |block| == 64 && Spells(buffer, block) && t < 16 && k < 4
    ensures Lane(buffer[t], 3 - k) == block[4 * t + k]
  {
    hide Lane;
    var o := 4 * t + k;
    assert o / 4 == t && o % 4 == k;
    assert Lane(buffer[o / 4], 3 - o % 4) == block[o];
  }

  lemma SpelledWord(buffer: seq<bv32>, block: Octets, t: nat)
    requires |buffer| == 16 && |block| == 64 && Spells(buffer, block) && t < 16
    ensures buffer[t] == W1(block, t)
  {
    hide *;
    SpelledByte(buffer, block, t, 0);
    SpelledByte(buffer, block, t, 1);
    SpelledByte(buffer, block, t, 2);
    SpelledByte(buffer, block, t, 3);
    LanesMakeWord(buffer[t]);
    FirstWord(block, t);
  }

  lemma FirstWord(block: Octets, t: nat)
    requires |block| == 64 && t < 16
    ensures W1(block, t) == Word(block[4 * t], block[4 * t + 1], block[4 * t + 2], block[4 * t + 3])
  {
    hide Word;
  }

  lemma SpellMore(buffer: seq<bv32>, tail: Octets, byte: bv8)
    requires |buffer| == 16 && |tail| < 64 && Spells(buffer, tail)
    ensures var o := |tail|; Spells(buffer[o / 4 := SetLane(buffer[o / 4], 3 - o % 4, byte)], tail + [byte])
  {
    hide Lane, SetLane;
    var o := |tail|;
    var after := buffer[o / 4 := SetLane(buffer[o / 4], 3 - o % 4, byte)];
    forall p | 0 <= p <= o
      ensures Lane(after[p / 4], 3 - p % 4) == (tail + [byte])[p]
    {
      SetLaneSets(buffer[o / 4], 3 - o % 4, byte, 3 - p % 4);
      assert p < o ==> p / 4 != o / 4 || p % 4 != o % 4;
    }
  }

  /** `sha1_hashBlock`. */
  method HashBlock(state: array<bv32>, buffer: array<bv32>, ghost block: Octets)
    requires state.Length == 5 && buffer.Length == 16 && state != buffer && |block| == 64 && Spells(buffer[..], block)
    modifies state, buffer
    ensures RegsOf(state[..]) == Compress1(old(RegsOf(state[..])), block)
  {
    hide Rounds1, Add, Spells, Circular;
    var first := Regs5(state[0], state[1], state[2], state[3], state[4]);
    SpelledBlock(buffer[..], block);
    var r := EightyRounds(first, buffer, block);
    state[0] := Add(state[0], r.a);
    state[1] := Add(state[1], r.b);
    state[2] := Add(state[2], r.c);
    state[3] := Add(state[3], r.d);
    state[4] := Add(state[4], r.e);
  }

  // ---------- the stream ----------

  /** The length field: eight times a byte counter of 32 bits. */
  function CountedBits(m: Octets): nat {
    8 * (|m| % TWO_32)
  }

  /** What the code returns for a message of any length. */
  function Sha1Code(m: Octets): (d: Octets)
    ensures |d| == 20
  {
    Digest1(Chain1(PadWith(m, CountedBits(m))))
  }

  ghost predicate Absorbed(state: seq<bv32>, buffer: seq<bv32>, offset: nat, m: Octets) {
    && |state| == 5 && |buffer| == 16 && offset == |m| % 64
    && RegsOf(state) == Chain1(Whole(m)) && Spells(buffer, Rest(m))
  }

  function MoreOffset(offset: nat): nat {
    (offset + 1) % 64
  }

  /** `buffer.b[offset ^ 3] = data`. */
  method StoreByte(buffer: array<bv32>, offset: nat, data: bv8)
    requires buffer.Length == 16 && offset < 64
    modifies buffer
    ensures buffer[..] == old(Stored(buffer[..], offset, data))
  {
    hide SetLane;
    var k := offset / 4;
    buffer[k] := SetLane(buffer[k], 3 - offset % 4, data);
  }

  function Stored(buffer: seq<bv32>, offset: nat, data: bv8): seq<bv32>
    requires |buffer| == 16 && offset < 64
  {
    buffer[offset / 4 := SetLane(buffer[offset / 4], 3 - offset % 4, data)]
  }

  method HashIfFull(state: array<bv32>, buffer: array<bv32>, offset: nat, ghost block: Octets) returns (next: nat)
    requires state.Length == 5 && buffer.Length == 16 && state != buffer && offset < 64
    requires offset == 63 ==> |block| == 64 && Spells(buffer[..], block)
    modifies state, buffer
    ensures next == MoreOffset(offset)
    ensures if offset == 63 then RegsOf(state[..]) == Compress1(old(RegsOf(state[..])), block)
            else state[..] == old(state[..]) && buffer[..] == old(buffer[..])
  {
    hide Compress1, Spells, RegsOf;
    next := offset + 1;
    if next == 64 {
      HashBlock(state, buffer, block);
      next := 0;
    }
  }

  lemma AbsorbedStored(state: seq<bv32>, buffer: seq<bv32>, offset: nat, m: Octets, data: bv8)
    requires Absorbed(state, buffer, offset, m)
    ensures offset < 64 && Spells(Stored(buffer, offset, data), Rest(m) + [data])
  {
    hide RegsOf, Chain1, Whole, Rest, Spells;
    SpellMore(buffer, Rest(m), data);
  }

  lemma AbsorbedByte(state: seq<bv32>, buffer: seq<bv32>, offset: nat, m: Octets, data: bv8,
                     after: seq<bv32>, bufferAfter: seq<bv32>)
    requires Absorbed(state, buffer, offset, m) && |after| == 5 && |bufferAfter| == 16
    requires if offset == 63 then RegsOf(after) == Compress1(RegsOf(state), Rest(m) + [data])
             else after == state && Spells(bufferAfter, Rest(m) + [data])
    ensures Absorbed(after, bufferAfter, MoreOffset(offset), m + [data])
  {
    ModAdd(|m|, 1, 64);
    hide RegsOf, Chain1, Whole, Rest, Compress1;
    OneMoreByte(m, data);
    if offset == 63 {
      LastBlock(Whole(m), Rest(m) + [data]);
    } else {
      hide Spells;
    }
  }

  lemma LengthBytes(bc: nat)
    requires bc < TWO_32
    ensures BigEndian(8 * bc, 8)
         == [0, 0, 0, ShiftedByte(bc, 0x2000_0000), ShiftedByte(bc, 0x20_0000), ShiftedByte(bc, 0x2000),
             ShiftedByte(bc, 0x20), LowByte(8 * bc)]
  {
    hide *;
    var q1, q2, q3, q4 := bc / 0x20, bc / 0x2000, bc / 0x20_0000, bc / 0x2000_0000;
    Shifts(bc);
    ByteOfQuotient(bc, 0x2000_0000);
    ByteOfQuotient(bc, 0x20_0000);
    ByteOfQuotient(bc, 0x2000);
    ByteOfQuotient(bc, 0x20);
    NoBytes();
    BigEndianNext(q4, 3);
    BigEndianNext(q3, 4);
    BigEndianNext(q2, 5);
    BigEndianNext(q1, 6);
    BigEndianNext(8 * bc, 7);
  }

  lemma Shifts(bc: nat)
    requires bc < TWO_32
    ensures 8 * bc / 256 == bc / 0x20 && bc / 0x20 / 256 == bc / 0x2000 && bc / 0x2000 / 256 == bc / 0x20_0000
    ensures bc / 0x20_0000 / 256 == bc / 0x2000_0000 && bc / 0x2000_0000 / 256 == 0
  {
  }

  lemma ByteOfQuotient(n: nat, d: nat)
    requires d > 0
    ensures n / d >= 0 && ShiftedByte(n, d) == LowByte(n / d)
  {
    assert n / d >= 0;
  }

  lemma NoBytes()
    ensures BigEndian(0, 3) == [0, 0, 0]
  {
    assert BigEndian(0, 1) == [0] && BigEndian(0, 2) == [0, 0];
  }

  lemma BigEndianNext(n: nat, k: nat)
    ensures BigEndian(n, k + 1) == BigEndian(n / 256, k) + [LowByte(n)]
  {
  }

  class Sha1State {
    const buffer: array<bv32>
    const state: array<bv32>
    var bufferOffset: nat
    var byteCount: nat
    const keyBuffer: array<bv8>
    const innerHash: array<bv8>
    /** Everything hashed since the last `sha1_init`, padding included. */
    ghost var msg: Octets

    ghost predicate Shape() {
      state.Length == 5 && buffer.Length == 16 && state != buffer && keyBuffer.Length == 64 && innerHash.Length == 20
      && keyBuffer != innerHash
    }

    ghost predicate Holds()
      reads this`bufferOffset, this`msg, state, buffer
    {
      Shape() && Absorbed(state[..], buffer[..], bufferOffset, msg)
    }

    ghost predicate Valid()
      reads this`bufferOffset, this`msg, this`byteCount, state, buffer
    {
      Holds() && byteCount == |msg| % TWO_32
    }

    constructor ()
      ensures Shape() && fresh(state) && fresh(buffer) && fresh(keyBuffer) && fresh(innerHash)
    {
      buffer := new bv32[16];
      state := new bv32[5];
      keyBuffer := new bv8[64];
      innerHash := new bv8[20];
    }

    /** `sha1_init`. */
    method Init()
      requires Shape()
      modifies this, state
      ensures Valid() && msg == []
    {
      hide Compress1, PadWith;
      state[0] := 0x67452301;
      state[1] := 0xefcdab89;
      state[2] := 0x98badcfe;
      state[3] := 0x10325476;
      state[4] := 0xc3d2e1f0;
      byteCount := 0;
      bufferOffset := 0;
      msg := [];
    }

    /** `sha1_addUncounted`. */
    method AddUncounted(data: bv8)
      requires Holds()
      modifies this`bufferOffset, this`msg, state, buffer
      ensures Holds() && msg == old(msg) + [data]
    {
      ghost var s, b, o := state[..], buffer[..], bufferOffset;
      assert Absorbed(s, b, o, msg);
      hide *;
      AbsorbedStored(s, b, o, msg, data);
      StoreByte(buffer, bufferOffset, data);
      bufferOffset := HashIfFull(state, buffer, bufferOffset, Rest(msg) + [data]);
      AbsorbedByte(s, b, o, msg, data, state[..], buffer[..]);
      msg := msg + [data];
    }

    /** `sha1_writebyte`. */
    method WriteByte(data: bv8)
      requires Valid()
      modifies this, state, buffer
      ensures Valid() && msg == old(msg) + [data]
    {
      hide *;
      Parts();
      CountNext(|msg|);
      byteCount := MoreBytes(byteCount);
      AddUncounted(data);
      Parts();
    }

    lemma Parts()
      ensures Valid() <==> Holds() && byteCount == |msg| % TWO_32
      ensures Valid() ==> byteCount < TWO_32
    {
    }

    /** `sha1_write`. */
    method Write(data: Octets)
      requires Valid()
      modifies this, state, buffer
      ensures Valid() && msg == old(msg) + data
    {
      hide *;
      ghost var m := msg;
      var i := 0;
      assert m + data[..0] == m;
      while i < |data|
        invariant i <= |data| && Valid() && msg == m + data[..i]
      {
        WriteByte(data[i]);
        assert (m + data[..i]) + [data[i]] == m + data[..i + 1];
        i := i + 1;
      }
      assert data[..i] == data;
    }

    /** Any number of calls of `sha1_write`. */
    method WriteAll(parts: seq<Octets>)
      requires Valid()
      modifies this, state, buffer
      ensures Valid() && msg == old(msg) + Joined(parts)
    {
      hide *;
      ghost var m := msg;
      var i := 0;
      JoinedNone(parts, m);
      while i < |parts|
        invariant i <= |parts| && Valid() && msg == m + Joined(parts[..i])
      {
        JoinedNext(parts, i);
        Write(parts[i]);
        i := i + 1;
      }
    }

    lemma Facts()
      requires Holds()
      ensures Shape() && bufferOffset == |msg| % 64
      ensures RegsOf(state[..]) == Chain1(Whole(msg))
    {
    }

    method PadZeros()
      requires Holds() && |msg| > 0
      modifies this`bufferOffset, this`msg, state, buffer
      ensures Holds() && msg == old(msg) + ZeroOctets(ZeroCount(|old(msg)| - 1))
    {
      hide *;
      ghost var m, z := msg, 0;
      ZerosGrow(m);
      Facts();
      while bufferOffset != 56
        invariant Holds() && z <= ZeroCount(|m| - 1) && msg == m + ZeroOctets(z) && bufferOffset == |msg| % 64
        decreases ZeroCount(|m| - 1) - z
      {
        ZeroCountLeast(|m| - 1, z);
        AddUncounted(0x00);
        ZerosNext(m, z);
        z := z + 1;
        Facts();
      }
      ZeroCountLeast(|m| - 1, z);
    }

    /** The length field of `sha1_pad`, made of the 32-bit byte counter. */
    method PadLength()
      requires Holds() && byteCount < TWO_32
      modifies this`bufferOffset, this`msg, state, buffer
      ensures Holds() && msg == old(msg) + BigEndian(8 * byteCount, 8)
    {
      hide *;
      ghost var m := msg;
      var b3, b4 := ShiftedByte(byteCount, 0x2000_0000), ShiftedByte(byteCount, 0x20_0000);
      var b5 := ShiftedByte(byteCount, 0x2000);
      var b6, b7 := ShiftedByte(byteCount, 0x20), LowByte(8 * byteCount);
      AddUncounted(0);
      AddUncounted(0);
      AddUncounted(0);
      AddUncounted(b3);
      AddUncounted(b4);
      AddUncounted(b5);
      AddUncounted(b6);
      AddUncounted(b7);
      Eight(m, 0, 0, 0, b3, b4, b5, b6, b7);
      LengthBytes(byteCount);
    }

    /** `sha1_pad`. */
    method PadMessage()
      requires Valid()
      modifies this`bufferOffset, this`msg, state, buffer
      ensures Holds() && msg == PadWith(old(msg), CountedBits(old(msg)))
    {
      hide *;
      Parts();
      PaddedWith(msg);
      AddUncounted(0x80);
      PadZeros();
      PadLength();
    }

    /** `sha1_result`: pads, turns every word around in place and gives the bytes of the state. */
    method Result() returns (hash: Octets)
      requires Valid()
      modifies this`bufferOffset, this`msg, state, buffer
      ensures hash == Sha1Code(old(msg))
    {
      hide *;
      PadMessage();
      Facts();
      ghost var w := state[..];
      SwapAll(state);
      hash := StateBytes(state[..]);
      SwappedBytes(w, state[..]);
      CodeDigest(old(msg), w);
    }

    /** Writes the key block with every byte xored. */
    method WriteKey(pad: bv8)
      requires Valid() && msg == []
      modifies this, state, buffer
      ensures Valid() && msg == Xor(keyBuffer[..], pad)
    {
      hide *;
      ShapeHolds();
      ghost var k := keyBuffer[..];
      var i := 0;
      while i < 64
        invariant i <= 64 && Valid() && msg == Xor(k, pad)[..i] && keyBuffer[..] == k
        modifies this, state, buffer
      {
        WriteByte(keyBuffer[i] ^ pad);
        i := i + 1;
      }
      assert Xor(k, pad)[..64] == Xor(k, pad);
    }

    lemma ShapeHolds()
      requires Valid()
      ensures Shape() && keyBuffer.Length == 64 && innerHash.Length == 20
    {
    }

    /** `sha1_initHmac`. */
    method InitHmac(key: Octets)
      requires Shape()
      modifies this, state, buffer, keyBuffer
      ensures Valid() && keyBuffer[..] == KeyBlock(Sha1Code, key) && msg == Xor(KeyBlock(Sha1Code, key), 0x36)
    {
      assert keyBuffer.Length == 64;
      hide Sha1Code, Xor, Absorbed, ZeroOctets;
      var k := key;
      if |key| > 64 {
        Init();
        Write(key);
        assert [] + key == key;
        k := Result();
      }
      FillKey(keyBuffer, k);
      Init();
      WriteKey(0x36);
    }

    /** `sha1_resultHmac`. */
    method ResultHmac() returns (hash: Octets)
      requires Valid()
      modifies this, state, buffer, innerHash
      ensures hash == Sha1Code(Xor(keyBuffer[..], 0x5c) + Sha1Code(old(msg)))
    {
      ShapeHolds();
      hide *;
      var inner := Result();
      CopyAll(innerHash, inner);
      Init();
      WriteKey(0x5c);
      Write(innerHash[..]);
      hash := Result();
    }
  }

  /** `memset` and `memmove` of the key. */
  method FillKey(a: array<bv8>, k: Octets)
    requires a.Length == 64 && |k| <= 64
    modifies a
    ensures a[..] == k + ZeroOctets(64 - |k|)
  {
    var i := 0;
    while i < 64
      invariant i <= 64 && forall j :: 0 <= j < i ==> a[j] == if j < |k| then k[j] else 0
    {
      a[i] := if i < |k| then k[i] else 0;
      i := i + 1;
    }
  }

  method CopyAll(a: array<bv8>, s: Octets)
    requires a.Length == |s|
    modifies a
    ensures a[..] == s
  {
    var i := 0;
    while i < |s|
      invariant i <= |s| && a[..i] == s[..i]
    {
      a[i] := s[i];
      i := i + 1;
    }
  }

  /** Key, text in any number of writes, result: the HMAC of RFC 2104 over the hash the code computes. */
  method HmacSha1(key: Octets, parts: seq<Octets>) returns (mac: Octets)
    ensures mac == Hmac(Sha1Code, key, Joined(parts))
  {
    hide Sha1Code, KeyBlock, Xor, Joined;
    var s := new Sha1State();
    s.InitHmac(key);
    s.WriteAll(parts);
    mac := s.ResultHmac();
  }

  /** While no hashed message reaches 2^32 bytes, that is HMAC-SHA-1. */
  lemma HmacIsStandard(key: Octets, text: Octets)
    requires |key| < TWO_32 && |text| + 64 < TWO_32
    ensures Hmac(Sha1Code, key, text) == Hmac(Fips180.Sha1, key, text)
  {
    if |key| > 64 {
      CodeIsSha1(key);
    }
    var k := KeyBlock(Sha1Code, key);
    assert |k| == 64 by { hide Sha1Code; }
    CodeIsSha1(Xor(k, 0x36) + text);
    CodeIsSha1(Xor(k, 0x5c) + Sha1Code(Xor(k, 0x36) + text));
  }

  lemma CountNext(n: nat)
    ensures MoreBytes(n % TWO_32) == (n + 1) % TWO_32
  {
    ModAdd(n, 1, TWO_32);
  }

  /** `sha1`. */
  method Sha1(d: Octets) returns (md: Octets)
    ensures md == Sha1Code(d)
  {
    hide *;
    var s := new Sha1State();
    s.Init();
    s.Write(d);
    md := s.Result();
    assert [] + d == d;
  }

  /** However a message is cut into calls of `sha1_write`, the hash is that of the whole. */
  method Sha1Parts(parts: seq<Octets>) returns (md: Octets)
    ensures md == Sha1Code(Joined(parts))
  {
    hide *;
    var s := new Sha1State();
    s.Init();
    s.WriteAll(parts);
    md := s.Result();
    assert [] + Joined(parts) == Joined(parts);
  }

  /** The padded message is the standard one exactly when the 32-bit byte counter did not wrap. */
  lemma PaddingExact(m: Octets)
    requires |m| < 0x2000_0000_0000_0000
    ensures PadWith(m, CountedBits(m)) == Fips180.Pad(m) <==> |m| < TWO_32
  {
    WordSizes();
    BigEndianSame(CountedBits(m), 8 * |m|, 8);
    CounterExact(|m|);
    var head := m + [0x80] + ZeroOctets(ZeroCount(|m|));
    hide Pow256, BigEndian, ZeroOctets, ZeroCount;
    SameTail(head, BigEndian(CountedBits(m), 8), BigEndian(8 * |m|, 8));
  }

  lemma CounterExact(n: nat)
    requires n < 0x2000_0000_0000_0000
    ensures 8 * (n % TWO_32) % TWO_64 == 8 * n % TWO_64 <==> n < TWO_32
  {
  }

  lemma SameTail(head: Octets, a: Octets, b: Octets)
    requires |a| == |b|
    ensures head + a == head + b <==> a == b
  {
    if head + a == head + b {
      assert a == (head + a)[|head|..] && b == (head + b)[|head|..];
    }
  }

  /** On messages of less than 2^32 bytes the code computes SHA-1. */
  lemma CodeIsSha1(m: Octets)
    requires |m| < TWO_32
    ensures Sha1Code(m) == Fips180.Sha1(m)
  {
    PaddingExact(m);
    hide PadWith, Pad, Chain1, Digest1, CountedBits;
  }

  /** A message 2^32 bytes longer has the same length field. */
  lemma CountRepeats(m: Octets, longer: Octets)
    requires |longer| == |m| + TWO_32
    ensures CountedBits(longer) == CountedBits(m) && (|m| < TWO_32 ==> CountedBits(m) == 8 * |m|)
  {
  }

  // ---------- HMAC (section 2 of RFC 2104) ----------

  function Xor(s: Octets, b: bv8): (r: Octets)
    ensures |r| == |s| && forall i :: 0 <= i < |s| ==> r[i] == s[i] ^ b
  {
    seq<bv8>(|s|, i requires 0 <= i < |s| => s[i] ^ b)
  }

  /** The key filled up to one block; longer keys are hashed first. */
  function KeyBlock(hash: Octets -> Octets, key: Octets): Octets {
    var k := if |key| > 64 then hash(key) else key;
    if |k| > 64 then k[..64] else k + ZeroOctets(64 - |k|)
  }

  function Hmac(hash: Octets -> Octets, key: Octets, text: Octets): Octets {
    var k := KeyBlock(hash, key);
    hash(Xor(k, 0x5c) + hash(Xor(k, 0x36) + text))
  }

  /** The block for a key, byte by byte: the key, or the hash of a key longer than a block, then zeros. */
  lemma KeyBlockIs(hash: Octets -> Octets, key: Octets, i: nat)
    requires i < 64 && |hash(key)| <= 64
    ensures |KeyBlock(hash, key)| == 64
    ensures KeyBlock(hash, key)[i] == if |key| > 64 then (if i < |hash(key)| then hash(key)[i] else 0)
                                      else if i < |key| then key[i] else 0
  {
  }

  /** With a function that changes nothing in place of the hash the parts lie open: outer pad, inner pad, text. */
  lemma HmacParts(key: Octets, text: Octets, i: nat)
    requires |key| <= 64 && i < 64
    ensures var m := Hmac(x => x, key, text);
            && |m| == 128 + |text| && m[128..] == text
            && m[i] == (if i < |key| then key[i] else 0) ^ 0x5c
            && m[64 + i] == (if i < |key| then key[i] else 0) ^ 0x36
  {
    KeyBlockIs(x => x, key, i);
  }

  /** One byte of a shifted counter. */
  function ShiftedByte(n: nat, d: nat): bv8
    requires d > 0
  {
    (n / d % 256) as bv8
  }

  function LowByte(n: nat): bv8 {
    (n % 256) as bv8
  }

  function MoreBytes(n: nat): nat {
    (n + 1) % TWO_32
  }

  lemma Eight(m: Octets, b0: bv8, b1: bv8, b2: bv8, b3: bv8, b4: bv8, b5: bv8, b6: bv8, b7: bv8)
    ensures m + [b0] + [b1] + [b2] + [b3] + [b4] + [b5] + [b6] + [b7] == m + [b0, b1, b2, b3, b4, b5, b6, b7]
  {
  }

  method SwapAll(state: array<bv32>)
    requires state.Length == 5
    modifies state
    ensures forall k :: 0 <= k < 5 ==> state[k] == SwapBytes(old(state[k]))
  {
    hide *;
    var i := 0;
    while i < 5
      invariant i <= 5
      invariant forall k :: 0 <= k < i ==> state[k] == SwapBytes(old(state[k]))
      invariant forall k :: i <= k < 5 ==> state[k] == old(state[k])
    {
      state[i] := SwapBytes(state[i]);
      i := i + 1;
    }
  }

  /** The state seen as bytes: each word least significant byte first. */
  function StateBytes(s: seq<bv32>): (r: Octets)
    ensures |r| == 4 * |s|
  {
    if s == [] then [] else [Lane(s[0], 0), Lane(s[0], 1), Lane(s[0], 2), Lane(s[0], 3)] + StateBytes(s[1..])
  }

  lemma {:induction false} SwappedBytes(w: seq<bv32>, s: seq<bv32>)
    requires |w| == |s| && forall k :: 0 <= k < |w| ==> s[k] == SwapBytes(w[k])
    ensures StateBytes(s) == WordsBytes(w)
  {
    if w != [] {
      SwapReverses(w[0], 0);
      SwapReverses(w[0], 1);
      SwapReverses(w[0], 2);
      SwapReverses(w[0], 3);
      SwappedBytes(w[1..], s[1..]);
      hide SwapBytes, Lane;
    }
  }

  lemma PaddedWith(m: Octets)
    ensures ((m + [0x80]) + ZeroOctets(ZeroCount(|m|))) + BigEndian(8 * (|m| % TWO_32), 8) == PadWith(m, CountedBits(m))
  {
    hide BigEndian, ZeroOctets, ZeroCount;
  }

  lemma CodeDigest(m: Octets, w: seq<bv32>)
    requires |w| == 5 && RegsOf(w) == Chain1(Whole(PadWith(m, CountedBits(m))))
    ensures WordsBytes(w) == Sha1Code(m)
  {
    hide Chain1, WordsBytes, CountedBits;
    AllWhole(PadWith(m, CountedBits(m)));
    hide PadWith, Whole;
    var r := RegsOf(w);
    assert [r.a, r.b, r.c, r.d, r.e] == w;
  }
}
