/** Byte strings of the Type Language: `serialize_bytes`, `serialize_string`, `deserialize_bytes`. */
module TlPrimitives {
  import opened Arith
  import opened Bytes

  /** Fill bytes up to the next multiple of four. */
  function Pad(n: nat): nat {
    (4 - n % 4) % 4
  }

  /** A byte string on the wire: short or long length prefix, the bytes, zero padding. */
  function PackBytes(b: seq<Byte>): seq<Byte> {
    if |b| <= 253 then [|b|] + b + Zeros(Pad(|b| + 1))
    else [0xfe] + Le(|b|, 3) + b + Zeros(Pad(4 + |b|))
  }

  /** Reading runs past the end of the buffer, or gives a value and what is left. */
  datatype Read<+T> = Overrun | Got(value: T, rest: seq<Byte>)

  /** Drops `n` bytes. */
  function Take(s: seq<Byte>, n: nat): Read<seq<Byte>> {
    if n > |s| then Overrun else Got(s[..n], s[n..])
  }

  function TakeWord(s: seq<Byte>, n: nat): Read<nat> {
    if n > |s| then Overrun else Got(FromLe(s[..n]), s[n..])
  }

  /** `deserialize_bytes`. */
  function UnpackBytes(s: seq<Byte>): (r: Read<seq<Byte>>)
    ensures r.Got? ==> |r.rest| < |s|
  {
    if |s| < 4 then Overrun
    else
      var short := s[0] <= 253;
      var len := if short then s[0] else FromLe(s[1..4]);
      var body := if short then s[1..] else s[4..];
      var pad := Pad(len + (if short then 1 else 0));
      if len + pad > |body| then Overrun else Got(body[..len], body[len + pad..])
  }

  /** The other layers see words of four bytes only. */
  lemma PackedAligned(b: seq<Byte>)
    ensures |PackBytes(b)| % 4 == 0 && |PackBytes(b)| >= 4
  {
    hide Pad, Zeros, Le;
    PadAligns(if |b| <= 253 then |b| + 1 else 4 + |b|);
  }

  lemma PadAligns(n: nat)
    ensures (n + Pad(n)) % 4 == 0 && Pad(n) < 4
  {
  }

  lemma Regroup<T>(a: seq<T>, b: seq<T>, z: seq<T>, s: seq<T>)
    ensures (a + b + z) + s == a + (b + z + s)
    ensures (a + (b + z + s))[|a|..] == b + z + s
    ensures (b + z + s)[..|b|] == b && (b + z + s)[|b| + |z|..] == s
  {
  }

  lemma UnpackShort(b: seq<Byte>, s: seq<Byte>)
    requires |b| <= 253
    ensures UnpackBytes(PackBytes(b) + s) == Got(b, s)
  {
    PackedAligned(b);
    var z := Zeros(Pad(|b| + 1));
    hide Zeros, Pad, FromLe;
    Regroup([|b|], b, z, s);
    var w := PackBytes(b) + s;
    assert w == [|b|] + (b + z + s);
    assert w[0] == |b| && w[1..] == b + z + s;
  }

  lemma PadSkipsPrefix(n: nat)
    ensures Pad(4 + n) == Pad(n)
  {
  }

  lemma LongForm(b: seq<Byte>)
    requires |b| > 253
    ensures PackBytes(b) == [0xfe] + Le(|b|, 3) + b + Zeros(Pad(4 + |b|))
  {
  }

  lemma LongParts(l: seq<Byte>, b: seq<Byte>, z: seq<Byte>, s: seq<Byte>, w: seq<Byte>)
    requires |l| == 3 && w == ([0xfe] + l + b + z) + s
    ensures |w| >= 4 && w[0] == 0xfe && w[1..4] == l && w[4..] == b + z + s
  {
    var a := [0xfe] + l;
    Regroup(a, b, z, s);
    assert w[..4] == a;
    assert w[1..4] == w[..4][1..];
  }

  lemma LongBody(b: seq<Byte>, s: seq<Byte>)
    requires |b| > 253
    ensures var w := PackBytes(b) + s;
            |w| >= 4 && w[0] == 0xfe && w[1..4] == Le(|b|, 3) && w[4..] == b + Zeros(Pad(4 + |b|)) + s
  {
    hide *;
    var w, l, z := PackBytes(b) + s, Le(|b|, 3), Zeros(Pad(4 + |b|));
    LongForm(b);
    LongParts(l, b, z, s, w);
  }

  /** A byte string comes back, with the rest untouched, exactly when its length fits in three bytes. */
  lemma BytesRoundTrip(b: seq<Byte>, s: seq<Byte>)
    ensures UnpackBytes(PackBytes(b) + s) == Got(b, s) <==> |b| < 0x100_0000
  {
    if |b| <= 253 {
      UnpackShort(b, s);
    } else {
      WordSizes();
      LongBody(b, s);
      LeRoundTrip(|b|, 3);
      Regroup([0xfe] + Le(|b|, 3), b, Zeros(Pad(4 + |b|)), s);
      PadSkipsPrefix(|b|);
      hide Zeros, Pad, FromLe, Le, PackBytes;
      if |b| < 0x100_0000 {
        ModUnique(|b|, 0, 0x100_0000, |b|);
      }
    }
  }

  /** Where the bytes of a packed string start. */
  function Prefix(n: nat): nat {
    if n <= 253 then 1 else 4
  }

  /**
   The packed string byte by byte: the length in one byte, or 0xfe and the length in three, low byte first; the
   bytes; then zeros, at most three, up to a multiple of four.
   */
  lemma PackedForm(b: seq<Byte>)
    ensures var (s, n) := (PackBytes(b), |b|);
            && |s| % 4 == 0 && Prefix(n) + n <= |s| < Prefix(n) + n + 4
            && s[Prefix(n)..Prefix(n) + n] == b
            && (forall i :: Prefix(n) + n <= i < |s| ==> s[i] == 0)
            && (n <= 253 ==> s[0] == n)
            && (n > 253 ==> s[0] == 0xfe && s[1] == n % 256 && s[2] == n / 0x100 % 256 && s[3] == n / 0x1_0000 % 256)
  {
    PackedAligned(b);
    ZerosAreZero(Pad(Prefix(|b|) + |b|));
    assert Pow256(0) == 1 && Pow256(1) == 256 && Pow256(2) == 0x1_0000;
    LeByte(|b|, 3, 0);
    LeByte(|b|, 3, 1);
    LeByte(|b|, 3, 2);
    hide Le, Zeros, Pow256;
  }

  lemma {:induction false} ZerosAreZero(k: nat)
    ensures forall i :: 0 <= i < k ==> Zeros(k)[i] == 0
  {
    if k > 0 {
      ZerosAreZero(k - 1);
    }
  }

  /** A number in three bytes, low byte first. */
  function LongLength(a: nat, b: nat, c: nat): nat {
    a + 0x100 * b + 0x1_0000 * c
  }

  /** What is read: the length, low byte first, that many bytes, and what fills up to a multiple of four. */
  lemma UnpackedForm(s: seq<Byte>) returns (h: nat, n: nat, k: nat)
    requires |s| >= 4
    ensures if s[0] <= 253 then h == 1 && n == s[0] else h == 4 && n == LongLength(s[1], s[2], s[3])
    ensures h + n <= k < h + n + 4 && k % 4 == 0
    ensures UnpackBytes(s) == if k <= |s| then Got(s[h..h + n], s[k..]) else Overrun
  {
    var q: nat := 1;
    if s[0] <= 253 {
      h, n := 1, s[0];
      ShortForm(s);
    } else {
      h, n, q := 4, LongLength(s[1], s[2], s[3]), 0;
      ThreeBytes(s[1..4]);
      LongFormRead(s);
    }
    PadAligns(n + q);
    hide *;
    k := h + n + Pad(n + q);
    FourMore(n, h, q, Pad(n + q));
  }

  lemma ShortForm(s: seq<Byte>)
    requires |s| >= 4 && s[0] <= 253
    ensures var (n, k) := (s[0], 1 + s[0] + Pad(s[0] + 1));
            UnpackBytes(s) == if k <= |s| then Got(s[1..1 + n], s[k..]) else Overrun
  {
    hide Pad, FromLe;
    var n, k := s[0], 1 + s[0] + Pad(s[0] + 1);
    if k <= |s| {
      assert s[1..][..n] == s[1..1 + n] && s[1..][n + Pad(n + 1)..] == s[k..];
    }
  }

  lemma LongFormRead(s: seq<Byte>)
    requires |s| >= 4 && s[0] > 253
    ensures var n := FromLe(s[1..4]);
            var k := 4 + n + Pad(n);
            UnpackBytes(s) == if k <= |s| then Got(s[4..4 + n], s[k..]) else Overrun
  {
    hide Pad, FromLe;
    var n := FromLe(s[1..4]);
    var k := 4 + n + Pad(n);
    if k <= |s| {
      assert s[4..][..n] == s[4..4 + n] && s[4..][n + Pad(n)..] == s[k..];
    }
  }

  lemma FourMore(n: nat, h: nat, q: nat, p: nat)
    requires (h == 1 && q == 1) || (h == 4 && q == 0)
    requires (n + q + p) % 4 == 0
    ensures (h + n + p) % 4 == 0
  {
  }

  lemma ThreeBytes(t: seq<Byte>)
    requires |t| == 3
    ensures FromLe(t) == LongLength(t[0], t[1], t[2])
  {
    var u, v := t[1..], t[2..];
    assert u[1..] == v && v[1..] == [] && u[0] == t[1] && v[0] == t[2];
    assert FromLe(v) == t[2] + 256 * FromLe([]);
    assert FromLe(u) == t[1] + 256 * FromLe(v);
  }

  /** `serialize_bytes` (`serialize_str` is the same over a buffer). */
  method SerializeBytes(bytes: seq<Byte>) returns (s: seq<Byte>)
    ensures s == PackBytes(bytes)
    ensures var (p, n) := (Prefix(|bytes|), |bytes|);
            && |s| % 4 == 0 && p + n <= |s| < p + n + 4 && s[p..p + n] == bytes
            && (forall i :: p + n <= i < |s| ==> s[i] == 0)
            && (n <= 253 ==> s[0] == n)
            && (n > 253 ==> s[0] == 0xfe && s[1] == n % 256 && s[2] == n / 0x100 % 256 && s[3] == n / 0x1_0000 % 256)
  {
    PackedForm(bytes);
    hide Prefix;
    var size := |bytes|;
    if size <= 253 {
      s := [size];
      s := s + bytes;
      var pad := (4 - (|s| % 4)) % 4;
      var p := Zeros(pad);
      s := s + p;
    } else {
      s := [0xfe];
      var len := Le(size, 3);
      s := s + len;
      s := s + bytes;
      var pad := (4 - (|s| % 4)) % 4;
      if pad != 0 {
        var p := Zeros(pad);
        s := s + p;
      }
    }
  }

  /** `serialize_string`. */
  method SerializeString(text: seq<Byte>) returns (s: seq<Byte>)
    ensures s == PackBytes(CString(text))
  {
    s := SerializeBytes(CString(text));
  }

  /** The input buffer of a deserialiser: every reader moves past what it read. */
  class Reader {
    var data: seq<Byte>

    constructor (data: seq<Byte>)
      ensures this.data == data
    {
      this.data := data;
    }

    /** `deserialize_ui32` (n = 4) and `deserialize_ui64` (n = 8). */
    method Word(n: nat) returns (ok: bool, c: nat)
      modifies this
      ensures ok <==> TakeWord(old(data), n).Got?
      ensures ok ==> TakeWord(old(data), n) == Got(c, data)
      ensures !ok ==> data == old(data)
    {
      if n > |data| {
        return false, 0;
      }
      c := FromLe(data[..n]);
      data := data[n..];
      ok := true;
    }

    /** `deserialize_buf`. */
    method Block(n: nat) returns (ok: bool, b: seq<Byte>)
      modifies this
      ensures ok <==> Take(old(data), n).Got?
      ensures ok ==> Take(old(data), n) == Got(b, data)
      ensures !ok ==> data == old(data)
    {
      if n > |data| {
        return false, [];
      }
      b := data[..n];
      data := data[n..];
      ok := true;
    }

    /** `deserialize_bytes`. */
    method Bytes() returns (ok: bool, b: seq<Byte>)
      modifies this
      ensures ok <==> UnpackBytes(old(data)).Got?
      ensures ok ==> UnpackBytes(old(data)) == Got(b, data)
    {
      if |data| < 4 {
        return false, [];
      }
      var first := data[..4];
      var offset := 0;
      var len := 0;
      if first[0] <= 253 {
        len := first[0];
        data := data[1..];
        offset := 1;
      } else {
        len := FromLe(first[1..4]);
        assert first[1..4] == data[1..4];
        data := data[4..];
      }
      var pad := (4 - ((len + offset) % 4)) % 4;
      if len + pad > |data| {
        return false, [];
      }
      b := data[..len];
      data := data[len..];
      if pad != 0 {
        data := data[pad..];
      }
      ok := true;
    }
  }
}
