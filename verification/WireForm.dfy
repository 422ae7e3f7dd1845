/** What lies where on the wire, byte by byte: objects, vectors, messages, containers and headers. */
module WireForms {
  import opened Arith
  import opened Bytes
  import opened Options
  import opened TlPrimitives
  import opened TlSchema
  import opened TlRoundTrip
  import opened Framing

  // ---------- words ----------

  /** At place `p` lie the low `k` bytes of `v`, low byte first. */
  predicate HasWord(s: seq<Byte>, p: nat, v: nat, k: nat) {
    p + k <= |s| && forall i :: 0 <= i < k ==> s[p + i] == v / Pow256(i) % 256
  }

  lemma WordAt(s: seq<Byte>, p: nat, v: nat, k: nat)
    requires p + k <= |s| && s[p..p + k] == Le(v, k)
    ensures HasWord(s, p, v, k) && FromLe(s[p..p + k]) == v % Pow256(k)
  {
    LeRoundTrip(v, k);
    hide FromLe, Pow256;
    forall i | 0 <= i < k
      ensures s[p + i] == v / Pow256(i) % 256
    {
      LeByte(v, k, i);
      assert s[p + i] == s[p..p + k][i];
    }
  }

  /** Numbers take four bytes, long ones and doubles eight. */
  lemma ItemWords(n: nat)
    ensures |ItemBytes(IInt, AWord(n))| == 4 && HasWord(ItemBytes(IInt, AWord(n)), 0, n, 4)
    ensures ItemBytes(IBool, AWord(n)) == ItemBytes(IInt, AWord(n))
    ensures |ItemBytes(ILong, AWord(n))| == 8 && HasWord(ItemBytes(ILong, AWord(n)), 0, n, 8)
    ensures ItemBytes(IDouble, AWord(n)) == ItemBytes(ILong, AWord(n))
  {
    var s, t := Le(n, 4), Le(n, 8);
    assert s[0..0 + 4] == s && t[0..0 + 8] == t;
    WordAt(s, 0, n, 4);
    WordAt(t, 0, n, 8);
    hide Le, HasWord;
  }

  // ---------- objects and vectors ----------

  /** An object starts with the id of its constructor. */
  lemma ObjectStarts(ctor: Ctor, acts: seq<Option<Actual>>)
    requires |acts| == |ctor.args|
    ensures HasWord(Emit(ctor, acts), 0, ctor.id, 4)
  {
    hide Le, Tail, FlagWords;
    var s := Emit(ctor, acts);
    assert s[0..0 + 4] == Le(ctor.id, 4);
    WordAt(s, 0, ctor.id, 4);
  }

  /** A vector starts with 0x1cb5c415, low byte first, and its length. */
  lemma VectorStarts(item: Item, acts: seq<Actual>)
    ensures var s := TypeBytes(Vector(item), AList(acts));
            |s| >= 8 && s[0] == 0x15 && s[1] == 0xc4 && s[2] == 0xb5 && s[3] == 0x1c && HasWord(s, 4, |acts|, 4)
  {
    LeFour(0x15, 0xc4, 0xb5, 0x1c);
    hide Le, ItemsBytes;
    var s := TypeBytes(Vector(item), AList(acts));
    assert s[..4] == Le(ID_VECTOR, 4) && s[4..4 + 4] == Le(|acts|, 4);
    assert s[0] == s[..4][0] && s[1] == s[..4][1] && s[2] == s[..4][2] && s[3] == s[..4][3];
    WordAt(s, 4, |acts|, 4);
  }

  /** A constructor with a flag word, a number, a string under bit 3, a sign under bit 0, and a vector. */
  function SampleCtor(): Ctor {
    Ctor(0x0a0b0c0d, [Flags, Param(One(IInt), 0, 0), Param(One(IBytes), 1, 3), Param(True, 1, 0),
                      Param(Vector(ILong), 0, 0)])
  }

  function SampleActuals(): seq<Option<Actual>> {
    [None, Some(AWord(5)), Some(ABlob([1, 2])), Some(APresent), Some(AList([AWord(7)]))]
  }

  lemma SampleWords()
    ensures Le(0x0a0b0c0d, 4) == [0x0d, 0x0c, 0x0b, 0x0a] && Le(9, 4) == [9, 0, 0, 0] && Le(5, 4) == [5, 0, 0, 0]
    ensures Le(ID_VECTOR, 4) == [0x15, 0xc4, 0xb5, 0x1c] && Le(1, 4) == [1, 0, 0, 0]
    ensures Le(7, 8) == [7, 0, 0, 0, 0, 0, 0, 0]
  {
    LeFour(0x0d, 0x0c, 0x0b, 0x0a);
    LeFour(9, 0, 0, 0);
    LeFour(5, 0, 0, 0);
    LeFour(0x15, 0xc4, 0xb5, 0x1c);
    LeFour(1, 0, 0, 0);
    LeSmall(7);
    hide Le;
  }

  /** A small number in eight bytes. */
  lemma LeSmall(v: nat)
    requires v < 256
    ensures Le(v, 8) == [v, 0, 0, 0, 0, 0, 0, 0]
  {
    assert Le(0, 2) == [0, 0];
    assert Le(0, 4) == [0, 0, 0, 0];
    assert Le(0, 6) == [0, 0, 0, 0, 0, 0];
  }

  lemma SampleFlags()
    ensures FlagWord(SampleCtor().args, SampleActuals(), 1, 5) == 9
  {
    var a, x := SampleCtor().args, SampleActuals();
    assert FlagWord(a, x, 1, 2) == 0;
    assert SetBit(0, 3) == 8 && SetBit(8, 0) == 9;
    hide SetBit;
    assert FlagWord(a, x, 1, 3) == 8;
    assert FlagWord(a, x, 1, 4) == 9;
  }

  lemma SamplePieces()
    ensures var (a, x) := (SampleCtor().args, SampleActuals());
            && Piece(a, x, [9], 0) == [9, 0, 0, 0]
            && Piece(a, x, [9], 1) == [5, 0, 0, 0]
            && Piece(a, x, [9], 2) == [2, 1, 2, 0]
            && Piece(a, x, [9], 3) == []
            && Piece(a, x, [9], 4) == [0x15, 0xc4, 0xb5, 0x1c, 1, 0, 0, 0, 7, 0, 0, 0, 0, 0, 0, 0]
  {
    SampleWords();
    hide Le;
    var a, x := SampleCtor().args, SampleActuals();
    assert FlagCount(a, 0) == 0;
    assert PackBytes([1, 2]) == [2, 1, 2, 0] by {
      assert Zeros(1) == [0];
    }
    var one: seq<Actual> := [AWord(7)];
    assert ItemsBytes(ILong, one) == ItemBytes(ILong, AWord(7)) by {
      assert one[1..] == [];
    }
  }

  /** These are its bytes: id, flags, and the arguments in order, absent signs taking none. */
  lemma SampleObject()
    ensures Emit(SampleCtor(), SampleActuals())
         == [0x0d, 0x0c, 0x0b, 0x0a, 9, 0, 0, 0, 5, 0, 0, 0, 2, 1, 2, 0, 0x15, 0xc4, 0xb5, 0x1c,
             1, 0, 0, 0, 7, 0, 0, 0, 0, 0, 0, 0]
  {
    var c, x := SampleCtor(), SampleActuals();
    SampleWords();
    SampleFlagWords();
    SamplePieces();
    SampleCounts();
    EmitIs(c, x);
    hide *;
    TailSteps(c.args, x, [9]);
    SampleJoined();
  }

  lemma SampleJoined()
    ensures [0x0d, 0x0c, 0x0b, 0x0a] + ([9, 0, 0, 0] + ([5, 0, 0, 0] + ([2, 1, 2, 0] + ([]
            + ([0x15, 0xc4, 0xb5, 0x1c, 1, 0, 0, 0, 7, 0, 0, 0, 0, 0, 0, 0] + [])))))
         == [0x0d, 0x0c, 0x0b, 0x0a, 9, 0, 0, 0, 5, 0, 0, 0, 2, 1, 2, 0, 0x15, 0xc4, 0xb5, 0x1c,
             1, 0, 0, 0, 7, 0, 0, 0, 0, 0, 0, 0]
  {
    var v := [0x15, 0xc4, 0xb5, 0x1c, 1, 0, 0, 0, 7, 0, 0, 0, 0, 0, 0, 0];
    assert [] + (v + []) == v;
  }

  lemma EmitIs(ctor: Ctor, acts: seq<Option<Actual>>)
    requires |acts| == |ctor.args|
    ensures Emit(ctor, acts)
         == Le(ctor.id, 4) + Tail(ctor.args, acts, FlagWords(ctor.args, acts, FlagCount(ctor.args, |ctor.args|)), 0)
  {
    hide Tail, FlagWords, FlagCount, Le;
  }

  lemma SampleFlagWords()
    ensures FlagCount(SampleCtor().args, 5) == 1 && FlagWords(SampleCtor().args, SampleActuals(), 1) == [9]
  {
    var a := SampleCtor().args;
    assert FlagCount(a, 1) == 1;
    assert FlagCount(a, 3) == 1;
    SampleFlags();
    hide FlagCount, FlagWord, SampleActuals;
  }

  lemma SampleCounts()
    ensures |SampleCtor().args| == |SampleActuals()| == 5 && SampleCtor().id == 0x0a0b0c0d
  {
  }

  lemma TailSteps(args: seq<Arg>, acts: seq<Option<Actual>>, fv: seq<nat>)
    requires |args| == |acts| == 5
    ensures Tail(args, acts, fv, 0)
         == Piece(args, acts, fv, 0) + (Piece(args, acts, fv, 1) + (Piece(args, acts, fv, 2)
            + (Piece(args, acts, fv, 3) + (Piece(args, acts, fv, 4) + []))))
  {
    hide Piece;
    assert Tail(args, acts, fv, 4) == Piece(args, acts, fv, 4) + Tail(args, acts, fv, 5);
    assert Tail(args, acts, fv, 2) == Piece(args, acts, fv, 2) + Tail(args, acts, fv, 3);
  }

  // ---------- what is read when nothing fits ----------

  predicate NoId(table: seq<Ctor>, id: nat) {
    forall c :: c in table ==> c.id != id
  }

  /** The id 0 and unknown ids give a null object and leave the input as it was. */
  lemma UnknownIsNull(table: seq<Ctor>, s: seq<Byte>)
    ensures |s| < 4 ==> DecodeObject(table, s) == Overrun
    ensures |s| >= 4 && FromLe(s[..4]) == 0 ==> DecodeObject(table, s) == Got(Null, s)
    ensures |s| >= 4 && NoId(table, FromLe(s[..4])) ==> DecodeObject(table, s) == Got(Null, s)
  {
    hide DecodeArgs;
    if |s| >= 4 {
      LookupFinds(table, FromLe(s[..4]));
    }
  }

  /** A length above 100, or negative as a C integer, ends the reading of the object there. */
  lemma LongVectorStops(table: seq<Ctor>, args: seq<Arg>, i: nat, flags: seq<nat>, item: Item, n: nat, s: seq<Byte>)
    requires i < |args| && args[i] == Param(Vector(item), 0, 0) && 100 < n < TWO_32 && n != ID_VECTOR
    ensures DecodeArgs(table, args, i, flags, Le(n, 4) + s)
         == Got([Filled(BadLength)] + Absents(|args| - i - 1), s)
    ensures AllAbsent(Absents(|args| - i - 1))
  {
    CountedVector(table, item, n, s);
    AbsentsAre(|args| - i - 1);
    hide Le, DecodeItems;
  }

  predicate AllAbsent(fields: seq<Field>) {
    forall f :: f in fields ==> f == Absent
  }

  lemma {:induction false} AbsentsAre(k: nat)
    ensures AllAbsent(Absents(k))
  {
    if k > 0 {
      AbsentsAre(k - 1);
    }
  }

  // ---------- messages, containers and headers ----------

  /** A message of a container: id, number, length, body. */
  lemma MessageForm(id: nat, seqno: nat, body: seq<Byte>)
    ensures var s := MessageBytes(id, seqno, body);
            && |s| == 16 + |body| && s[16..] == body
            && HasWord(s, 0, id, 8) && HasWord(s, 8, seqno, 4) && HasWord(s, 12, |body|, 4)
  {
    hide Le;
    var s := MessageBytes(id, seqno, body);
    assert s[0..0 + 8] == Le(id, 8) && s[8..8 + 4] == Le(seqno, 4) && s[12..12 + 4] == Le(|body|, 4);
    WordAt(s, 0, id, 8);
    WordAt(s, 8, seqno, 4);
    WordAt(s, 12, |body|, 4);
    hide HasWord;
  }

  /** The plaintext of an encrypted message: salt, session, id, number, length, body, padding. */
  lemma FrameForm(salt: seq<Byte>, ssid: seq<Byte>, id: nat, seqno: nat, body: seq<Byte>, pad: seq<Byte>)
    requires |salt| == 8 && |ssid| == 8
    ensures var s := Frame(salt, ssid, id, seqno, body, pad);
            && |s| == 32 + |body| + |pad| && s[..8] == salt && s[8..16] == ssid
            && HasWord(s, 16, id, 8) && HasWord(s, 24, seqno, 4) && HasWord(s, 28, |body|, 4)
            && s[32..32 + |body|] == body && s[32 + |body|..] == pad
  {
    hide Le;
    var s := Frame(salt, ssid, id, seqno, body, pad);
    FrameParts(salt, ssid, Le(id, 8), Le(seqno, 4), Le(|body|, 4), body, pad);
    assert s[24..24 + 4] == Le(seqno, 4);
    WordAt(s, 16, id, 8);
    WordAt(s, 24, seqno, 4);
    WordAt(s, 28, |body|, 4);
    hide HasWord;
  }

  /** A message before the key exchange: eight zeros, id, length, body. */
  lemma PlainForm(id: nat, body: seq<Byte>)
    ensures var s := PlainFrame(id, body);
            && |s| == 20 + |body| && s[20..] == body
            && HasWord(s, 0, 0, 8) && HasWord(s, 8, id, 8) && HasWord(s, 16, |body|, 4)
    ensures var s := PlainFrame(id, body);
            && FromLe(s[..8]) == 0
            && (id < TWO_64 ==> FromLe(s[8..16]) == id)
            && (|body| < TWO_32 ==> FromLe(s[16..20]) == |body|)
  {
    WordSizes();
    hide Le, Pow256, FromLe;
    var s := PlainFrame(id, body);
    assert s[0..0 + 8] == s[..8] == Le(0, 8) && s[8..8 + 8] == Le(id, 8) && s[16..16 + 4] == Le(|body|, 4);
    WordAt(s, 0, 0, 8);
    WordAt(s, 8, id, 8);
    WordAt(s, 16, |body|, 4);
    hide HasWord;
  }

  /** A container: 0x73f1f8dc, low byte first, the number of messages, the messages. */
  lemma ContainerForm(ms: seq<Value>)
    requires forall m :: m in ms ==> m.Message?
    ensures var s := ContainerBytes(ms);
            && |s| >= 8 && s[0] == 0xdc && s[1] == 0xf8 && s[2] == 0xf1 && s[3] == 0x73
            && HasWord(s, 4, |ms|, 4) && s[8..] == Concat(ms)
  {
    LeFour(0xdc, 0xf8, 0xf1, 0x73);
    hide Le, Concat;
    var s := ContainerBytes(ms);
    assert s[..4] == Le(ID_CONTAINER, 4) && s[4..4 + 4] == Le(|ms|, 4);
    assert s[0] == s[..4][0] && s[1] == s[..4][1] && s[2] == s[..4][2] && s[3] == s[..4][3];
    WordAt(s, 4, |ms|, 4);
  }

  /** The messages that go with a query: the query itself, the acknowledgement, one for each drop. */
  lemma BundleForm(body: seq<Byte>, acks: seq<nat>, drops: seq<nat>, queryTime: nat, ackTime: nat, times: seq<nat>,
                   ns: seq<nat>, i: nat)
    requires |times| == |drops| && |ns| == 2 + |drops|
    ensures var ms := Bundle(body, acks, drops, queryTime, ackTime, times, ns);
            && |ms| == 2 + |drops|
            && ms[0] == Message(queryTime % TWO_64, ns[0] % TWO_32, body)
            && ms[1] == Message(ackTime % TWO_64, ns[1] % TWO_32, AckBytes(acks))
            && (i < |drops| ==> ms[2 + i] == Message(times[i] % TWO_64, ns[2 + i] % TWO_32, DropBytes(drops[i])))
  {
    hide AckBytes, DropBytes;
  }

  /** A container starts with the message of the query. */
  lemma {:induction false} ConcatStarts(ms: seq<Value>)
    requires ms != [] && forall m :: m in ms ==> m.Message?
    ensures var first := MessageBytes(ms[0].msgId, ms[0].seqno, ms[0].body);
            first <= Concat(ms) && Concat(ms)[|first|..] == Concat(ms[1..])
  {
    hide MessageBytes;
  }

  /** A request to drop an answer: 0x58e4a740, low byte first, and the id. */
  lemma DropForm(id: nat)
    ensures var s := DropBytes(id);
            |s| == 12 && s[..4] == [0x40, 0xa7, 0xe4, 0x58] && HasWord(s, 4, id, 8)
  {
    LeFour(0x40, 0xa7, 0xe4, 0x58);
    EmitOne(ID_DROP, One(ILong), AWord(id));
    hide Le, Emit;
    var s := DropBytes(id);
    assert s[4..4 + 8] == Le(id, 8);
    WordAt(s, 4, id, 8);
    hide HasWord;
  }

  lemma DropOfOne()
    ensures DropBytes(1) == [0x40, 0xa7, 0xe4, 0x58, 1, 0, 0, 0, 0, 0, 0, 0]
  {
    LeFour(0x40, 0xa7, 0xe4, 0x58);
    LeSmall(1);
    EmitOne(ID_DROP, One(ILong), AWord(1));
    hide Le, Emit;
  }

  /** An acknowledgement: 0x62d6b459, low byte first, and the vector of ids, eight bytes each. */
  lemma AckForm(ids: seq<nat>)
    ensures var s := AckBytes(ids);
            && |s| == 12 + 8 * |ids| && s[..4] == [0x59, 0xb4, 0xd6, 0x62] && s[4..8] == [0x15, 0xc4, 0xb5, 0x1c]
            && HasWord(s, 8, |ids|, 4)
            && forall i :: 0 <= i < |ids| ==> HasWord(s, 12 + 8 * i, ids[i], 8)
  {
    AckWord();
    SampleWords();
    hide *;
    AckIs(ids);
    var s, body := AckBytes(ids), ItemsBytes(ILong, Longs(ids));
    ThreeWords(Le(ID_ACK, 4), Le(ID_VECTOR, 4), Le(|ids|, 4), body, s);
    WordAt(s, 8, |ids|, 4);
    LongsAt(ids, 0);
    forall i | 0 <= i < |ids|
      ensures HasWord(s, 12 + 8 * i, ids[i], 8)
    {
      LongAt(s, ids, i);
    }
  }

  lemma AckWord()
    ensures Le(ID_ACK, 4) == [0x59, 0xb4, 0xd6, 0x62]
  {
    LeFour(0x59, 0xb4, 0xd6, 0x62);
    hide Le;
  }

  lemma AckIs(ids: seq<nat>)
    ensures AckBytes(ids) == Le(ID_ACK, 4) + (Le(ID_VECTOR, 4) + Le(|ids|, 4) + ItemsBytes(ILong, Longs(ids)))
  {
    EmitOne(ID_ACK, Vector(ILong), AList(Longs(ids)));
    VectorIs(ILong, Longs(ids));
    hide Le, Emit, ItemsBytes, TypeBytes;
  }

  lemma VectorIs(item: Item, acts: seq<Actual>)
    ensures TypeBytes(Vector(item), AList(acts)) == Le(ID_VECTOR, 4) + Le(|acts|, 4) + ItemsBytes(item, acts)
  {
    hide Le, ItemsBytes;
  }

  lemma ThreeWords(a: seq<Byte>, b: seq<Byte>, c: seq<Byte>, rest: seq<Byte>, s: seq<Byte>)
    requires |a| == |b| == |c| == 4 && s == a + (b + c + rest)
    ensures |s| == 12 + |rest| && s[..4] == a && s[4..8] == b && s[8..12] == c && s[12..] == rest
  {
  }

  lemma LongAt(s: seq<Byte>, ids: seq<nat>, i: nat)
    requires i < |ids| && |s| == 12 + 8 * |ids| && s[12..] == ItemsBytes(ILong, Longs(ids))
    ensures HasWord(s, 12 + 8 * i, ids[i], 8)
  {
    hide *;
    LongsAt(ids, i);
    assert s[12 + 8 * i..12 + 8 * i + 8] == s[12..][8 * i..8 * i + 8];
    WordAt(s, 12 + 8 * i, ids[i], 8);
  }

  /** The ids of a vector one after the other. */
  lemma {:induction false} LongsAt(ids: seq<nat>, i: nat)
    ensures |ItemsBytes(ILong, Longs(ids))| == 8 * |ids|
    ensures i < |ids| ==> ItemsBytes(ILong, Longs(ids))[8 * i..8 * i + 8] == Le(ids[i], 8)
  {
    hide Le;
    if ids != [] {
      var s, t := ItemsBytes(ILong, Longs(ids)), ItemsBytes(ILong, Longs(ids[1..]));
      LongsAt(ids[1..], if i > 0 then i - 1 else 0);
      assert Longs(ids)[1..] == Longs(ids[1..]);
      assert s == Le(ids[0], 8) + t;
      if 0 < i < |ids| {
        assert s[8 * i..8 * i + 8] == t[8 * (i - 1)..8 * (i - 1) + 8];
      }
    }
  }
}
