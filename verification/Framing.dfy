/** What the message layer puts on the wire (tg/header.c, tg/ack.c): messages, containers, headers and padding. */
module Framing {
  import opened Arith
  import opened Bytes
  import opened Options
  import opened TlPrimitives
  import opened TlSchema
  import opened TlRoundTrip

  const ID_CONTAINER: nat := 0x73f1f8dc
  const ID_ACK: nat := 0x62d6b459
  const ID_DROP: nat := 0x58e4a740

  // ---------- what goes on the wire ----------

  /** `tl_msgs_ack` and `tl_rpc_drop_answer`, as the generator makes them. */
  const ACK: Ctor := Ctor(ID_ACK, [Param(Vector(ILong), 0, 0)])
  const DROP: Ctor := Ctor(ID_DROP, [Param(One(ILong), 0, 0)])
  const CONTAINER: Ctor := Ctor(ID_CONTAINER, [Param(Vector(IMessage), 0, 0)])

  function Longs(ids: seq<nat>): (a: seq<Actual>)
    ensures |a| == |ids|
  {
    seq<Actual>(|ids|, i requires 0 <= i < |ids| => AWord(ids[i]))
  }

  function AckBytes(ids: seq<nat>): seq<Byte> {
    Emit(ACK, [Some(AList(Longs(ids)))])
  }

  function DropBytes(id: nat): seq<Byte> {
    Emit(DROP, [Some(AWord(id))])
  }

  /** A message as `tg_mtp_message` makes it. */
  function Mtp(id: nat, seqno: nat, body: seq<Byte>): (m: Value)
    ensures m.Message?
  {
    Message(id % TWO_64, seqno % TWO_32, body)
  }

  function MtpBytes(m: Value): seq<Byte>
    requires m.Message?
  {
    MessageBytes(m.msgId, m.seqno, m.body)
  }

  /** One message for each answer to drop, with the numbers `ns`. */
  function DropMessages(ids: seq<nat>, times: seq<nat>, ns: seq<nat>): (ms: seq<Value>)
    requires |times| == |ns| == |ids|
    ensures |ms| == |ids|
    ensures forall i :: 0 <= i < |ms| ==> ms[i].Message? && ms[i] == Mtp(times[i], ns[i], DropBytes(ids[i]))
  {
    seq<Value>(|ids|, i requires 0 <= i < |ids| => Mtp(times[i], ns[i], DropBytes(ids[i])))
  }

  /** The messages of the container that carries a query with the pending acknowledgements and drops, numbered `ns`. */
  function Bundle(body: seq<Byte>, acks: seq<nat>, drops: seq<nat>, queryTime: nat, ackTime: nat, times: seq<nat>,
                  ns: seq<nat>): (ms: seq<Value>)
    requires |times| == |drops| && |ns| == 2 + |drops|
    ensures |ms| == 2 + |drops| && forall m :: m in ms ==> m.Message?
  {
    [Mtp(queryTime, ns[0], body), Mtp(ackTime, ns[1], AckBytes(acks))] + DropMessages(drops, times, ns[2..])
  }

  function Concat(ms: seq<Value>): seq<Byte>
    requires forall m :: m in ms ==> m.Message?
  {
    if ms == [] then [] else MtpBytes(ms[0]) + Concat(ms[1..])
  }

  /** The body of a container: no vector id before the count. */
  function ContainerBytes(ms: seq<Value>): seq<Byte>
    requires forall m :: m in ms ==> m.Message?
  {
    Le(ID_CONTAINER, 4) + Le(|ms|, 4) + Concat(ms)
  }

  // ---------- a container parses back ----------

  lemma {:induction false} ConcatIsItems(table: seq<Ctor>, ms: seq<Value>)
    requires forall m :: m in ms ==> m.Message?
    ensures Concat(ms) == ItemsBytes(IMessage, ItemActuals(table, ms))
  {
    if ms != [] {
      ConcatIsItems(table, ms[1..]);
      ItemsUnfold(table, IMessage, ms);
      assert ItemBytes(IMessage, ItemActual(table, ms[0])) == MtpBytes(ms[0]);
      hide ItemsBytes, ItemActuals, MessageBytes, ItemBytes, ItemActual;
    }
  }

  /** A list read back never has more than 100 elements. */
  lemma VectorLimit(table: seq<Ctor>, item: Item, s: seq<Byte>)
    ensures DecodeType(table, Vector(item), s).Got? && DecodeType(table, Vector(item), s).value.List? ==>
              |DecodeType(table, Vector(item), s).value.items| <= 100
  {
    hide DecodeItems;
  }

  lemma CountedVector(table: seq<Ctor>, item: Item, n: nat, s: seq<Byte>)
    requires n < TWO_32 && n != ID_VECTOR
    ensures DecodeType(table, Vector(item), Le(n, 4) + s) == DecodeVector(table, item, n, s)
  {
    HeaderRoundTrip(n, [], s);
    assert (Le(n, 4) + []) + s == Le(n, 4) + s;
    hide Le, FromLe, DecodeVector;
  }

  /** The messages of a container come back exactly when there are at most 100. */
  lemma MessagesComeBack(table: seq<Ctor>, ms: seq<Value>, s: seq<Byte>)
    requires |ms| < TWO_32 && forall m :: m in ms ==> m.Message? && ItemOk(table, IMessage, m)
    ensures DecodeType(table, Vector(IMessage), Le(|ms|, 4) + (Concat(ms) + s)) == Got(List(ms), s) <==> |ms| <= 100
  {
    VectorLimit(table, IMessage, Le(|ms|, 4) + (Concat(ms) + s));
    if |ms| <= 100 {
      CountedVector(table, IMessage, |ms|, Concat(ms) + s);
      ConcatIsItems(table, ms);
      assert forall i :: 0 <= i < |ms| ==> ItemOk(table, IMessage, ms[i]);
      ItemsRoundTrip(table, IMessage, ms, s);
      hide Concat, ItemsBytes, DecodeItems, DecodeType, Le;
    }
  }

  /** A constructor with one mandatory argument is decoded exactly as its argument is. */
  lemma OneArgument(table: seq<Ctor>, ty: Type, s: seq<Byte>, v: Value, rest: seq<Byte>)
    requires !v.BadLength?
    ensures DecodeArgs(table, [Param(ty, 0, 0)], 0, [], s) == Got([Filled(v)], rest)
       <==> DecodeType(table, ty, s) == Got(v, rest)
  {
    hide DecodeType;
    var args, r := [Param(ty, 0, 0)], DecodeType(table, ty, s);
    assert args[0] == Param(ty, 0, 0) && Wanted([], 0, 0);
    if r.Got? {
      var f := [Filled(r.value)];
      assert DecodeArgs(table, args, 1, [], r.rest) == Got([], r.rest);
      assert f + [] == f && Absents(0) == [];
      assert DecodeArgs(table, args, 0, [], s) == Got(f, r.rest);
      assert f[0] == Filled(r.value);
      assert f == [Filled(v)] ==> f[0] == Filled(v);
    }
  }

  /**
   A container parses back into its messages, whatever follows it, exactly when
   there are at most 100 of them.
   */
  lemma ContainerRoundTrip(table: seq<Ctor>, ms: seq<Value>, s: seq<Byte>)
    requires Lookup(table, ID_CONTAINER) == Some(CONTAINER) && |ms| < TWO_32
    requires forall m :: m in ms ==> m.Message? && ItemOk(table, IMessage, m)
    ensures DecodeObject(table, ContainerBytes(ms) + s) == Got(Obj(Object(ID_CONTAINER, [Filled(List(ms))])), s)
       <==> |ms| <= 100
  {
    var body := Le(|ms|, 4) + Concat(ms);
    assert ContainerBytes(ms) == Le(ID_CONTAINER, 4) + body;
    hide Concat, Le, ContainerBytes, ItemOk;
    HeaderRoundTrip(ID_CONTAINER, body, s);
    assert body + s == Le(|ms|, 4) + (Concat(ms) + s);
    DecodeKnown(table, Object(ID_CONTAINER, [Filled(List(ms))]), CONTAINER.args, ContainerBytes(ms) + s, s);
    OneArgument(table, Vector(IMessage), body + s, List(ms), s);
    MessagesComeBack(table, ms, s);
  }

  function Words(ids: seq<nat>): (vs: seq<Value>)
    ensures |vs| == |ids| && forall i :: 0 <= i < |vs| ==> vs[i] == Word(ids[i])
  {
    seq<Value>(|ids|, i requires 0 <= i < |ids| => Word(ids[i]))
  }

  lemma {:induction false} WordsAreLongs(table: seq<Ctor>, ids: seq<nat>)
    ensures ItemActuals(table, Words(ids)) == Longs(ids)
  {
    if ids != [] {
      WordsAreLongs(table, ids[1..]);
      assert Words(ids)[1..] == Words(ids[1..]);
      assert [Longs(ids)[0]] + Longs(ids[1..]) == Longs(ids);
    }
  }

  lemma WordsFit(table: seq<Ctor>, ids: seq<nat>)
    requires forall id :: id in ids ==> id < TWO_64
    ensures ItemsOk(table, ILong, Words(ids))
  {
    forall i | 0 <= i < |ids|
      ensures ItemOk(table, ILong, Words(ids)[i])
    {
      assert ids[i] in ids;
    }
  }

  /** The bytes of a constructor with one mandatory argument. */
  lemma EmitOne(id: nat, ty: Type, a: Actual)
    ensures Emit(Ctor(id, [Param(ty, 0, 0)]), [Some(a)]) == Le(id, 4) + TypeBytes(ty, a)
  {
    var args, acts := [Param(ty, 0, 0)], [Some(a)];
    hide TypeBytes, Le;
    assert Tail(args, acts, [], 1) == [];
    assert Piece(args, acts, [], 0) == TypeBytes(ty, a);
    assert TypeBytes(ty, a) + [] == TypeBytes(ty, a);
    assert FlagCount(args, 1) == 0 && FlagWords(args, acts, 0) == [];
  }

  /** An acknowledgement parses back into its ids exactly when there are at most 100 of them. */
  lemma AckRoundTrip(table: seq<Ctor>, ids: seq<nat>, s: seq<Byte>)
    requires Lookup(table, ID_ACK) == Some(ACK) && |ids| < TWO_32 && forall id :: id in ids ==> id < TWO_64
    ensures DecodeObject(table, AckBytes(ids) + s) == Got(Obj(Object(ID_ACK, [Filled(List(Words(ids)))])), s)
       <==> |ids| <= 100
  {
    var vs := Words(ids);
    var body := TypeBytes(Vector(ILong), AList(Longs(ids)));
    EmitOne(ID_ACK, Vector(ILong), AList(Longs(ids)));
    WordsFit(table, ids);
    WordsAreLongs(table, ids);
    hide Emit, Le, TypeBytes, ItemsOk, Words, Longs, ItemActuals;
    HeaderRoundTrip(ID_ACK, body, s);
    DecodeKnown(table, Object(ID_ACK, [Filled(List(vs))]), ACK.args, AckBytes(ids) + s, s);
    OneArgument(table, Vector(ILong), body + s, List(vs), s);
    VectorRoundTrip(table, ILong, vs, s);
  }

  /** A drop request parses back into its id. */
  lemma DropRoundTrip(table: seq<Ctor>, id: nat, s: seq<Byte>)
    requires Lookup(table, ID_DROP) == Some(DROP) && id < TWO_64
    ensures DecodeObject(table, DropBytes(id) + s) == Got(Obj(Object(ID_DROP, [Filled(Word(id))])), s)
  {
    var v := Word(id);
    var body := TypeBytes(One(ILong), AWord(id));
    EmitOne(ID_DROP, One(ILong), AWord(id));
    assert ItemOk(table, ILong, v) && ItemActual(table, v) == AWord(id);
    assert TypeOk(table, One(ILong), v) && TypeActual(table, One(ILong), v) == AWord(id);
    hide Emit, Le, TypeBytes, TypeOk, TypeActual;
    HeaderRoundTrip(ID_DROP, body, s);
    DecodeKnown(table, Object(ID_DROP, [Filled(v)]), DROP.args, DropBytes(id) + s, s);
    OneArgument(table, One(ILong), body + s, v, s);
    TypeRoundTrip(table, One(ILong), v, s);
  }

  // ---------- headers ----------

  /** Random bytes after the data, so that the whole is a multiple of 16. */
  function PadLength(size: nat): nat {
    16 + (16 - size % 16) % 16
  }

  /** The plaintext of an encrypted message. */
  function Frame(salt: seq<Byte>, ssid: seq<Byte>, id: nat, seqno: nat, body: seq<Byte>, pad: seq<Byte>): seq<Byte> {
    salt + ssid + Le(id, 8) + Le(seqno, 4) + Le(|body|, 4) + body + pad
  }

  lemma FrameLength(salt: seq<Byte>, ssid: seq<Byte>, id: nat, seqno: nat, body: seq<Byte>, pad: seq<Byte>)
    requires |salt| == 8 && |ssid| == 8 && |pad| == PadLength(|body|)
    ensures |Frame(salt, ssid, id, seqno, body, pad)| % 16 == 0 && 16 <= |pad| <= 31
  {
    PadFills(|body|);
  }

  lemma PadFills(n: nat)
    ensures (32 + n + PadLength(n)) % 16 == 0 && 16 <= PadLength(n) <= 31
  {
  }

  /** What `tg_deheader` learns from an encrypted message. */
  datatype Opened = Opened(salt: nat, ssid: nat, msgId: nat, body: seq<Byte>)

  /** `tg_deheader` on a decrypted message: the declared length decides what is padding. */
  function Open(s: seq<Byte>): Read<Opened> {
    if |s| < 32 then Overrun
    else
      var n := FromLe(s[28..32]);
      if n > |s| - 32 then Overrun
      else Got(Opened(FromLe(s[..8]), FromLe(s[8..16]), FromLe(s[16..24]), s[32..32 + n]), s[32 + n..])
  }

  lemma FrameParts(salt: seq<Byte>, ssid: seq<Byte>, a: seq<Byte>, b: seq<Byte>, c: seq<Byte>, body: seq<Byte>,
                   pad: seq<Byte>)
    requires |salt| == 8 && |ssid| == 8 && |a| == 8 && |b| == 4 && |c| == 4
    ensures var s := salt + ssid + a + b + c + body + pad;
            |s| == 32 + |body| + |pad| && s[..8] == salt && s[8..16] == ssid && s[16..24] == a && s[28..32] == c &&
            s[32..32 + |body|] == body && s[32 + |body|..] == pad
  {
  }

  /** The data of a message come back exactly, with only the padding left over. */
  lemma FrameRoundTrip(salt: seq<Byte>, ssid: seq<Byte>, id: nat, seqno: nat, body: seq<Byte>, pad: seq<Byte>)
    requires |salt| == 8 && |ssid| == 8 && id < TWO_64 && |body| < TWO_32
    ensures Open(Frame(salt, ssid, id, seqno, body, pad)) == Got(Opened(FromLe(salt), FromLe(ssid), id, body), pad)
  {
    WordSizes();
    LeExact(id, 8);
    LeExact(|body|, 4);
    hide Le, FromLe, Pow256;
    FrameParts(salt, ssid, Le(id, 8), Le(seqno, 4), Le(|body|, 4), body, pad);
  }

  /** A message before the key exchange. */
  function PlainFrame(id: nat, body: seq<Byte>): seq<Byte> {
    Le(0, 8) + Le(id, 8) + Le(|body|, 4) + body
  }

  /** `tg_deheader` on an unencrypted message: everything after the header, whatever length it declares. */
  function OpenPlain(s: seq<Byte>): Read<seq<Byte>> {
    if s == [] then Got(s, s)
    else if |s| < 8 then Overrun
    else if FromLe(s[..8]) != 0 then Got(s, [])
    else if |s| < 20 then Overrun
    else Got(s[20..], [])
  }

  lemma PlainRoundTrip(id: nat, body: seq<Byte>)
    ensures OpenPlain(PlainFrame(id, body)) == Got(body, [])
  {
    WordSizes();
    LeExact(0, 8);
    hide Le, FromLe, Pow256;
    var s := PlainFrame(id, body);
    assert s[..8] == Le(0, 8) && s[20..] == body;
  }

  // ---------- putting a container together ----------

  lemma ContainerOf(m0: Value, m1: Value, drops: seq<Value>)
    requires m0.Message? && m1.Message? && forall m :: m in drops ==> m.Message?
    ensures ContainerBytes([m0, m1] + drops)
         == Le(ID_CONTAINER, 4) + Le(2 + |drops|, 4) + MtpBytes(m0) + MtpBytes(m1) + Concat(drops)
  {
    hide *;
    var ms := [m0] + ([m1] + drops);
    PairFirst(m0, m1, drops);
    ConcatCons(m1, drops);
    ConcatCons(m0, [m1] + drops);
    ContainerIs(ms);
    Regroup5(Le(ID_CONTAINER, 4), Le(2 + |drops|, 4), MtpBytes(m0), MtpBytes(m1), Concat(drops));
  }

  lemma PairFirst<T>(x: T, y: T, s: seq<T>)
    ensures [x, y] + s == [x] + ([y] + s) && |[x] + ([y] + s)| == 2 + |s|
  {
  }

  lemma ContainerIs(ms: seq<Value>)
    requires forall m :: m in ms ==> m.Message?
    ensures ContainerBytes(ms) == Le(ID_CONTAINER, 4) + Le(|ms|, 4) + Concat(ms)
  {
    hide Le, Concat;
  }

  lemma ConcatCons(m: Value, ms: seq<Value>)
    requires m.Message? && forall x :: x in ms ==> x.Message?
    ensures forall x :: x in [m] + ms ==> x.Message?
    ensures Concat([m] + ms) == MtpBytes(m) + Concat(ms)
  {
    hide MtpBytes;
    assert ([m] + ms)[1..] == ms;
  }

  lemma Regroup5<T>(a: seq<T>, b: seq<T>, x: seq<T>, y: seq<T>, z: seq<T>)
    ensures a + b + (x + (y + z)) == a + b + x + y + z
  {
  }

  lemma AckNotEmpty(ids: seq<nat>)
    ensures |AckBytes(ids)| > 0
  {
  }

  lemma {:induction false} ConcatNext(ms: seq<Value>, i: nat)
    requires i < |ms| && forall m :: m in ms ==> m.Message?
    ensures Concat(ms[..i + 1]) == Concat(ms[..i]) + MtpBytes(ms[i])
  {
    hide MtpBytes;
    if i == 0 {
      assert ms[..1][1..] == [] && ms[..0] == [];
      assert Concat(ms[..1]) == MtpBytes(ms[0]) + Concat(ms[..1][1..]);
    } else {
      ConcatNext(ms[1..], i - 1);
      assert ms[1..][..i] == ms[..i + 1][1..] && ms[1..][..i - 1] == ms[..i][1..];
    }
  }

  /**
   Whatever numbers the messages got, what `tg_header` packs parses back into the query, the
   acknowledgement and one message for each drop exactly when there are at most 98 drops.
   */
  lemma BundleRoundTrip(table: seq<Ctor>, body: seq<Byte>, acks: seq<nat>, drops: seq<nat>, queryTime: nat,
                        ackTime: nat, times: seq<nat>, ns: seq<nat>, s: seq<Byte>)
    requires Lookup(table, ID_CONTAINER) == Some(CONTAINER)
    requires |times| == |drops| && |ns| == 2 + |drops| < TWO_32
    requires |body| < 0x8000_0000 && |AckBytes(acks)| < 0x8000_0000
    ensures var ms := Bundle(body, acks, drops, queryTime, ackTime, times, ns);
            (DecodeObject(table, ContainerBytes(ms) + s) == Got(Obj(Object(ID_CONTAINER, [Filled(List(ms))])), s)
            <==> |drops| <= 98)
  {
    var ms := Bundle(body, acks, drops, queryTime, ackTime, times, ns);
    BundleFits(table, body, acks, drops, queryTime, ackTime, times, ns);
    hide *;
    ContainerRoundTrip(table, ms, s);
  }

  lemma BundleFits(table: seq<Ctor>, body: seq<Byte>, acks: seq<nat>, drops: seq<nat>, queryTime: nat, ackTime: nat,
                   times: seq<nat>, ns: seq<nat>)
    requires |times| == |drops| && |ns| == 2 + |drops|
    requires |body| < 0x8000_0000 && |AckBytes(acks)| < 0x8000_0000
    ensures forall m :: m in Bundle(body, acks, drops, queryTime, ackTime, times, ns) ==>
              m.Message? && ItemOk(table, IMessage, m)
  {
    hide DropBytes, AckBytes;
    assert ItemOk(table, IMessage, Mtp(queryTime, ns[0], body));
    assert ItemOk(table, IMessage, Mtp(ackTime, ns[1], AckBytes(acks)));
    DropsFit(table, drops, times, ns[2..]);
    hide ItemOk, Mtp, DropMessages;
  }

  lemma DropsFit(table: seq<Ctor>, drops: seq<nat>, times: seq<nat>, ns: seq<nat>)
    requires |times| == |ns| == |drops|
    ensures forall m :: m in DropMessages(drops, times, ns) ==> ItemOk(table, IMessage, m)
  {
    hide DropBytes;
    var ds := DropMessages(drops, times, ns);
    forall m | m in ds
      ensures ItemOk(table, IMessage, m)
    {
      var i :| 0 <= i < |ds| && ds[i] == m;
      DropSize(drops[i]);
    }
  }

  lemma DropSize(id: nat)
    ensures |DropBytes(id)| == 12
  {
    EmitOne(ID_DROP, One(ILong), AWord(id));
  }
}
