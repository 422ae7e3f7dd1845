/** The generated deserialiser undoes the generated serialiser. */
module TlRoundTrip {
  import opened Arith
  import opened Bytes
  import opened Options
  import opened TlPrimitives
  import opened TlSchema

  // ---------- well-formed values ----------

  /** Every flag word comes before the arguments that use its bits. */
  predicate FlagsFirst(args: seq<Arg>) {
    forall i :: 0 <= i < |args| && args[i].Param? && args[i].flagn > 0 ==>
      args[i].flagn <= FlagCount(args, i) && args[i].flagb < 32
  }

  /** Optional arguments that share a flag bit are present together. */
  predicate Together(args: seq<Arg>, fields: seq<Field>)
    requires |args| == |fields|
  {
    forall i, j :: 0 <= i < |args| && 0 <= j < |args| && Shares(args[i], args[j]) ==>
      (fields[i].Filled? <==> fields[j].Filled?)
  }

  predicate Shares(a: Arg, b: Arg) {
    a.Param? && b.Param? && a.flagn > 0 && a.flagn == b.flagn && a.flagb == b.flagb
  }

  /** A tree a caller can pass: known ids, fields of the right kind, numbers and lengths that fit their C types. */
  predicate ObjectFits(table: seq<Ctor>, o: Object)
    decreases o, 0
  {
    && 0 < o.id < TWO_32
    && Lookup(table, o.id).Some?
    && var args := Lookup(table, o.id).value.args;
       |args| == |o.fields| && FlagsFirst(args) && FieldsFit(table, args, o.fields)
  }

  predicate FieldsFit(table: seq<Ctor>, args: seq<Arg>, fields: seq<Field>)
    requires |args| == |fields|
    decreases fields, 1
  {
    forall i :: 0 <= i < |args| ==> FieldFits(table, args[i], fields[i])
  }

  predicate FieldFits(table: seq<Ctor>, arg: Arg, f: Field)
    decreases f, 0
  {
    match f
    case Absent => arg.Param? ==> arg.flagn > 0
    case Filled(v) => arg.Param? && TypeFits(table, arg.ty, v)
  }

  predicate TypeFits(table: seq<Ctor>, ty: Type, v: Value)
    decreases v, 2
  {
    match ty
    case One(item) => item != IMessage && ItemFits(table, item, v)
    case Fixed(n) => v.Blob? && |v.b| == n
    case True => v == Present
    case Vector(item) => item != IStr && v.List? && |v.items| < TWO_32 && ItemsFit(table, item, v.items)
  }

  predicate ItemsFit(table: seq<Ctor>, item: Item, vs: seq<Value>)
    decreases vs, 0
  {
    forall i :: 0 <= i < |vs| ==> ItemFits(table, item, vs[i])
  }

  predicate ItemFits(table: seq<Ctor>, item: Item, v: Value)
    decreases v, 1
  {
    match (item, v)
    case (IInt, Word(n)) => n < TWO_32
    case (IBool, Word(n)) => n < 2
    case (ILong, Word(n)) => n < TWO_64
    case (IDouble, Word(n)) => n < TWO_64
    case (IString, Blob(_)) => true
    case (IStr, Blob(_)) => true
    case (IBytes, Blob(_)) => true
    case (IMessage, Message(msgId, seqno, body)) =>
      msgId < TWO_64 && seqno < TWO_32 && |body| < 0x8000_0000
    case (IObject, Obj(o)) => ObjectFits(table, o)
    case _ => false
  }

  // ---------- values that survive ----------

  /**
   In this object and in every object inside it, fields that share a flag bit are present together, vectors
   have at most 100 elements, C strings have no NUL inside, and strings of bytes are shorter than 2^24.
   */
  predicate ObjectSurvives(table: seq<Ctor>, o: Object)
    decreases o, 0
  {
    match Lookup(table, o.id)
    case None => false
    case Some(ctor) =>
      |ctor.args| == |o.fields| && Together(ctor.args, o.fields) && FieldsSurvive(table, ctor.args, o.fields)
  }

  predicate FieldsSurvive(table: seq<Ctor>, args: seq<Arg>, fields: seq<Field>)
    requires |args| == |fields|
    decreases fields, 1
  {
    forall i :: 0 <= i < |args| ==> FieldSurvives(table, args[i], fields[i])
  }

  predicate FieldSurvives(table: seq<Ctor>, arg: Arg, f: Field)
    decreases f, 0
  {
    arg.Param? && f.Filled? ==> TypeSurvives(table, arg.ty, f.value)
  }

  predicate TypeSurvives(table: seq<Ctor>, ty: Type, v: Value)
    decreases v, 2
  {
    match ty
    case One(item) => ItemSurvives(table, item, v)
    case Vector(item) => v.List? ==> |v.items| <= 100 && ItemsSurvive(table, item, v.items)
    case _ => true
  }

  predicate ItemsSurvive(table: seq<Ctor>, item: Item, vs: seq<Value>)
    decreases vs, 0
  {
    forall i :: 0 <= i < |vs| ==> ItemSurvives(table, item, vs[i])
  }

  predicate ItemSurvives(table: seq<Ctor>, item: Item, v: Value)
    decreases v, 1
  {
    match (item, v)
    case (IString, Blob(b)) => 0 !in b && |b| < 0x100_0000
    case (IStr, Blob(b)) => |b| < 0x100_0000
    case (IBytes, Blob(b)) => |b| < 0x100_0000
    case (IObject, Obj(o)) => ObjectSurvives(table, o)
    case _ => true
  }

  predicate ObjectOk(table: seq<Ctor>, o: Object) {
    ObjectFits(table, o) && ObjectSurvives(table, o)
  }

  predicate TypeOk(table: seq<Ctor>, ty: Type, v: Value) {
    TypeFits(table, ty, v) && TypeSurvives(table, ty, v)
  }

  predicate ItemsOk(table: seq<Ctor>, item: Item, vs: seq<Value>) {
    ItemsFit(table, item, vs) && ItemsSurvive(table, item, vs)
  }

  predicate ItemOk(table: seq<Ctor>, item: Item, v: Value) {
    ItemFits(table, item, v) && ItemSurvives(table, item, v)
  }

  /** The value and what follows it come back if `ok`, and otherwise the value does not, whatever is left. */
  ghost predicate Exactly<T>(r: Read<T>, v: T, s: seq<Byte>, ok: bool) {
    if ok then r == Got(v, s) else r.Got? ==> r.value != v
  }

  // ---------- flag words ----------

  predicate Sets(args: seq<Arg>, acts: seq<Option<Actual>>, j: nat, k: nat, b: nat)
    requires j < |args| == |acts|
  {
    args[j].Param? && args[j].flagn == k && args[j].flagb == b && acts[j].Some?
  }

  /** A bit is set exactly when some present argument uses it. */
  lemma {:induction false} FlagBit(args: seq<Arg>, acts: seq<Option<Actual>>, k: nat, i: nat, b: nat)
    requires i <= |args| == |acts|
    ensures Bit(FlagWord(args, acts, k, i), b) <==> exists j: nat :: j < i && Sets(args, acts, j, k, b)
  {
    if i == 0 {
      NoBits(b);
    } else {
      FlagBit(args, acts, k, i - 1, b);
      var w := FlagWord(args, acts, k, i - 1);
      if args[i - 1].Param? && args[i - 1].flagn == k && acts[i - 1].Some? {
        SetBitSets(w, args[i - 1].flagb, b);
        assert args[i - 1].flagb == b ==> Sets(args, acts, i - 1, k, b);
      }
    }
  }

  lemma {:induction false} FlagWordBound(args: seq<Arg>, acts: seq<Option<Actual>>, k: nat, i: nat)
    requires i <= |args| == |acts| && FlagsFirst(args) && k > 0
    ensures FlagWord(args, acts, k, i) < TWO_32
  {
    Pow2Of32();
    if i > 0 {
      FlagWordBound(args, acts, k, i - 1);
      if args[i - 1].Param? && args[i - 1].flagn == k && acts[i - 1].Some? {
        hide Pow2, SetBit, FlagCount;
        SetBitBound(FlagWord(args, acts, k, i - 1), args[i - 1].flagb, 32);
      }
    }
  }

  lemma {:induction false} FlagCountMonotone(args: seq<Arg>, i: nat, j: nat)
    requires i <= j <= |args|
    ensures FlagCount(args, i) <= FlagCount(args, j)
    decreases j
  {
    if i < j {
      FlagCountMonotone(args, i, j - 1);
    }
  }

  // ---------- the round trip, bottom up ----------

  lemma {:induction false} ActualsAt(table: seq<Ctor>, args: seq<Arg>, fields: seq<Field>, i: nat, j: nat)
    requires i <= j < |args| == |fields|
    ensures Actuals(table, args, fields, i)[j - i] == ActualOf(table, args[j], fields[j])
    decreases j - i
  {
    hide ActualOf;
    if i < j {
      ActualsAt(table, args, fields, i + 1, j);
    }
  }

  lemma WordRoundTrip(n: nat, k: nat, s: seq<Byte>)
    requires n < Pow256(k)
    ensures TakeWord(Le(n, k) + s, k) == Got(n, s)
  {
    LeExact(n, k);
    var w := Le(n, k) + s;
    assert w[..k] == Le(n, k) && w[k..] == s;
  }

  lemma BlobRoundTrip(b: seq<Byte>, s: seq<Byte>)
    ensures Take(b + s, |b|) == Got(b, s)
  {
    assert (b + s)[..|b|] == b && (b + s)[|b|..] == s;
  }

  lemma MessageParts(a: seq<Byte>, b: seq<Byte>, c: seq<Byte>, body: seq<Byte>, s: seq<Byte>, w: seq<Byte>)
    requires |a| == 8 && |b| == 4 && |c| == 4 && w == (a + b + c + body) + s
    ensures |w| == 16 + |body| + |s|
    ensures w[..8] == a && w[8..12] == b && w[12..16] == c && w[16..16 + |body|] == body && w[16 + |body|..] == s
  {
  }

  /** A message of a container comes back. */
  lemma MessageRoundTrip(msgId: nat, seqno: nat, body: seq<Byte>, s: seq<Byte>)
    requires msgId < TWO_64 && seqno < TWO_32 && |body| < 0x8000_0000
    ensures DecodeMessage(MessageBytes(msgId, seqno, body) + s) == Got(Message(msgId, seqno, body), s)
  {
    WordSizes();
    LeExact(msgId, 8);
    LeExact(seqno, 4);
    LeExact(|body|, 4);
    hide Le, FromLe, Pow256;
    MessageParts(Le(msgId, 8), Le(seqno, 4), Le(|body|, 4), body, s, MessageBytes(msgId, seqno, body) + s);
  }

  lemma BytesExactly(b: seq<Byte>, s: seq<Byte>)
    ensures Exactly(UnpackBytes(PackBytes(b) + s), b, s, |b| < 0x100_0000)
  {
    BytesRoundTrip(b, s);
    UnpackedLength(PackBytes(b) + s);
    hide PackBytes, UnpackBytes;
  }

  lemma StringExactly(b: seq<Byte>, s: seq<Byte>)
    ensures Exactly(UnpackBytes(PackBytes(CString(b)) + s), b, s, 0 !in b && |b| < 0x100_0000)
  {
    CStringExact(b);
    BytesExactly(CString(b), s);
    UnpackedLength(PackBytes(CString(b)) + s);
    hide PackBytes, UnpackBytes, CString;
  }

  lemma {:induction false} ItemExactly(table: seq<Ctor>, item: Item, v: Value, s: seq<Byte>)
    requires ItemFits(table, item, v)
    ensures Exactly(DecodeItem(table, item, ItemBytes(item, ItemActual(table, v)) + s), v, s,
                    ItemSurvives(table, item, v))
    decreases v, 1
  {
    WordSizes();
    hide PackBytes, UnpackBytes, CString, Le, FromLe;
    match item {
      case IInt => WordRoundTrip(v.n, 4, s);
      case IBool => WordRoundTrip(v.n, 4, s);
      case ILong => WordRoundTrip(v.n, 8, s);
      case IDouble => WordRoundTrip(v.n, 8, s);
      case IString => StringExactly(v.b, s);
      case IStr => BytesExactly(v.b, s);
      case IBytes => BytesExactly(v.b, s);
      case IMessage => MessageRoundTrip(v.msgId, v.seqno, v.body, s);
      case IObject => ObjectExactly(table, v.o, s);
    }
  }

  lemma ItemsStep(table: seq<Ctor>, item: Item, n: nat, w: seq<Byte>)
    requires n > 0
    ensures DecodeItems(table, item, n, w)
         == (match DecodeItem(table, item, w)
             case Overrun => Overrun
             case Got(v, rest) => Glue([v], DecodeItems(table, item, n - 1, rest)))
  {
    hide DecodeItem;
  }

  lemma {:induction false} ItemsExactly(table: seq<Ctor>, item: Item, vs: seq<Value>, s: seq<Byte>)
    requires ItemsFit(table, item, vs)
    ensures Exactly(DecodeItems(table, item, |vs|, ItemsBytes(item, ItemActuals(table, vs)) + s), vs, s,
                    ItemsSurvive(table, item, vs))
    decreases vs, 0
  {
    hide *;
    if vs == [] {
      NoItems(table, item, vs, s);
    } else {
      ItemsParts(table, item, vs);
      ItemExactly(table, item, vs[0], ItemsBytes(item, ItemActuals(table, vs[1..])) + s);
      ItemsExactly(table, item, vs[1..], s);
      ItemsCombine(table, item, vs, s);
    }
  }

  lemma NoItems(table: seq<Ctor>, item: Item, vs: seq<Value>, s: seq<Byte>)
    requires vs == []
    ensures Exactly(DecodeItems(table, item, |vs|, ItemsBytes(item, ItemActuals(table, vs)) + s), vs, s,
                    ItemsSurvive(table, item, vs))
  {
    assert ItemsBytes(item, ItemActuals(table, vs)) + s == s;
  }

  lemma ItemsParts(table: seq<Ctor>, item: Item, vs: seq<Value>)
    requires ItemsFit(table, item, vs) && vs != []
    ensures ItemFits(table, item, vs[0]) && ItemsFit(table, item, vs[1..])
    ensures ItemsSurvive(table, item, vs) <==> ItemSurvives(table, item, vs[0]) && ItemsSurvive(table, item, vs[1..])
  {
    hide ItemFits, ItemSurvives;
    assert vs == [vs[0]] + vs[1..];
  }

  lemma GlueDiffers<T>(x: T, r: Read<seq<T>>, y: T, ys: seq<T>)
    requires x != y || (r.Got? ==> r.value != ys)
    ensures Glue([x], r).Got? ==> Glue([x], r).value != [y] + ys
  {
    if r.Got? {
      var all := [x] + r.value;
      assert all[0] == x && all[1..] == r.value && ([y] + ys)[0] == y && ([y] + ys)[1..] == ys;
    }
  }

  lemma ItemsCombine(table: seq<Ctor>, item: Item, vs: seq<Value>, s: seq<Byte>)
    requires vs != []
    requires ItemsSurvive(table, item, vs) <==> ItemSurvives(table, item, vs[0]) && ItemsSurvive(table, item, vs[1..])
    requires var tail := ItemsBytes(item, ItemActuals(table, vs[1..])) + s;
             && Exactly(DecodeItem(table, item, ItemBytes(item, ItemActual(table, vs[0])) + tail), vs[0], tail,
                        ItemSurvives(table, item, vs[0]))
             && Exactly(DecodeItems(table, item, |vs[1..]|, tail), vs[1..], s, ItemsSurvive(table, item, vs[1..]))
    ensures Exactly(DecodeItems(table, item, |vs|, ItemsBytes(item, ItemActuals(table, vs)) + s), vs, s,
                    ItemsSurvive(table, item, vs))
  {
    hide DecodeItem, DecodeItems, ItemsBytes, ItemBytes, ItemActual, ItemActuals, ItemSurvives, ItemsSurvive;
    var head, tail := ItemBytes(item, ItemActual(table, vs[0])), ItemsBytes(item, ItemActuals(table, vs[1..]));
    ItemsUnfold(table, item, vs);
    assert (head + tail) + s == head + (tail + s);
    ItemsStep(table, item, |vs|, head + (tail + s));
    assert [vs[0]] + vs[1..] == vs;
    var r := DecodeItem(table, item, head + (tail + s));
    if r.Got? {
      var rest := DecodeItems(table, item, |vs| - 1, r.rest);
      if !ItemsSurvive(table, item, vs) {
        GlueDiffers(r.value, rest, vs[0], vs[1..]);
      }
    }
  }

  /** Elements that survive come back. */
  lemma ItemsRoundTrip(table: seq<Ctor>, item: Item, vs: seq<Value>, s: seq<Byte>)
    requires ItemsOk(table, item, vs)
    ensures DecodeItems(table, item, |vs|, ItemsBytes(item, ItemActuals(table, vs)) + s) == Got(vs, s)
  {
    ItemsExactly(table, item, vs, s);
    hide DecodeItems, ItemsBytes, ItemActuals;
  }

  lemma ItemsUnfold(table: seq<Ctor>, item: Item, vs: seq<Value>)
    requires vs != []
    ensures ItemsBytes(item, ItemActuals(table, vs))
         == ItemBytes(item, ItemActual(table, vs[0])) + ItemsBytes(item, ItemActuals(table, vs[1..]))
  {
    assert ItemActuals(table, vs)[1..] == ItemActuals(table, vs[1..]);
  }

  lemma VectorParts(a: seq<Byte>, b: seq<Byte>, c: seq<Byte>, s: seq<Byte>, w: seq<Byte>)
    requires |a| == 4 && |b| == 4 && w == (a + b + c) + s
    ensures |w| >= 8 && w[..4] == a && w[4..8] == b && w[8..] == c + s
  {
  }

  /** The header of a vector is recognised, whatever its length. */
  lemma VectorHeader(table: seq<Ctor>, item: Item, acts: seq<Actual>, s: seq<Byte>)
    requires |acts| < TWO_32
    ensures DecodeType(table, Vector(item), TypeBytes(Vector(item), AList(acts)) + s)
         == DecodeVector(table, item, |acts|, ItemsBytes(item, acts) + s)
  {
    WordSizes();
    LeExact(ID_VECTOR, 4);
    LeExact(|acts|, 4);
    hide Le, FromLe, Pow256, DecodeVector, ItemsBytes;
    VectorParts(Le(ID_VECTOR, 4), Le(|acts|, 4), ItemsBytes(item, acts), s,
                TypeBytes(Vector(item), AList(acts)) + s);
  }

  /** A vector comes back exactly when it has at most 100 elements and all of them survive. */
  lemma VectorRoundTrip(table: seq<Ctor>, item: Item, vs: seq<Value>, s: seq<Byte>)
    requires ItemsFit(table, item, vs) && |vs| < TWO_32
    ensures var w := TypeBytes(Vector(item), TypeActual(table, Vector(item), List(vs)));
            (DecodeType(table, Vector(item), w + s) == Got(List(vs), s)
            <==> |vs| <= 100 && ItemsSurvive(table, item, vs))
  {
    VectorExactly(table, item, vs, s);
    hide DecodeType, TypeBytes, TypeActual;
  }

  lemma VectorExactly(table: seq<Ctor>, item: Item, vs: seq<Value>, s: seq<Byte>)
    requires ItemsFit(table, item, vs) && |vs| < TWO_32
    ensures Exactly(DecodeType(table, Vector(item),
                               TypeBytes(Vector(item), TypeActual(table, Vector(item), List(vs))) + s),
                    List(vs), s, |vs| <= 100 && ItemsSurvive(table, item, vs))
    decreases vs, 1
  {
    VectorHeader(table, item, ItemActuals(table, vs), s);
    ItemsExactly(table, item, vs, s);
    hide DecodeType, TypeBytes, DecodeItems, ItemsBytes, ItemActuals, ItemsSurvive;
  }

  lemma {:induction false} CStringExact(b: seq<Byte>)
    ensures CString(b) == b <==> 0 !in b
  {
  }

  /** A C string comes back exactly when it has no NUL inside and its length fits in three bytes. */
  lemma StringRoundTrip(b: seq<Byte>, s: seq<Byte>)
    ensures UnpackBytes(PackBytes(CString(b)) + s) == Got(b, s) <==> 0 !in b && |b| < 0x100_0000
  {
    CStringExact(b);
    BytesRoundTrip(CString(b), s);
    UnpackedLength(PackBytes(CString(b)) + s);
  }

  lemma UnpackedLength(w: seq<Byte>)
    ensures UnpackBytes(w).Got? ==> |UnpackBytes(w).value| < 0x100_0000
  {
    WordSizes();
    if |w| >= 4 {
      FromLeBound(w[1..4]);
    }
  }

  lemma {:induction false} TypeExactly(table: seq<Ctor>, ty: Type, v: Value, s: seq<Byte>)
    requires TypeFits(table, ty, v)
    ensures Exactly(DecodeType(table, ty, TypeBytes(ty, TypeActual(table, ty, v)) + s), v, s,
                    TypeSurvives(table, ty, v))
    decreases v, 2
  {
    match ty {
      case One(item) => ItemExactly(table, item, v, s);
      case Fixed(n) => BlobRoundTrip(v.b, s);
      case True => assert TypeBytes(True, TypeActual(table, True, v)) + s == s;
      case Vector(item) => VectorExactly(table, item, v.items, s);
    }
  }

  lemma TypeRoundTrip(table: seq<Ctor>, ty: Type, v: Value, s: seq<Byte>)
    requires TypeOk(table, ty, v)
    ensures DecodeType(table, ty, TypeBytes(ty, TypeActual(table, ty, v)) + s) == Got(v, s)
  {
    TypeExactly(table, ty, v, s);
    hide DecodeType, TypeBytes, TypeActual;
  }

  // ---------- a whole constructor ----------

  function FlagValues(args: seq<Arg>, acts: seq<Option<Actual>>): (fv: seq<nat>)
    requires |args| == |acts|
  {
    FlagWords(args, acts, FlagCount(args, |args|))
  }

  ghost predicate SamePresence(args: seq<Arg>, fields: seq<Field>, acts: seq<Option<Actual>>) {
    && |args| == |fields| == |acts|
    && forall j :: 0 <= j < |args| ==> (acts[j].Some? <==> args[j].Param? && fields[j].Filled?)
  }

  /** Argument `i` is present exactly when the arguments sharing its bit say so. */
  ghost predicate Agrees(args: seq<Arg>, fields: seq<Field>, i: nat)
    requires i < |args| == |fields|
  {
    args[i].Param? && args[i].flagn > 0 ==> (fields[i].Filled? <==> Demanded(args, fields, i))
  }

  ghost predicate Demanded(args: seq<Arg>, fields: seq<Field>, i: nat)
    requires i < |args| == |fields|
  {
    exists j :: 0 <= j < |args| && Shares(args[i], args[j]) && fields[j].Filled?
  }

  lemma AgreesMeansTogether(args: seq<Arg>, fields: seq<Field>)
    requires |args| == |fields|
    ensures Together(args, fields) <==> forall i :: 0 <= i < |args| ==> Agrees(args, fields, i)
  {
    if Together(args, fields) {
      forall i | 0 <= i < |args|
        ensures Agrees(args, fields, i)
      {
        assert args[i].Param? && args[i].flagn > 0 ==> Shares(args[i], args[i]);
      }
    }
    if forall i :: 0 <= i < |args| ==> Agrees(args, fields, i) {
      forall i, j | 0 <= i < |args| && 0 <= j < |args| && Shares(args[i], args[j])
        ensures fields[i].Filled? <==> fields[j].Filled?
      {
        assert Agrees(args, fields, i) && Agrees(args, fields, j);
        assert Shares(args[j], args[i]);
      }
    }
  }

  /** The deserialiser wants an optional argument exactly when some argument with its bit was present. */
  lemma WantedMeansDemanded(args: seq<Arg>, fields: seq<Field>, acts: seq<Option<Actual>>, i: nat)
    requires SamePresence(args, fields, acts) && FlagsFirst(args)
    requires i < |args| && args[i].Param? && args[i].flagn > 0
    ensures FlagCount(args, i) <= |FlagValues(args, acts)|
    ensures Wanted(FlagValues(args, acts)[..FlagCount(args, i)], args[i].flagn, args[i].flagb)
       <==> Demanded(args, fields, i)
  {
    FlagCountMonotone(args, i, |args|);
    var k, b := args[i].flagn, args[i].flagb;
    FlagBit(args, acts, k, |args|, b);
    hide FlagCount, Bit, FlagWord;
    if Demanded(args, fields, i) {
      var j :| 0 <= j < |args| && Shares(args[i], args[j]) && fields[j].Filled?;
      assert Sets(args, acts, j, k, b);
    }
  }

  /** A field that should be absent but is wanted: something is read in its place, or reading overruns. */
  lemma WantedFieldIsRead(table: seq<Ctor>, args: seq<Arg>, i: nat, flags: seq<nat>, s: seq<Byte>)
    requires i < |args| && args[i].Param? && Wanted(flags, args[i].flagn, args[i].flagb)
    ensures var r := DecodeArgs(table, args, i, flags, s); r.Got? ==> r.value[0].Filled?
  {
    hide DecodeType;
  }

  lemma ReadField(table: seq<Ctor>, args: seq<Arg>, i: nat, flags: seq<nat>, s: seq<Byte>, v: Value, rest: seq<Byte>)
    requires i < |args| && args[i].Param? && Wanted(flags, args[i].flagn, args[i].flagb)
    requires DecodeType(table, args[i].ty, s) == Got(v, rest) && !v.BadLength?
    ensures DecodeArgs(table, args, i, flags, s) == Glue([Filled(v)], DecodeArgs(table, args, i + 1, flags, rest))
  {
    hide DecodeType;
  }

  /** Something else is read in place of `v`. */
  lemma ReadOther(table: seq<Ctor>, args: seq<Arg>, i: nat, flags: seq<nat>, s: seq<Byte>, v: Value)
    requires i < |args| && args[i].Param? && Wanted(flags, args[i].flagn, args[i].flagb)
    requires DecodeType(table, args[i].ty, s).Got? ==> DecodeType(table, args[i].ty, s).value != v
    ensures var r := DecodeArgs(table, args, i, flags, s); r.Got? ==> r.value[0] != Filled(v)
  {
    hide DecodeType;
  }

  lemma ReadFlags(table: seq<Ctor>, args: seq<Arg>, i: nat, flags: seq<nat>, n: nat, s: seq<Byte>)
    requires i < |args| && args[i].Flags? && n < TWO_32
    ensures DecodeArgs(table, args, i, flags, Le(n, 4) + s)
            == Glue([Absent], DecodeArgs(table, args, i + 1, flags + [n], s))
  {
    WordSizes();
    WordRoundTrip(n, 4, s);
    hide Le, FromLe, Pow256;
  }

  /** What decoding argument `i` does to a faithful encoding. */
  lemma ReadAbsent(table: seq<Ctor>, args: seq<Arg>, i: nat, flags: seq<nat>, s: seq<Byte>)
    requires i < |args| && !args[i].Flags?
    requires args[i].Param? ==> !Wanted(flags, args[i].flagn, args[i].flagb)
    ensures DecodeArgs(table, args, i, flags, s) == Glue([Absent], DecodeArgs(table, args, i + 1, flags, s))
  {
  }

  /** The stretch of output from argument `i` on, and the flag words before it. */
  function From(args: seq<Arg>, acts: seq<Option<Actual>>, i: nat, s: seq<Byte>): seq<Byte>
    requires i <= |args| == |acts|
  {
    Tail(args, acts, FlagValues(args, acts), i) + s
  }

  function Before(args: seq<Arg>, acts: seq<Option<Actual>>, i: nat): seq<nat>
    requires i <= |args| == |acts|
  {
    FlagCountMonotone(args, i, |args|);
    FlagValues(args, acts)[..FlagCount(args, i)]
  }

  lemma FromUnfold(args: seq<Arg>, acts: seq<Option<Actual>>, i: nat, s: seq<Byte>)
    requires i < |args| == |acts|
    ensures From(args, acts, i, s) == Piece(args, acts, FlagValues(args, acts), i) + From(args, acts, i + 1, s)
  {
    hide Piece, FlagValues;
  }

  lemma StepFlags(table: seq<Ctor>, args: seq<Arg>, acts: seq<Option<Actual>>, i: nat, s: seq<Byte>)
    requires i < |args| == |acts| && args[i].Flags? && FlagsFirst(args)
    ensures DecodeArgs(table, args, i, Before(args, acts, i), From(args, acts, i, s))
         == Glue([Absent], DecodeArgs(table, args, i + 1, Before(args, acts, i + 1), From(args, acts, i + 1, s)))
  {
    FromUnfold(args, acts, i, s);
    FlagCountMonotone(args, i + 1, |args|);
    var fv, c := FlagValues(args, acts), FlagCount(args, i);
    FlagWordBound(args, acts, c + 1, |args|);
    assert Before(args, acts, i + 1) == Before(args, acts, i) + [fv[c]];
    assert Piece(args, acts, fv, i) == Le(fv[c], 4);
    hide *;
    ReadFlags(table, args, i, Before(args, acts, i), fv[c], From(args, acts, i + 1, s));
  }

  lemma StepAbsent(table: seq<Ctor>, args: seq<Arg>, fields: seq<Field>, acts: seq<Option<Actual>>, i: nat,
                   s: seq<Byte>)
    requires SamePresence(args, fields, acts) && FlagsFirst(args)
    requires i < |args| && !args[i].Flags? && fields[i].Absent? && FieldFits(table, args[i], fields[i])
    ensures var r := DecodeArgs(table, args, i, Before(args, acts, i), From(args, acts, i, s));
            if Agrees(args, fields, i)
            then r == Glue([Absent],
                           DecodeArgs(table, args, i + 1, Before(args, acts, i + 1), From(args, acts, i + 1, s)))
            else r.Got? ==> r.value[0].Filled?
  {
    hide DecodeArgs, DecodeType, TypeBytes, Tail;
    FromUnfold(args, acts, i, s);
    assert Piece(args, acts, FlagValues(args, acts), i) == [];
    assert [] + From(args, acts, i + 1, s) == From(args, acts, i + 1, s);
    assert Before(args, acts, i + 1) == Before(args, acts, i);
    if args[i].Param? {
      WantedMeansDemanded(args, fields, acts, i);
      assert Agrees(args, fields, i) <==> !Wanted(Before(args, acts, i), args[i].flagn, args[i].flagb);
    }
    hide Piece, From, FlagValues, Before, FlagCount, Wanted, Demanded;
    if Agrees(args, fields, i) {
      ReadAbsent(table, args, i, Before(args, acts, i), From(args, acts, i + 1, s));
    } else {
      WantedFieldIsRead(table, args, i, Before(args, acts, i), From(args, acts, i + 1, s));
    }
  }

  lemma StepFilled(table: seq<Ctor>, args: seq<Arg>, fields: seq<Field>, acts: seq<Option<Actual>>, i: nat,
                   s: seq<Byte>)
    requires SamePresence(args, fields, acts) && FlagsFirst(args)
    requires i < |args| && fields[i].Filled? && FieldFits(table, args[i], fields[i])
    requires acts[i] == ActualOf(table, args[i], fields[i])
    requires FieldExactly(table, args[i], fields[i], From(args, acts, i + 1, s))
    ensures Agrees(args, fields, i)
    ensures var r := DecodeArgs(table, args, i, Before(args, acts, i), From(args, acts, i, s));
            if FieldSurvives(table, args[i], fields[i])
            then r == Glue([fields[i]],
                           DecodeArgs(table, args, i + 1, Before(args, acts, i + 1), From(args, acts, i + 1, s)))
            else r.Got? ==> r.value[0] != fields[i]
  {
    hide DecodeArgs, DecodeType, TypeBytes, Tail, TypeSurvives;
    FromUnfold(args, acts, i, s);
    assert Piece(args, acts, FlagValues(args, acts), i)
           == TypeBytes(args[i].ty, TypeActual(table, args[i].ty, fields[i].value));
    assert Before(args, acts, i + 1) == Before(args, acts, i);
    FilledIsWanted(args, fields, acts, i);
    assert !fields[i].value.BadLength?;
    hide Piece, From, FlagValues, Before, FlagCount, Wanted, Demanded, TypeActual;
    if FieldSurvives(table, args[i], fields[i]) {
      ReadField(table, args, i, Before(args, acts, i), From(args, acts, i, s), fields[i].value,
                From(args, acts, i + 1, s));
    } else {
      ReadOther(table, args, i, Before(args, acts, i), From(args, acts, i, s), fields[i].value);
    }
  }

  lemma FilledIsWanted(args: seq<Arg>, fields: seq<Field>, acts: seq<Option<Actual>>, i: nat)
    requires SamePresence(args, fields, acts) && FlagsFirst(args)
    requires i < |args| && args[i].Param? && fields[i].Filled?
    ensures Agrees(args, fields, i) && Wanted(Before(args, acts, i), args[i].flagn, args[i].flagb)
  {
    assert args[i].flagn > 0 ==> Demanded(args, fields, i) by {
      assert args[i].flagn > 0 ==> Shares(args[i], args[i]);
    }
    if args[i].flagn > 0 {
      WantedMeansDemanded(args, fields, acts, i);
    }
  }

  /** The field agrees with those it shares a bit with, and survives itself. */
  ghost predicate Fine(table: seq<Ctor>, args: seq<Arg>, fields: seq<Field>, i: nat)
    requires i < |args| == |fields|
  {
    Agrees(args, fields, i) && FieldSurvives(table, args[i], fields[i])
  }

  ghost predicate AllFine(table: seq<Ctor>, args: seq<Arg>, fields: seq<Field>, i: nat)
    requires i <= |args| == |fields|
  {
    forall j :: i <= j < |args| ==> Fine(table, args, fields, j)
  }

  lemma FineFrom(table: seq<Ctor>, args: seq<Arg>, fields: seq<Field>, i: nat)
    requires i < |args| == |fields|
    ensures AllFine(table, args, fields, i) <==> Fine(table, args, fields, i) && AllFine(table, args, fields, i + 1)
  {
    hide Fine;
  }

  /** The actuals of a field list, with the fields in order. */
  ghost predicate ActualsOf(table: seq<Ctor>, args: seq<Arg>, fields: seq<Field>, acts: seq<Option<Actual>>) {
    && |args| == |fields| == |acts|
    && FlagsFirst(args) && FieldsFit(table, args, fields)
    && forall j :: 0 <= j < |args| ==> acts[j] == ActualOf(table, args[j], fields[j])
  }

  /** What the deserialiser makes of the bytes from argument `i` on. */
  function Decoded(table: seq<Ctor>, args: seq<Arg>, acts: seq<Option<Actual>>, i: nat, s: seq<Byte>): Read<seq<Field>>
    requires i <= |args| == |acts|
  {
    DecodeArgs(table, args, i, Before(args, acts, i), From(args, acts, i, s))
  }

  lemma OneArg(table: seq<Ctor>, args: seq<Arg>, fields: seq<Field>, acts: seq<Option<Actual>>, i: nat, s: seq<Byte>)
    requires ActualsOf(table, args, fields, acts) && i < |args|
    requires fields[i].Filled? && args[i].Param? ==> FieldExactly(table, args[i], fields[i], From(args, acts, i + 1, s))
    ensures if Fine(table, args, fields, i)
            then Decoded(table, args, acts, i, s) == Glue([fields[i]], Decoded(table, args, acts, i + 1, s))
            else Decoded(table, args, acts, i, s).Got? ==> Decoded(table, args, acts, i, s).value[0] != fields[i]
  {
    FieldFitsAt(table, args, fields, i);
    ActualPresence(table, args, fields, acts);
    hide DecodeArgs, Before, From, ActualOf, FieldsFit, FlagsFirst, FieldFits, SamePresence, TypeFits, DecodeType;
    hide TypeBytes, TypeActual, FieldExactly, TypeSurvives;
    if fields[i].Filled? {
      StepFilled(table, args, fields, acts, i, s);
    } else if args[i].Flags? {
      StepFlags(table, args, acts, i, s);
    } else {
      StepAbsent(table, args, fields, acts, i, s);
    }
  }

  lemma ActualPresence(table: seq<Ctor>, args: seq<Arg>, fields: seq<Field>, acts: seq<Option<Actual>>)
    requires ActualsOf(table, args, fields, acts)
    ensures SamePresence(args, fields, acts) && FlagsFirst(args)
  {
  }

  lemma FieldFitsAt(table: seq<Ctor>, args: seq<Arg>, fields: seq<Field>, i: nat)
    requires |args| == |fields| && FieldsFit(table, args, fields) && i < |args|
    ensures FieldFits(table, args[i], fields[i])
    ensures fields[i].Filled? ==> args[i].Param? && TypeFits(table, args[i].ty, fields[i].value)
  {
  }

  /** What decoding the bytes of a field gives. */
  ghost predicate FieldExactly(table: seq<Ctor>, arg: Arg, f: Field, s: seq<Byte>)
    requires arg.Param? && f.Filled?
  {
    Exactly(DecodeType(table, arg.ty, TypeBytes(arg.ty, TypeActual(table, arg.ty, f.value)) + s), f.value, s,
            TypeSurvives(table, arg.ty, f.value))
  }

  lemma {:induction false} FieldIsExact(table: seq<Ctor>, arg: Arg, f: Field, s: seq<Byte>)
    requires FieldFits(table, arg, f) && f.Filled?
    ensures arg.Param? && FieldExactly(table, arg, f, s)
    decreases f, 3
  {
    TypeExactly(table, arg.ty, f.value, s);
  }

  lemma ArgsCombine(table: seq<Ctor>, args: seq<Arg>, fields: seq<Field>, acts: seq<Option<Actual>>, i: nat,
                    s: seq<Byte>)
    requires |args| == |fields| == |acts| && i < |args|
    requires if Fine(table, args, fields, i)
             then Decoded(table, args, acts, i, s) == Glue([fields[i]], Decoded(table, args, acts, i + 1, s))
             else Decoded(table, args, acts, i, s).Got? ==> Decoded(table, args, acts, i, s).value[0] != fields[i]
    requires Exactly(Decoded(table, args, acts, i + 1, s), fields[i + 1..], s, AllFine(table, args, fields, i + 1))
    ensures Exactly(Decoded(table, args, acts, i, s), fields[i..], s, AllFine(table, args, fields, i))
  {
    hide Decoded, Fine, AllFine;
    FineFrom(table, args, fields, i);
    assert fields[i..] == [fields[i]] + fields[i + 1..];
    if Fine(table, args, fields, i) && !AllFine(table, args, fields, i + 1) {
      GlueDiffers(fields[i], Decoded(table, args, acts, i + 1, s), fields[i], fields[i + 1..]);
    }
  }

  lemma NoArgs(table: seq<Ctor>, args: seq<Arg>, fields: seq<Field>, acts: seq<Option<Actual>>, s: seq<Byte>)
    requires |args| == |fields| == |acts|
    ensures Exactly(Decoded(table, args, acts, |args|, s), fields[|args|..], s, AllFine(table, args, fields, |args|))
  {
    assert From(args, acts, |args|, s) == s && fields[|args|..] == [];
  }

  lemma Actualised(table: seq<Ctor>, args: seq<Arg>, fields: seq<Field>)
    requires |args| == |fields| && FlagsFirst(args) && FieldsFit(table, args, fields)
    ensures ActualsOf(table, args, fields, Actuals(table, args, fields, 0))
  {
    forall j | 0 <= j < |args|
      ensures Actuals(table, args, fields, 0)[j] == ActualOf(table, args[j], fields[j])
    {
      ActualsAt(table, args, fields, 0, j);
    }
  }

  /** The arguments from `i` on come back exactly when each of them is fine. */
  lemma {:induction false} ArgsExactly(table: seq<Ctor>, args: seq<Arg>, fields: seq<Field>,
                                       acts: seq<Option<Actual>>, i: nat, s: seq<Byte>)
    requires |args| == |fields| == |acts| && i <= |args|
    requires ActualsOf(table, args, fields, acts) && FieldsFit(table, args, fields)
    ensures Exactly(Decoded(table, args, acts, i, s), fields[i..], s, AllFine(table, args, fields, i))
    decreases fields, 2, |args| - i
  {
    hide *;
    if i == |args| {
      NoArgs(table, args, fields, acts, s);
    } else {
      ArgsExactly(table, args, fields, acts, i + 1, s);
      if fields[i].Filled? && args[i].Param? {
        FieldFitsAt(table, args, fields, i);
        FieldIsExact(table, args[i], fields[i], From(args, acts, i + 1, s));
      }
      OneArg(table, args, fields, acts, i, s);
      ArgsCombine(table, args, fields, acts, i, s);
    }
  }

  lemma HeaderParts(a: seq<Byte>, body: seq<Byte>, s: seq<Byte>)
    ensures var w := (a + body) + s; w[..|a|] == a && w[|a|..] == body + s
  {
  }

  lemma HeaderRoundTrip(id: nat, body: seq<Byte>, s: seq<Byte>)
    requires id < TWO_32
    ensures var w := (Le(id, 4) + body) + s; |w| >= 4 && FromLe(w[..4]) == id && w[4..] == body + s
  {
    WordSizes();
    LeExact(id, 4);
    hide Le, FromLe, Pow256;
    var w := (Le(id, 4) + body) + s;
    HeaderParts(Le(id, 4), body, s);
  }

  /**
   A value tree comes back from its own bytes, whatever follows them, if and only if in every object of it
   fields that share a flag bit are present together, no vector has more than 100 elements, no C string has
   a NUL inside and no string of bytes has 2^24 or more.
   */
  lemma RoundTripExactly(table: seq<Ctor>, o: Object, s: seq<Byte>)
    requires ObjectFits(table, o)
    ensures DecodeObject(table, Encode(table, o) + s) == Got(Obj(o), s) <==> ObjectSurvives(table, o)
  {
    ObjectExactly(table, o, s);
    hide DecodeObject, Encode, ObjectSurvives;
  }

  /** A tree that does not survive gives another value, or an overrun, however it is cut off. */
  lemma {:induction false} ObjectExactly(table: seq<Ctor>, o: Object, s: seq<Byte>)
    requires ObjectFits(table, o)
    ensures Exactly(DecodeObject(table, Encode(table, o) + s), Obj(o), s, ObjectSurvives(table, o))
    decreases o, 0
  {
    FitsParts(table, o);
    var args := Lookup(table, o.id).value.args;
    var acts := Actuals(table, args, o.fields, 0);
    hide *;
    Actualised(table, args, o.fields);
    ArgsExactly(table, args, o.fields, acts, 0, s);
    AgreesMeansTogether(args, o.fields);
    SurvivesWhenFine(table, o, args);
    DecodeEncoded(table, o, s, AllFine(table, args, o.fields, 0));
  }

  lemma SurvivesWhenFine(table: seq<Ctor>, o: Object, args: seq<Arg>)
    requires Lookup(table, o.id).Some? && Lookup(table, o.id).value.args == args && |args| == |o.fields|
    requires Together(args, o.fields) <==> forall i :: 0 <= i < |args| ==> Agrees(args, o.fields, i)
    ensures o.fields[0..] == o.fields
    ensures ObjectSurvives(table, o) <==> AllFine(table, args, o.fields, 0)
  {
    hide Agrees, Together, FieldSurvives, Lookup;
    if AllFine(table, args, o.fields, 0) {
      forall i | 0 <= i < |args|
        ensures Agrees(args, o.fields, i) && FieldSurvives(table, args[i], o.fields[i])
      {
        assert Fine(table, args, o.fields, i);
      }
    }
  }

  lemma FitsParts(table: seq<Ctor>, o: Object)
    requires ObjectFits(table, o)
    ensures 0 < o.id < TWO_32 && Lookup(table, o.id).Some?
    ensures var args := Lookup(table, o.id).value.args;
            |args| == |o.fields| && FlagsFirst(args) && FieldsFit(table, args, o.fields)
  {
  }

  lemma DecodeEncoded(table: seq<Ctor>, o: Object, s: seq<Byte>, ok: bool)
    requires 0 < o.id < TWO_32 && Lookup(table, o.id).Some?
    requires var args := Lookup(table, o.id).value.args;
             && |args| == |o.fields|
             && Exactly(Decoded(table, args, Actuals(table, args, o.fields, 0), 0, s), o.fields, s, ok)
    ensures Exactly(DecodeObject(table, Encode(table, o) + s), Obj(o), s, ok)
  {
    var args := Lookup(table, o.id).value.args;
    var acts := Actuals(table, args, o.fields, 0);
    assert Encode(table, o) == Le(o.id, 4) + Tail(args, acts, FlagValues(args, acts), 0) by {
      LookupFinds(table, o.id);
      hide Tail, FlagWords, Actuals, FlagCount;
    }
    assert Before(args, acts, 0) == [];
    assert From(args, acts, 0, s) == Tail(args, acts, FlagValues(args, acts), 0) + s;
    hide *;
    HeaderRoundTrip(o.id, Tail(args, acts, FlagValues(args, acts), 0), s);
    DecodedFirst(table, args, acts, s);
    DecodeExactly(table, o, args, Encode(table, o) + s, s, ok);
  }

  lemma DecodedFirst(table: seq<Ctor>, args: seq<Arg>, acts: seq<Option<Actual>>, s: seq<Byte>)
    requires |args| == |acts| && Before(args, acts, 0) == []
    ensures Decoded(table, args, acts, 0, s) == DecodeArgs(table, args, 0, [], From(args, acts, 0, s))
  {
    hide DecodeArgs, Before, From;
  }

  lemma {:induction false} LookupFinds(table: seq<Ctor>, id: nat)
    ensures Lookup(table, id).Some? ==> Lookup(table, id).value in table && Lookup(table, id).value.id == id
    ensures Lookup(table, id).None? ==> forall c :: c in table ==> c.id != id
    ensures Lookup(table, id).Some? ==>
              exists k ::
                && 0 <= k < |table| && table[k] == Lookup(table, id).value
                && forall j :: 0 <= j < k ==> table[j].id != id
  {
    if table != [] {
      LookupFinds(table[1..], id);
      if table[0].id != id && Lookup(table[1..], id).Some? {
        var k :| 0 <= k < |table[1..]| && table[1..][k] == Lookup(table[1..], id).value
                 && forall j :: 0 <= j < k ==> table[1..][j].id != id;
        assert table[k + 1] == Lookup(table, id).value;
        assert forall j :: 0 <= j < k + 1 ==> table[j].id != id by {
          forall j | 0 <= j < k + 1
            ensures table[j].id != id
          {
            assert j > 0 ==> table[j] == table[1..][j - 1];
          }
        }
      }
      assert forall c :: c in table ==> c == table[0] || c in table[1..];
    }
  }

  lemma DecodeKnown(table: seq<Ctor>, o: Object, args: seq<Arg>, w: seq<Byte>, s: seq<Byte>)
    requires |w| >= 4 && FromLe(w[..4]) == o.id && o.id > 0
    requires Lookup(table, o.id).Some? && Lookup(table, o.id).value.args == args
    ensures DecodeObject(table, w) == Got(Obj(o), s) <==> DecodeArgs(table, args, 0, [], w[4..]) == Got(o.fields, s)
  {
    hide DecodeArgs;
  }

  lemma DecodeExactly(table: seq<Ctor>, o: Object, args: seq<Arg>, w: seq<Byte>, s: seq<Byte>, ok: bool)
    requires |w| >= 4 && FromLe(w[..4]) == o.id && o.id > 0
    requires Lookup(table, o.id).Some? && Lookup(table, o.id).value.args == args
    requires Exactly(DecodeArgs(table, args, 0, [], w[4..]), o.fields, s, ok)
    ensures Exactly(DecodeObject(table, w), Obj(o), s, ok)
  {
    hide DecodeArgs, Lookup;
  }

  /**
   Every tree that survives comes back from its own bytes, whatever follows them, and exactly what follows
   them is left.
   */
  lemma ObjectRoundTrip(table: seq<Ctor>, o: Object, s: seq<Byte>)
    requires ObjectOk(table, o)
    ensures DecodeObject(table, Encode(table, o) + s) == Got(Obj(o), s)
  {
    RoundTripExactly(table, o, s);
    hide DecodeObject, Encode, ObjectSurvives, ObjectFits;
  }

  // ---------- two values that do not come back ----------

  /** A vector of 101 zeros is written, and refused when read. */
  lemma LongVectorIsLost(vs: seq<Value>, s: seq<Byte>)
    requires |vs| == 101 && forall i :: 0 <= i < |vs| ==> vs[i] == Word(0)
    ensures TypeActual([], Vector(IInt), List(vs)) == AList(ItemActuals([], vs)) && |ItemActuals([], vs)| == 101
    ensures DecodeType([], Vector(IInt), TypeBytes(Vector(IInt), TypeActual([], Vector(IInt), List(vs))) + s)
         != Got(List(vs), s)
  {
    assert ItemsFit([], IInt, vs);
    hide ItemsFit, ItemsSurvive, ItemActuals, DecodeType, TypeBytes;
    VectorRoundTrip([], IInt, vs, s);
  }

  /** Two optional numbers under one flag bit, only the first of them given: the object does not come back. */
  lemma LoneFieldIsLost(s: seq<Byte>)
    ensures var args := [Flags, Param(One(IInt), 1, 0), Param(One(IInt), 1, 0)];
            var table, o := [Ctor(1, args)], Object(1, [Absent, Filled(Word(5)), Absent]);
            ObjectFits(table, o) && DecodeObject(table, Encode(table, o) + s) != Got(Obj(o), s)
  {
    var args := [Flags, Param(One(IInt), 1, 0), Param(One(IInt), 1, 0)];
    var table, o := [Ctor(1, args)], Object(1, [Absent, Filled(Word(5)), Absent]);
    LoneFieldFits(table, args, o);
    assert Lookup(table, 1) == Some(table[0]);
    assert !ObjectSurvives(table, o) by {
      assert Shares(args[1], args[2]);
    }
    hide *;
    RoundTripExactly(table, o, s);
  }

  lemma LoneFieldFits(table: seq<Ctor>, args: seq<Arg>, o: Object)
    requires args == [Flags, Param(One(IInt), 1, 0), Param(One(IInt), 1, 0)]
    requires table == [Ctor(1, args)] && o == Object(1, [Absent, Filled(Word(5)), Absent])
    ensures ObjectFits(table, o)
  {
    assert Lookup(table, 1) == Some(table[0]);
    assert FlagCount(args, 1) == 1 && FlagCount(args, 2) == 1;
    assert FlagsFirst(args);
    assert FieldsFit(table, args, o.fields);
  }
}
