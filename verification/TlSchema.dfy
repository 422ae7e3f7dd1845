/**
 Constructors of the Type Language as the generator sees them, the values they
 describe, and what the generated serialiser and deserialiser compute.
 */
module TlSchema {
  import opened Bytes
  import opened Options
  import opened TlPrimitives

  const ID_VECTOR: nat := 0x1cb5c415

  /** What one value, or one element of a vector, can be. `IStr` is a string of the mtproto schema. */
  datatype Item = IInt | IBool | ILong | IDouble | IString | IStr | IBytes | IMessage | IObject

  datatype Type = One(item: Item) | Fixed(size: nat) | True | Vector(item: Item)

  /** An argument: a flag word, an argument the generator skips, or a parameter; flagn = 0 means mandatory. */
  datatype Arg = Flags | Unused | Param(ty: Type, flagn: nat, flagb: nat)

  datatype Ctor = Ctor(id: nat, args: seq<Arg>)

  datatype Value =
    | Word(n: nat)
    | Blob(b: seq<Byte>)
    | Present
    | List(items: seq<Value>)
    | Message(msgId: nat, seqno: nat, body: seq<Byte>)
    | Obj(o: Object)
    | Null
    | BadLength

  /** One field per argument; flag words, skipped arguments and missing fields are absent. */
  datatype Object = Object(id: nat, fields: seq<Field>)

  datatype Field = Absent | Filled(value: Value)

  /** `get_fun`: the first entry of the table with this id. */
  function Lookup(table: seq<Ctor>, id: nat): Option<Ctor> {
    if table == [] then None
    else if table[0].id == id then Some(table[0])
    else Lookup(table[1..], id)
  }

  // ---------- the generated serialiser ----------

  /** What a serialiser is called with: nested objects and messages are already bytes. */
  datatype Actual = AWord(n: nat) | ABlob(b: seq<Byte>) | APresent | AList(items: seq<Actual>)

  function ItemBytes(item: Item, a: Actual): seq<Byte> {
    match (item, a)
    case (IInt, AWord(n)) => Le(n, 4)
    case (IBool, AWord(n)) => Le(n, 4)
    case (ILong, AWord(n)) => Le(n, 8)
    case (IDouble, AWord(n)) => Le(n, 8)
    case (IString, ABlob(b)) => PackBytes(CString(b))
    case (IStr, ABlob(b)) => PackBytes(b)
    case (IBytes, ABlob(b)) => PackBytes(b)
    case (IMessage, ABlob(b)) => b
    case (IObject, ABlob(b)) => b
    case _ => []
  }

  function ItemsBytes(item: Item, items: seq<Actual>): seq<Byte> {
    if items == [] then [] else ItemBytes(item, items[0]) + ItemsBytes(item, items[1..])
  }

  function TypeBytes(ty: Type, a: Actual): seq<Byte> {
    match ty
    case One(item) => ItemBytes(item, a)
    case Fixed(_) => if a.ABlob? then a.b else []
    case True => []
    case Vector(item) => if a.AList? then Le(ID_VECTOR, 4) + Le(|a.items|, 4) + ItemsBytes(item, a.items) else []
  }

  /** The number of flag words among the first `i` arguments. */
  function FlagCount(args: seq<Arg>, i: nat): (c: nat)
    requires i <= |args|
    ensures c <= i
  {
    if i == 0 then 0 else FlagCount(args, i - 1) + (if args[i - 1].Flags? then 1 else 0)
  }

  /** The bits of flag word `k` (counted from 1) set by the first `i` arguments. */
  function FlagWord(args: seq<Arg>, acts: seq<Option<Actual>>, k: nat, i: nat): nat
    requires i <= |args| == |acts|
  {
    if i == 0 then 0
    else
      var w := FlagWord(args, acts, k, i - 1);
      if args[i - 1].Param? && args[i - 1].flagn == k && acts[i - 1].Some? then SetBit(w, args[i - 1].flagb) else w
  }

  /** The bytes of argument `i`, flag words having the values `fv`. */
  function Piece(args: seq<Arg>, acts: seq<Option<Actual>>, fv: seq<nat>, i: nat): seq<Byte>
    requires i < |args| == |acts|
  {
    match args[i]
    case Flags => Le(if FlagCount(args, i) < |fv| then fv[FlagCount(args, i)] else 0, 4)
    case Unused => []
    case Param(ty, _, _) => if acts[i].Some? then TypeBytes(ty, acts[i].value) else []
  }

  /** The bytes of arguments `i` and after. */
  function Tail(args: seq<Arg>, acts: seq<Option<Actual>>, fv: seq<nat>, i: nat): seq<Byte>
    requires i <= |args| == |acts|
    decreases |args| - i
  {
    if i == |args| then [] else Piece(args, acts, fv, i) + Tail(args, acts, fv, i + 1)
  }

  /** The final values of all flag words. */
  function FlagWords(args: seq<Arg>, acts: seq<Option<Actual>>, count: nat): (fv: seq<nat>)
    requires |args| == |acts|
    ensures |fv| == count
    ensures forall k :: 0 <= k < count ==> fv[k] == FlagWord(args, acts, k + 1, |args|)
  {
    if count == 0 then [] else FlagWords(args, acts, count - 1) + [FlagWord(args, acts, count, |args|)]
  }

  /** The output of the serialiser generated for a constructor. */
  function Emit(ctor: Ctor, acts: seq<Option<Actual>>): seq<Byte>
    requires |acts| == |ctor.args|
  {
    Le(ctor.id, 4) + Tail(ctor.args, acts, FlagWords(ctor.args, acts, FlagCount(ctor.args, |ctor.args|)), 0)
  }

  // ---------- a whole value tree ----------

  function MessageBytes(msgId: nat, seqno: nat, body: seq<Byte>): seq<Byte> {
    Le(msgId, 8) + Le(seqno, 4) + Le(|body|, 4) + body
  }

  /** Serialises the children first, as callers of the generated functions do. */
  function Encode(table: seq<Ctor>, o: Object): seq<Byte>
    decreases o, 1
  {
    match Lookup(table, o.id)
    case None => []
    case Some(ctor) => if |ctor.args| != |o.fields| then [] else Emit(ctor, Actuals(table, ctor.args, o.fields, 0))
  }

  function Actuals(table: seq<Ctor>, args: seq<Arg>, fields: seq<Field>, i: nat): (acts: seq<Option<Actual>>)
    requires i <= |args| == |fields|
    ensures |acts| == |fields| - i
    decreases fields, |fields| - i
  {
    if i == |fields| then []
    else [ActualOf(table, args[i], fields[i])] + Actuals(table, args, fields, i + 1)
  }

  function ActualOf(table: seq<Ctor>, arg: Arg, f: Field): Option<Actual>
    decreases f, 0
  {
    if arg.Param? && f.Filled? then Some(TypeActual(table, arg.ty, f.value)) else None
  }

  function TypeActual(table: seq<Ctor>, ty: Type, v: Value): Actual
    decreases v, 2
  {
    match ty
    case Vector(item) => AList(if v.List? then ItemActuals(table, v.items) else [])
    case _ => ItemActual(table, v)
  }

  function ItemActuals(table: seq<Ctor>, vs: seq<Value>): (acts: seq<Actual>)
    ensures |acts| == |vs|
    decreases vs, 0
  {
    if vs == [] then [] else [ItemActual(table, vs[0])] + ItemActuals(table, vs[1..])
  }

  function ItemActual(table: seq<Ctor>, v: Value): Actual
    decreases v, 1
  {
    match v
    case Word(n) => AWord(n)
    case Blob(b) => ABlob(b)
    case Message(msgId, seqno, body) => ABlob(MessageBytes(msgId, seqno, body))
    case Obj(o) => ABlob(Encode(table, o))
    case _ => APresent
  }

  // ---------- the generated deserialiser ----------

  /** `tl_deserialize`: dispatches on the id; id 0 and unknown ids give a null object and consume nothing. */
  function DecodeObject(table: seq<Ctor>, s: seq<Byte>): (r: Read<Value>)
    ensures r.Got? ==> |r.rest| <= |s|
    decreases |s|, 0
  {
    if |s| < 4 then Overrun
    else
      var id := FromLe(s[..4]);
      if id == 0 then Got(Null, s)
      else
        match Lookup(table, id)
        case None => Got(Null, s)
        case Some(ctor) =>
          match DecodeArgs(table, ctor.args, 0, [], s[4..])
          case Overrun => Overrun
          case Got(fields, rest) => Got(Obj(Object(id, fields)), rest)
  }

  /** The fields of arguments `i` and after, given the flag words read so far. */
  function DecodeArgs(table: seq<Ctor>, args: seq<Arg>, i: nat, flags: seq<nat>, s: seq<Byte>): (r: Read<seq<Field>>)
    requires i <= |args|
    ensures r.Got? ==> |r.rest| <= |s| && |r.value| == |args| - i
    decreases |s|, 4, |args| - i
  {
    if i == |args| then Got([], s)
    else
      match args[i]
      case Flags =>
        if |s| < 4 then Overrun
        else Glue([Absent], DecodeArgs(table, args, i + 1, flags + [FromLe(s[..4])], s[4..]))
      case Unused => Glue([Absent], DecodeArgs(table, args, i + 1, flags, s))
      case Param(ty, flagn, flagb) =>
        if !Wanted(flags, flagn, flagb) then Glue([Absent], DecodeArgs(table, args, i + 1, flags, s))
        else
          match DecodeType(table, ty, s)
          case Overrun => Overrun
          case Got(v, rest) =>
            if v.BadLength? then Got([Filled(v)] + Absents(|args| - i - 1), rest)
            else Glue([Filled(v)], DecodeArgs(table, args, i + 1, flags, rest))
  }

  /** Mandatory, or its flag bit is set. */
  predicate Wanted(flags: seq<nat>, flagn: nat, flagb: nat) {
    flagn == 0 || (flagn <= |flags| && Bit(flags[flagn - 1], flagb))
  }

  function Absents(k: nat): (s: seq<Field>)
    ensures |s| == k
  {
    if k == 0 then [] else [Absent] + Absents(k - 1)
  }

  /** Puts what was read before in front of what is read next. */
  function Glue<T>(before: seq<T>, r: Read<seq<T>>): Read<seq<T>> {
    match r
    case Overrun => Overrun
    case Got(xs, rest) => Got(before + xs, rest)
  }

  function DecodeType(table: seq<Ctor>, ty: Type, s: seq<Byte>): (r: Read<Value>)
    ensures r.Got? ==> |r.rest| <= |s|
    decreases |s|, 3
  {
    match ty
    case One(item) => DecodeItem(table, if item == IMessage then IObject else item, s)
    case Fixed(n) => AsBlob(Take(s, n))
    case True => Got(Present, s)
    case Vector(item) =>
      if |s| < 4 then Overrun
      else
        var first := FromLe(s[..4]);
        if first == ID_VECTOR then
          if |s| < 8 then Overrun else DecodeVector(table, item, FromLe(s[4..8]), s[8..])
        else DecodeVector(table, item, first, s[4..])
  }

  function AsBlob(r: Read<seq<Byte>>): Read<Value> {
    match r
    case Overrun => Overrun
    case Got(b, rest) => Got(Blob(b), rest)
  }

  function AsWord(r: Read<nat>): Read<Value> {
    match r
    case Overrun => Overrun
    case Got(n, rest) => Got(Word(n), rest)
  }

  /** Lengths are checked as C ints: negative ones and those above 100 are refused. */
  function DecodeVector(table: seq<Ctor>, item: Item, count: nat, s: seq<Byte>): (r: Read<Value>)
    ensures r.Got? ==> |r.rest| <= |s|
    decreases |s|, 3
  {
    if count > 100 then Got(BadLength, s)
    else
      match DecodeItems(table, item, count, s)
      case Overrun => Overrun
      case Got(vs, rest) => Got(List(vs), rest)
  }

  function DecodeItems(table: seq<Ctor>, item: Item, count: nat, s: seq<Byte>): (r: Read<seq<Value>>)
    ensures r.Got? ==> |r.rest| <= |s| && |r.value| == count
    decreases |s|, 2, count
  {
    if count == 0 then Got([], s)
    else
      match DecodeItem(table, item, s)
      case Overrun => Overrun
      case Got(v, rest) => Glue([v], DecodeItems(table, item, count - 1, rest))
  }

  function DecodeItem(table: seq<Ctor>, item: Item, s: seq<Byte>): (r: Read<Value>)
    ensures r.Got? ==> |r.rest| <= |s|
    decreases |s|, 1
  {
    match item
    case IInt => AsWord(TakeWord(s, 4))
    case IBool =>
      (match TakeWord(s, 4)
       case Overrun => Overrun
       case Got(n, rest) => Got(Word(if n == 0 then 0 else 1), rest))
    case ILong => AsWord(TakeWord(s, 8))
    case IDouble => AsWord(TakeWord(s, 8))
    case IString => AsBlob(UnpackBytes(s))
    case IStr => AsBlob(UnpackBytes(s))
    case IBytes => AsBlob(UnpackBytes(s))
    case IMessage => DecodeMessage(s)
    case IObject => DecodeObject(table, s)
  }

  /** `deserialize_mtp_message`; the size is a C int. */
  function DecodeMessage(s: seq<Byte>): (r: Read<Value>)
    ensures r.Got? ==> |r.rest| <= |s|
  {
    if |s| < 16 then Overrun
    else
      var size := FromLe(s[12..16]);
      if size >= 0x8000_0000 || size > |s| - 16 then Overrun
      else Got(Message(FromLe(s[..8]), FromLe(s[8..12]), s[16..16 + size]), s[16 + size..])
  }
}
