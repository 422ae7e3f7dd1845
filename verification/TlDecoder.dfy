/** The generated deserialisers as code: one buffer consumed in place, objects filled field by field. */
module TlDecoder {
  import opened Bytes
  import opened Options
  import opened TlPrimitives
  import opened TlSchema

  /** `get_fun`. */
  method GetFun(table: seq<Ctor>, id: nat) returns (fun: Option<Ctor>)
    ensures fun == Lookup(table, id)
  {
    var i := 0;
    while i < |table|
      invariant i <= |table|
      invariant Lookup(table, id) == Lookup(table[i..], id)
    {
      if table[i].id == id {
        return Some(table[i]);
      }
      assert table[i..][1..] == table[i + 1..];
      i := i + 1;
    }
    assert table[i..] == [];
    fun := None;
  }

  /** A reader method did what the specification `want` says. */
  ghost predicate Did<T>(ok: bool, v: T, rest: seq<Byte>, want: Read<T>) {
    if ok then want == Got(v, rest) else want == Overrun
  }

  lemma GlueLaws<T>(a: seq<T>, b: seq<T>, r: Read<seq<T>>, rest: seq<Byte>)
    ensures Glue([], r) == r
    ensures Glue(a, Glue(b, r)) == Glue(a + b, r)
    ensures Glue(a, Got([], rest)) == Got(a, rest)
  {
    if r.Got? {
      assert [] + r.value == r.value && a + (b + r.value) == (a + b) + r.value;
    }
    assert a + [] == a;
  }

  /** `deserialize_mtp_message`. */
  method DeserializeMessage(r: Reader) returns (ok: bool, v: Value)
    modifies r
    ensures Did(ok, v, r.data, DecodeMessage(old(r.data)))
  {
    v := Null;
    var msgId, seqno, size;
    var body: seq<Byte>;
    ghost var s := r.data;
    ok, msgId := r.Word(8);
    if !ok { return; }
    ok, seqno := r.Word(4);
    if !ok { return; }
    assert s[8..][..4] == s[8..12];
    ok, size := r.Word(4);
    if !ok { return; }
    assert s[8..][4..][..4] == s[12..16] && s[8..][4..][4..] == s[16..];
    if size >= 0x8000_0000 {
      return false, Null;
    }
    ok, body := r.Block(size);
    if !ok { return; }
    assert s[16..][..size] == s[16..16 + size] && s[16..][size..] == s[16 + size..];
    v := Message(msgId, seqno, body);
  }

  /** `tl_deserialize` and the function of the constructor it finds. */
  method DeserializeObject(table: seq<Ctor>, r: Reader) returns (ok: bool, v: Value)
    modifies r
    ensures Did(ok, v, r.data, DecodeObject(table, old(r.data)))
    decreases |r.data|, 1
  {
    if |r.data| < 4 {
      return false, Null;
    }
    var id := FromLe(r.data[..4]);
    if id == 0 {
      return true, Null;
    }
    var fun := GetFun(table, id);
    if fun.None? {
      return true, Null;
    }
    var fields;
    ok, fields := DeserializeArgs(table, fun.value.args, r);
    v := if ok then Obj(Object(id, fields)) else Null;
  }

  /** The body of a generated deserialiser: reads the id again, then every argument in turn. */
  method DeserializeArgs(table: seq<Ctor>, args: seq<Arg>, r: Reader) returns (ok: bool, fields: seq<Field>)
    requires |r.data| >= 4
    modifies r
    ensures Did(ok, fields, r.data, DecodeArgs(table, args, 0, [], old(r.data)[4..]))
    decreases |r.data|, 0
  {
    var id;
    ok, id := r.Word(4);
    fields := [];
    var flags: seq<nat> := [];
    var i := 0;
    ghost var want := DecodeArgs(table, args, 0, [], r.data);
    GlueLaws(fields, fields, want, []);
    while i < |args|
      invariant |fields| == i <= |args| && |r.data| < |old(r.data)|
      invariant want == Glue(fields, DecodeArgs(table, args, i, flags, r.data))
      decreases |args| - i
    {
      ghost var before := fields;
      match args[i] {
        case Flags =>
          var flag;
          ok, flag := r.Word(4);
          if !ok { return; }
          flags := flags + [flag];
          fields := fields + [Absent];
        case Unused =>
          fields := fields + [Absent];
        case Param(ty, flagn, flagb) =>
          if Wanted(flags, flagn, flagb) {
            var v;
            ok, v := DeserializeType(table, ty, r);
            if !ok { return; }
            fields := fields + [Filled(v)];
            if v.BadLength? {
              assert before + ([Filled(v)] + Absents(|args| - i - 1)) == fields + Absents(|args| - i - 1);
              return true, fields + Absents(|args| - i - 1);
            }
          } else {
            fields := fields + [Absent];
          }
      }
      i := i + 1;
      GlueLaws(before, fields[i - 1..], DecodeArgs(table, args, i, flags, r.data), []);
    }
    GlueLaws(fields, fields, want, r.data);
    ok := true;
  }

  method DeserializeType(table: seq<Ctor>, ty: Type, r: Reader) returns (ok: bool, v: Value)
    modifies r
    ensures Did(ok, v, r.data, DecodeType(table, ty, old(r.data)))
    decreases |r.data|, 3
  {
    match ty {
      case One(item) => ok, v := DeserializeItem(table, if item == IMessage then IObject else item, r);
      case Fixed(n) =>
        var b;
        ok, b := r.Block(n);
        v := Blob(b);
      case True => return true, Present;
      case Vector(item) => ok, v := DeserializeVector(table, item, r);
    }
  }

  /** The optional vector id, the length, the elements. */
  method DeserializeVector(table: seq<Ctor>, item: Item, r: Reader) returns (ok: bool, v: Value)
    modifies r
    ensures Did(ok, v, r.data, DecodeType(table, Vector(item), old(r.data)))
    decreases |r.data|, 2
  {
    v := Null;
    ghost var s := r.data;
    var count;
    ok, count := r.Word(4);
    if !ok { return; }
    if count == ID_VECTOR {
      ok, count := r.Word(4);
      if !ok { return; }
      assert s[4..][..4] == s[4..8] && s[4..][4..] == s[8..];
    }
    if count > 100 {
      return true, BadLength;
    }
    var items;
    ok, items := DeserializeItems(table, item, count, r);
    v := List(items);
  }

  method DeserializeItems(table: seq<Ctor>, item: Item, count: nat, r: Reader) returns (ok: bool, items: seq<Value>)
    modifies r
    ensures Did(ok, items, r.data, DecodeItems(table, item, count, old(r.data)))
    decreases |r.data|, 3
  {
    hide DecodeItem;
    ghost var s := r.data;
    items := [];
    var i := 0;
    GlueLaws(items, items, DecodeItems(table, item, count, s), s);
    while i < count
      invariant i <= count && |r.data| <= |s|
      invariant DecodeItems(table, item, count, s) == Glue(items, DecodeItems(table, item, count - i, r.data))
      decreases count - i
    {
      var x;
      ok, x := DeserializeItem(table, item, r);
      if !ok { return; }
      GlueLaws(items, [x], DecodeItems(table, item, count - i - 1, r.data), []);
      items := items + [x];
      i := i + 1;
    }
    GlueLaws(items, items, DecodeItems(table, item, 0, r.data), r.data);
    ok := true;
  }

  method DeserializeItem(table: seq<Ctor>, item: Item, r: Reader) returns (ok: bool, v: Value)
    modifies r
    ensures Did(ok, v, r.data, DecodeItem(table, item, old(r.data)))
    decreases |r.data|, 2
  {
    var n: nat;
    var b: seq<Byte>;
    match item {
      case IInt =>
        ok, n := r.Word(4);
        v := Word(n);
      case IBool =>
        ok, n := r.Word(4);
        v := Word(if n == 0 then 0 else 1);
      case ILong =>
        ok, n := r.Word(8);
        v := Word(n);
      case IDouble =>
        ok, n := r.Word(8);
        v := Word(n);
      case IString =>
        ok, b := r.Bytes();
        v := Blob(b);
      case IStr =>
        ok, b := r.Bytes();
        v := Blob(b);
      case IBytes =>
        ok, b := r.Bytes();
        v := Blob(b);
      case IMessage => ok, v := DeserializeMessage(r);
      case IObject => ok, v := DeserializeObject(table, r);
    }
  }
}
