/** The generated code itself: output built and patched in place, input consumed in place. */
module TlCodec {
  import opened Bytes
  import opened Options
  import opened TlPrimitives
  import opened TlSchema
  import opened TlRoundTrip

  // ---------- serialising ----------

  /** The output after the first `i` arguments, flag words having the values `fv`. */
  function Head(ctor: Ctor, acts: seq<Option<Actual>>, fv: seq<nat>, i: nat): seq<Byte>
    requires i <= |ctor.args| == |acts|
  {
    if i == 0 then Le(ctor.id, 4) else Head(ctor, acts, fv, i - 1) + Piece(ctor.args, acts, fv, i - 1)
  }

  lemma {:induction false} HeadThenTail(ctor: Ctor, acts: seq<Option<Actual>>, fv: seq<nat>, i: nat)
    requires i <= |ctor.args| == |acts|
    ensures Head(ctor, acts, fv, i) + Tail(ctor.args, acts, fv, i) == Le(ctor.id, 4) + Tail(ctor.args, acts, fv, 0)
  {
    hide Piece, Le;
    if i > 0 {
      HeadThenTail(ctor, acts, fv, i - 1);
      var h, p, t := Head(ctor, acts, fv, i - 1), Piece(ctor.args, acts, fv, i - 1), Tail(ctor.args, acts, fv, i);
      assert Head(ctor, acts, fv, i) == h + p && Tail(ctor.args, acts, fv, i - 1) == p + t;
      hide *;
      assert h + (p + t) == (h + p) + t;
    }
  }

  /** Where flag word `k` sits in the output. */
  function FlagPos(ctor: Ctor, acts: seq<Option<Actual>>, k: nat, i: nat): nat
    requires i <= |ctor.args| == |acts| && k < FlagCount(ctor.args, i)
  {
    if ctor.args[i - 1].Flags? && FlagCount(ctor.args, i - 1) == k then |Head(ctor, acts, [], i - 1)|
    else FlagPos(ctor, acts, k, i - 1)
  }

  /** The value of a flag word never moves anything. */
  lemma {:induction false} HeadLength(ctor: Ctor, acts: seq<Option<Actual>>, fv: seq<nat>, i: nat)
    requires i <= |ctor.args| == |acts|
    ensures |Head(ctor, acts, fv, i)| == |Head(ctor, acts, [], i)|
  {
    if i > 0 {
      HeadLength(ctor, acts, fv, i - 1);
      hide TypeBytes;
    }
  }

  /** `*p = w`: four bytes of the output replaced. */
  function Patch(buf: seq<Byte>, p: nat, w: seq<Byte>): seq<Byte>
    requires p + |w| <= |buf|
  {
    buf[..p] + w + buf[p + |w|..]
  }

  lemma PatchInside(a: seq<Byte>, b: seq<Byte>, p: nat, w: seq<Byte>)
    requires p + |w| <= |a|
    ensures Patch(a + b, p, w) == Patch(a, p, w) + b
    ensures (a + b)[p..p + |w|] == a[p..p + |w|]
  {
  }

  lemma PatchEnd(a: seq<Byte>, b: seq<Byte>, w: seq<Byte>)
    requires |b| == |w|
    ensures Patch(a + b, |a|, w) == a + w
    ensures (a + b)[|a|..|a| + |w|] == b
  {
  }

  /** Words not yet written do not show in the output. */
  lemma {:induction false} HeadIgnoresLater(ctor: Ctor, acts: seq<Option<Actual>>, fv: seq<nat>, gv: seq<nat>, i: nat)
    requires i <= |ctor.args| == |acts|
    requires FlagCount(ctor.args, i) <= |fv| && FlagCount(ctor.args, i) <= |gv|
    requires fv[..FlagCount(ctor.args, i)] == gv[..FlagCount(ctor.args, i)]
    ensures Head(ctor, acts, fv, i) == Head(ctor, acts, gv, i)
  {
    if i > 0 {
      var c, d := FlagCount(ctor.args, i - 1), FlagCount(ctor.args, i);
      assert fv[..c] == fv[..d][..c] && gv[..c] == gv[..d][..c];
      HeadIgnoresLater(ctor, acts, fv, gv, i - 1);
      if ctor.args[i - 1].Flags? {
        assert fv[c] == fv[..d][c] && gv[c] == gv[..d][c];
      }
      hide TypeBytes, Head;
      assert Piece(ctor.args, acts, fv, i - 1) == Piece(ctor.args, acts, gv, i - 1);
      HeadUnfold(ctor, acts, fv, i);
      HeadUnfold(ctor, acts, gv, i);
    }
  }

  lemma HeadUnfold(ctor: Ctor, acts: seq<Option<Actual>>, fv: seq<nat>, i: nat)
    requires 0 < i <= |ctor.args| == |acts|
    ensures Head(ctor, acts, fv, i) == Head(ctor, acts, fv, i - 1) + Piece(ctor.args, acts, fv, i - 1)
  {
    hide Piece;
  }

  /** Only the piece of a flag word depends on its value. */
  lemma OtherPiece(args: seq<Arg>, acts: seq<Option<Actual>>, fv: seq<nat>, k: nat, w: nat, i: nat)
    requires i < |args| == |acts| && k < |fv| && FlagCount(args, i + 1) <= |fv|
    requires !(args[i].Flags? && FlagCount(args, i) == k)
    ensures Piece(args, acts, fv[k := w], i) == Piece(args, acts, fv, i)
  {
  }

  lemma CountStep(args: seq<Arg>, i: nat)
    requires 0 < i <= |args|
    ensures FlagCount(args, i) == FlagCount(args, i - 1) + (if args[i - 1].Flags? then 1 else 0)
  {
  }

  /** Flag word `k` is written where its position says. */
  lemma OwnPiece(ctor: Ctor, acts: seq<Option<Actual>>, fv: seq<nat>, k: nat, i: nat)
    requires 0 < i <= |ctor.args| == |acts| && k < FlagCount(ctor.args, i) <= |fv|
    requires ctor.args[i - 1].Flags? && FlagCount(ctor.args, i - 1) == k
    ensures Piece(ctor.args, acts, fv, i - 1) == Le(fv[k], 4)
    ensures FlagPos(ctor, acts, k, i) == |Head(ctor, acts, [], i - 1)|
  {
    hide Head, Le;
  }

  lemma SamePos(ctor: Ctor, acts: seq<Option<Actual>>, k: nat, i: nat)
    requires 0 < i <= |ctor.args| == |acts| && k < FlagCount(ctor.args, i)
    requires !(ctor.args[i - 1].Flags? && FlagCount(ctor.args, i - 1) == k)
    ensures FlagPos(ctor, acts, k, i) == FlagPos(ctor, acts, k, i - 1)
  {
    hide Head;
  }

  /** Overwriting flag word `k` where it was written first is writing it right from the start. */
  lemma {:induction false} PatchHead(ctor: Ctor, acts: seq<Option<Actual>>, fv: seq<nat>, k: nat, w: nat, i: nat)
    requires i <= |ctor.args| == |acts| && k < FlagCount(ctor.args, i) <= |fv|
    ensures FlagPos(ctor, acts, k, i) + 4 <= |Head(ctor, acts, fv, i)|
    ensures Patch(Head(ctor, acts, fv, i), FlagPos(ctor, acts, k, i), Le(w, 4)) == Head(ctor, acts, fv[k := w], i)
    ensures Head(ctor, acts, fv, i)[FlagPos(ctor, acts, k, i)..FlagPos(ctor, acts, k, i) + 4] == Le(fv[k], 4)
  {
    assert i > 0;
    CountStep(ctor.args, i);
    hide *;
    var c := FlagCount(ctor.args, i - 1);
    var gv := fv[k := w];
    HeadUnfold(ctor, acts, fv, i);
    HeadUnfold(ctor, acts, gv, i);
    var h, p := Head(ctor, acts, fv, i - 1), Piece(ctor.args, acts, fv, i - 1);
    if ctor.args[i - 1].Flags? && c == k {
      HeadLength(ctor, acts, fv, i - 1);
      assert fv[..c] == gv[..c];
      HeadIgnoresLater(ctor, acts, fv, gv, i - 1);
      OwnPiece(ctor, acts, fv, k, i);
      OwnPiece(ctor, acts, gv, k, i);
      PatchEnd(h, p, Le(w, 4));
    } else {
      PatchHead(ctor, acts, fv, k, w, i - 1);
      OtherPiece(ctor.args, acts, fv, k, w, i - 1);
      SamePos(ctor, acts, k, i);
      PatchInside(h, p, FlagPos(ctor, acts, k, i), Le(w, 4));
    }
  }

  method SerializeItem(item: Item, a: Actual) returns (s: seq<Byte>)
    ensures s == ItemBytes(item, a)
  {
    match (item, a) {
      case (IInt, AWord(n)) => s := Le(n, 4);
      case (IBool, AWord(n)) => s := Le(n, 4);
      case (ILong, AWord(n)) => s := Le(n, 8);
      case (IDouble, AWord(n)) => s := Le(n, 8);
      case (IString, ABlob(b)) => s := SerializeString(b);
      case (IStr, ABlob(b)) => s := SerializeBytes(b);
      case (IBytes, ABlob(b)) => s := SerializeBytes(b);
      case (IMessage, ABlob(b)) => s := b;
      case (IObject, ABlob(b)) => s := b;
      case _ => s := [];
    }
  }

  lemma {:induction false} ItemsBytesGrow(item: Item, items: seq<Actual>, i: nat)
    requires i < |items|
    ensures ItemsBytes(item, items[..i + 1]) == ItemsBytes(item, items[..i]) + ItemBytes(item, items[i])
  {
    hide ItemBytes;
    if i == 0 {
      assert items[..1] == [items[0]] && items[..0] == [];
      assert ItemsBytes(item, []) == [];
      assert ItemsBytes(item, [items[0]]) == ItemBytes(item, items[0]) + ItemsBytes(item, [items[0]][1..]);
    } else {
      ItemsBytesGrow(item, items[1..], i - 1);
      assert items[..i + 1][1..] == items[1..][..i] && items[..i][1..] == items[1..][..i - 1];
    }
  }

  lemma VectorBytes(item: Item, items: seq<Actual>)
    ensures TypeBytes(Vector(item), AList(items)) == Le(ID_VECTOR, 4) + Le(|items|, 4) + ItemsBytes(item, items)
    ensures ItemsBytes(item, items[..0]) == [] && items[..|items|] == items
  {
  }

  method SerializeItems(item: Item, items: seq<Actual>) returns (s: seq<Byte>)
    ensures s == TypeBytes(Vector(item), AList(items))
  {
    hide *;
    s := Le(ID_VECTOR, 4);
    s := s + Le(|items|, 4);
    ghost var header := s;
    var i := 0;
    VectorBytes(item, items);
    while i < |items|
      invariant i <= |items|
      invariant s == header + ItemsBytes(item, items[..i])
    {
      var b := SerializeItem(item, items[i]);
      ItemsBytesGrow(item, items, i);
      s := s + b;
      i := i + 1;
    }
  }

  method SerializeType(ty: Type, a: Actual) returns (s: seq<Byte>)
    ensures s == TypeBytes(ty, a)
  {
    match ty {
      case One(item) => s := SerializeItem(item, a);
      case Fixed(_) => s := if a.ABlob? then a.b else [];
      case True => s := [];
      case Vector(item) =>
        if a.AList? {
          s := SerializeItems(item, a.items);
        } else {
          s := [];
        }
    }
  }

  /** The bits gathered so far in every flag word written so far. */
  function Gathered(args: seq<Arg>, acts: seq<Option<Actual>>, i: nat, count: nat): (fv: seq<nat>)
    requires i <= |args| == |acts|
    ensures |fv| == count
    ensures forall k :: 0 <= k < count ==> fv[k] == FlagWord(args, acts, k + 1, i)
  {
    seq<nat>(count, k requires 0 <= k < count => FlagWord(args, acts, k + 1, i))
  }

  /** Arguments that are not optional have to be given. */
  predicate Supplied(args: seq<Arg>, acts: seq<Option<Actual>>)
    requires |args| == |acts|
  {
    forall i :: 0 <= i < |args| && args[i].Param? && args[i].flagn == 0 ==> acts[i].Some?
  }

  /** The positions of the flag words written so far. */
  ghost predicate Positions(ctor: Ctor, acts: seq<Option<Actual>>, flags: seq<nat>, i: nat)
    requires i <= |ctor.args| == |acts|
  {
    && |flags| == FlagCount(ctor.args, i)
    && forall k :: 0 <= k < |flags| ==> flags[k] == FlagPos(ctor, acts, k, i)
  }

  ghost predicate Written(ctor: Ctor, acts: seq<Option<Actual>>, flags: seq<nat>, buf: seq<Byte>, i: nat)
    requires i <= |ctor.args| == |acts|
  {
    && Positions(ctor, acts, flags, i)
    && buf == Head(ctor, acts, Gathered(ctor.args, acts, i, FlagCount(ctor.args, i)), i)
  }

  /** `tl_<name>`: one pass over the arguments; flag words start at zero and get their bits as arguments are met. */
  method Serialize(ctor: Ctor, acts: seq<Option<Actual>>) returns (buf: seq<Byte>)
    requires |acts| == |ctor.args| && FlagsFirst(ctor.args) && Supplied(ctor.args, acts)
    ensures buf == Emit(ctor, acts)
  {
    hide *;
    buf := Le(ctor.id, 4);
    var flags: seq<nat> := [];
    var i := 0;
    Start(ctor, acts);
    while i < |ctor.args|
      invariant i <= |ctor.args|
      invariant Written(ctor, acts, flags, buf, i)
    {
      match ctor.args[i] {
        case Flags =>
          WriteFlags(ctor, acts, flags, buf, i);
          flags := flags + [|buf|];
          buf := buf + Le(0, 4);
        case Unused =>
          WriteNothing(ctor, acts, flags, buf, i);
        case Param(ty, flagn, flagb) =>
          if acts[i].Some? {
            var b := SerializeType(ty, acts[i].value);
            WriteParam(ctor, acts, flags, buf, i, b);
            buf := buf + b;
            if flagn > 0 {
              var p := flags[flagn - 1];
              buf := Patch(buf, p, Le(SetBit(FromLe(buf[p..p + 4]), flagb), 4));
            }
          } else {
            WriteNothing(ctor, acts, flags, buf, i);
          }
      }
      i := i + 1;
    }
    Finish(ctor, acts, flags, buf);
  }

  lemma Start(ctor: Ctor, acts: seq<Option<Actual>>)
    requires |acts| == |ctor.args|
    ensures Written(ctor, acts, [], Le(ctor.id, 4), 0)
  {
  }

  lemma Finish(ctor: Ctor, acts: seq<Option<Actual>>, flags: seq<nat>, buf: seq<Byte>)
    requires |acts| == |ctor.args| && Written(ctor, acts, flags, buf, |acts|)
    ensures buf == Emit(ctor, acts)
  {
    var n := |acts|;
    var fv := FlagWords(ctor.args, acts, FlagCount(ctor.args, n));
    assert Gathered(ctor.args, acts, n, FlagCount(ctor.args, n)) == fv;
    hide Head;
    HeadThenTail(ctor, acts, fv, n);
    assert Head(ctor, acts, fv, n) + [] == Head(ctor, acts, fv, n);
  }

  /** Flag words after the arguments that use them have no bits yet. */
  lemma {:induction false} NothingGathered(args: seq<Arg>, acts: seq<Option<Actual>>, k: nat, i: nat)
    requires i <= |args| == |acts| && FlagsFirst(args) && k > FlagCount(args, i)
    ensures FlagWord(args, acts, k, i) == 0
  {
    if i > 0 {
      NothingGathered(args, acts, k, i - 1);
    }
  }

  lemma PositionsGrow(ctor: Ctor, acts: seq<Option<Actual>>, flags: seq<nat>, buf: seq<Byte>, i: nat)
    requires |acts| == |ctor.args| && i < |acts| && Written(ctor, acts, flags, buf, i)
    ensures Positions(ctor, acts, if ctor.args[i].Flags? then flags + [|buf|] else flags, i + 1)
  {
    HeadLength(ctor, acts, Gathered(ctor.args, acts, i, FlagCount(ctor.args, i)), i);
    hide Head;
  }

  lemma WriteFlags(ctor: Ctor, acts: seq<Option<Actual>>, flags: seq<nat>, buf: seq<Byte>, i: nat)
    requires |acts| == |ctor.args| && i < |acts| && FlagsFirst(ctor.args) && ctor.args[i].Flags?
    requires Written(ctor, acts, flags, buf, i)
    ensures Written(ctor, acts, flags + [|buf|], buf + Le(0, 4), i + 1)
  {
    PositionsGrow(ctor, acts, flags, buf, i);
    var c := FlagCount(ctor.args, i);
    var fv, gv := Gathered(ctor.args, acts, i, c), Gathered(ctor.args, acts, i + 1, c + 1);
    NothingGathered(ctor.args, acts, c + 1, i);
    assert gv[..c] == fv[..c] && gv[c] == 0;
    hide Head;
    HeadIgnoresLater(ctor, acts, fv, gv, i);
    HeadUnfold(ctor, acts, gv, i + 1);
  }

  lemma WriteNothing(ctor: Ctor, acts: seq<Option<Actual>>, flags: seq<nat>, buf: seq<Byte>, i: nat)
    requires |acts| == |ctor.args| && i < |acts|
    requires !ctor.args[i].Flags? && (ctor.args[i].Param? ==> acts[i].None?)
    requires Written(ctor, acts, flags, buf, i)
    ensures Written(ctor, acts, flags, buf, i + 1)
  {
    PositionsGrow(ctor, acts, flags, buf, i);
    var c := FlagCount(ctor.args, i);
    var fv := Gathered(ctor.args, acts, i, c);
    assert Gathered(ctor.args, acts, i + 1, c) == fv;
    hide Head;
    HeadUnfold(ctor, acts, fv, i + 1);
    assert Head(ctor, acts, fv, i) + [] == Head(ctor, acts, fv, i);
  }

  /** What a present argument adds to the output and to the gathered bits, before its flag word is patched. */
  lemma ParamFacts(ctor: Ctor, acts: seq<Option<Actual>>, i: nat)
    requires |acts| == |ctor.args| && i < |acts| && FlagsFirst(ctor.args)
    requires ctor.args[i].Param? && acts[i].Some?
    ensures var (args, c, k) := (ctor.args, FlagCount(ctor.args, i), ctor.args[i].flagn);
            && k <= c == FlagCount(args, i + 1)
            && Gathered(args, acts, i + 1, c)
               == if k == 0 then Gathered(args, acts, i, c)
                  else Gathered(args, acts, i, c)[k - 1 := SetBit(FlagWord(args, acts, k, i), args[i].flagb)]
  {
    var (args, c, k) := (ctor.args, FlagCount(ctor.args, i), ctor.args[i].flagn);
    var fv, gv := Gathered(args, acts, i, c), Gathered(args, acts, i + 1, c);
    hide SetBit, Gathered;
    if k == 0 {
      assert gv == fv;
    } else {
      assert gv == fv[k - 1 := SetBit(FlagWord(args, acts, k, i), args[i].flagb)];
    }
  }

  lemma ParamAppended(ctor: Ctor, acts: seq<Option<Actual>>, fv: seq<nat>, i: nat, b: seq<Byte>)
    requires |acts| == |ctor.args| && i < |acts|
    requires ctor.args[i].Param? && acts[i].Some? && b == TypeBytes(ctor.args[i].ty, acts[i].value)
    ensures Head(ctor, acts, fv, i + 1) == Head(ctor, acts, fv, i) + b
  {
    hide Head, TypeBytes;
    HeadUnfold(ctor, acts, fv, i + 1);
  }

  lemma FlagWordReads(args: seq<Arg>, acts: seq<Option<Actual>>, k: nat, i: nat)
    requires i <= |args| == |acts| && FlagsFirst(args) && k > 0
    ensures FromLe(Le(FlagWord(args, acts, k, i), 4)) == FlagWord(args, acts, k, i)
  {
    WordSizes();
    FlagWordBound(args, acts, k, i);
    hide FlagWord;
    LeExact(FlagWord(args, acts, k, i), 4);
  }

  lemma WrittenParts(ctor: Ctor, acts: seq<Option<Actual>>, flags: seq<nat>, buf: seq<Byte>, i: nat)
    requires i <= |ctor.args| == |acts|
    ensures Written(ctor, acts, flags, buf, i) <==>
              && Positions(ctor, acts, flags, i)
              && buf == Head(ctor, acts, Gathered(ctor.args, acts, i, FlagCount(ctor.args, i)), i)
  {
    hide Head;
  }

  lemma PositionsAre(ctor: Ctor, acts: seq<Option<Actual>>, flags: seq<nat>, i: nat)
    requires i <= |ctor.args| == |acts| && Positions(ctor, acts, flags, i)
    ensures |flags| == FlagCount(ctor.args, i)
    ensures forall k :: 0 <= k < |flags| ==> flags[k] == FlagPos(ctor, acts, k, i)
  {
  }

  lemma WriteParam(ctor: Ctor, acts: seq<Option<Actual>>, flags: seq<nat>, buf: seq<Byte>, i: nat, b: seq<Byte>)
    requires |acts| == |ctor.args| && i < |acts| && FlagsFirst(ctor.args)
    requires ctor.args[i].Param? && acts[i].Some? && b == TypeBytes(ctor.args[i].ty, acts[i].value)
    requires Written(ctor, acts, flags, buf, i)
    ensures var (k, bit) := (ctor.args[i].flagn, ctor.args[i].flagb);
            if k == 0 then Written(ctor, acts, flags, buf + b, i + 1)
            else
              && k <= |flags| && flags[k - 1] + 4 <= |buf + b|
              && var p := flags[k - 1];
                 Written(ctor, acts, flags, Patch(buf + b, p, Le(SetBit(FromLe((buf + b)[p..p + 4]), bit), 4)), i + 1)
  {
    hide *;
    var c, k := FlagCount(ctor.args, i), ctor.args[i].flagn;
    var fv, gv := Gathered(ctor.args, acts, i, c), Gathered(ctor.args, acts, i + 1, c);
    PositionsGrow(ctor, acts, flags, buf, i);
    PositionsAre(ctor, acts, flags, i + 1);
    WrittenParts(ctor, acts, flags, buf, i);
    ParamFacts(ctor, acts, i);
    ParamAppended(ctor, acts, fv, i, b);
    if k == 0 {
      WrittenParts(ctor, acts, flags, buf + b, i + 1);
    } else {
      var w := SetBit(fv[k - 1], ctor.args[i].flagb);
      FlagWordReads(ctor.args, acts, k, i);
      PatchHead(ctor, acts, fv, k - 1, w, i + 1);
      WrittenParts(ctor, acts, flags, Patch(buf + b, flags[k - 1], Le(w, 4)), i + 1);
    }
  }
}
