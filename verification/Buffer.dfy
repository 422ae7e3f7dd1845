/** The growable byte buffer of tl/buf.c. */
module Buffers {
  const BUFSIZ: nat := 8192

  function Reverse(s: seq<bv8>): (r: seq<bv8>)
    ensures |r| == |s|
  {
    seq<bv8>(|s|, i requires 0 <= i < |s| => s[|s| - 1 - i])
  }

  function Xor(s: seq<bv8>, t: seq<bv8>): (r: seq<bv8>)
    requires |s| <= |t|
    ensures |r| == |s|
  {
    seq<bv8>(|s|, i requires 0 <= i < |s| => s[i] ^ t[i])
  }

  /** Turning the bytes around twice, and xoring twice with the same bytes, gives them back. */
  lemma Involutions(s: seq<bv8>, t: seq<bv8>)
    requires |s| <= |t|
    ensures Reverse(Reverse(s)) == s && Xor(Xor(s, t), t) == s
  {
    forall i | 0 <= i < |s|
      ensures Xor(Xor(s, t), t)[i] == s[i]
    {
      XorTwice(s[i], t[i]);
    }
    assert Reverse(Reverse(s)) == s;
    assert Xor(Xor(s, t), t) == s;
  }

  lemma XorTwice(a: bv8, b: bv8)
    ensures (a ^ b) ^ b == a
  {
  }

  /** The copying loop of `buf_cat`. */
  method CopyBehind(src: array<bv8>, n: nat, dest: array<bv8>, offset: nat)
    requires n <= src.Length && offset + n <= dest.Length && (src == dest ==> n <= offset)
    modifies dest
    ensures dest[..offset] == old(dest[..offset]) && dest[offset..offset + n] == old(src[..n])
    ensures src != dest ==> src[..] == old(src[..])
  {
    var i := 0;
    while i < n
      invariant i <= n
      invariant forall k :: 0 <= k < offset ==> dest[k] == old(dest[k])
      invariant forall k :: 0 <= k < i ==> dest[offset + k] == old(src[k])
    {
      dest[i + offset] := src[i];
      i := i + 1;
    }
  }

  lemma Joined(d: seq<bv8>, a: seq<bv8>, b: seq<bv8>)
    requires |a| + |b| <= |d| && d[..|a|] == a && d[|a|..|a| + |b|] == b
    ensures d[..|a| + |b|] == a + b
  {
  }

  class Buffer {
    var data: array<bv8>
    var size: nat
    var asize: nat

    ghost predicate Valid()
      reads this
    {
      data.Length == asize + 1 && size <= asize
    }

    ghost function Contents(): seq<bv8>
      requires Valid()
      reads this, data
    {
      data[..size]
    }

    /** `buf_init`. */
    constructor ()
      ensures Valid() && fresh(data) && Contents() == [] && asize == BUFSIZ
    {
      data := new bv8[BUFSIZ + 1](_ => 0);
      size := 0;
      asize := BUFSIZ;
    }

    /** `buf_realloc`: never shrinks; new room is zeroed and the contents stay. */
    method Realloc(room: nat)
      requires Valid()
      modifies this`data, this`asize
      ensures Valid() && asize == (if room > old(asize) then room else old(asize)) && Contents() == old(Contents())
      ensures if room > old(asize) then fresh(data) && forall i :: old(asize) <= i <= room ==> data[i] == 0
              else data == old(data)
    {
      if room > asize {
        var ptr := new bv8[room + 1](_ => 0);
        var i := 0;
        while i < asize
          invariant i <= asize && ptr[..i] == data[..i]
          invariant forall k :: asize <= k <= room ==> ptr[k] == 0
          modifies ptr
        {
          ptr[i] := data[i];
          i := i + 1;
        }
        assert ptr[..size] == ptr[..asize][..size] && data[..size] == data[..asize][..size];
        data := ptr;
        asize := room;
      }
    }

    /**
     `buf_cat`: grows if it must, then copies byte by byte behind the contents. A buffer can be appended to
     itself as long as it need not grow; growing would free the bytes that are to be copied.
     */
    method Cat(src: Buffer)
      requires Valid() && src.Valid() && (src != this ==> src.data != data) && (src == this ==> 2 * size <= asize)
      modifies this, data
      ensures Valid() && Contents() == old(Contents()) + old(src.Contents())
      ensures data == old(data) || fresh(data)
      ensures src != this ==> src.Valid() && src.Contents() == old(src.Contents())
    {
      ghost var before, added := Contents(), src.Contents();
      var s := size + src.size;
      if s > asize {
        Realloc(s);
      }
      assert data[..size] == before && src.data[..src.size] == added;
      CopyBehind(src.data, src.size, data, size);
      size := s;
      Joined(data[..], before, added);
    }

    /** `buf_add`: a new buffer with these bytes. */
    constructor Add(bytes: seq<bv8>)
      ensures Valid() && fresh(data) && Contents() == bytes
    {
      var room := if |bytes| > BUFSIZ then |bytes| else BUFSIZ;
      data := new bv8[room + 1](i requires i >= 0 => if i < |bytes| then bytes[i] else 0);
      size := |bytes|;
      asize := room;
    }

    /** `buf_swap`: the bytes turned around in place. */
    method Swap()
      requires Valid()
      modifies data
      ensures Contents() == Reverse(old(Contents()))
      ensures forall i :: 0 <= i < size ==> Contents()[i] == old(Contents())[size - 1 - i]
    {
      ghost var was := data[..];
      TurnAround(data, size);
      assert forall i :: 0 <= i < size ==> Contents()[i] == was[..size][size - 1 - i];
    }

    /** `buf_cmp`: compares as many bytes as this buffer has, whatever the size of the other. */
    method Cmp(b: Buffer) returns (same: bool)
      requires Valid() && b.Valid() && size <= b.data.Length
      ensures same <==> Contents() == b.data[..size]
      ensures size <= b.size ==> (same <==> Contents() <= b.Contents())
      ensures size == b.size ==> (same <==> Contents() == b.Contents())
    {
      var i := 0;
      same := true;
      while i < size
        invariant i <= size && data[..i] == b.data[..i]
      {
        if data[i] != b.data[i] {
          assert Contents()[i] != b.data[..size][i];
          assert size <= b.size ==> b.Contents()[i] == b.data[i];
          return false;
        }
        i := i + 1;
      }
      assert size <= b.size ==> b.Contents()[..size] == b.data[..size];
    }

    /** `buf_xor`. */
    method XorWith(b: Buffer) returns (r: Buffer)
      requires Valid() && b.Valid() && size <= b.size
      ensures fresh(r) && r.Valid() && r.Contents() == Xor(Contents(), b.Contents())
      ensures forall i :: 0 <= i < size ==> r.Contents()[i] == Contents()[i] ^ b.Contents()[i]
    {
      r := new Buffer();
      if size > r.asize {
        r.Realloc(size);
      }
      XorInto(data, b.data, r.data, size);
      r.size := size;
      assert r.data[..size] == Xor(data[..size], b.data[..b.size]);
    }
  }

  /** The loop of `buf_swap`. */
  method TurnAround(a: array<bv8>, n: nat)
    requires n <= a.Length
    modifies a
    ensures forall k :: 0 <= k < n ==> a[k] == old(a[n - 1 - k])
  {
    var lo, hi := 0, n - 1;
    while lo < hi
      invariant 0 <= lo <= hi + 2 && lo + hi == n - 1
      invariant forall k :: 0 <= k < lo || hi < k < n ==> a[k] == old(a[n - 1 - k])
      invariant forall k :: lo <= k <= hi ==> a[k] == old(a[k])
    {
      a[lo], a[hi] := a[hi], a[lo];
      lo, hi := lo + 1, hi - 1;
    }
  }

  /** The loop of `buf_xor`. */
  method XorInto(a: array<bv8>, b: array<bv8>, r: array<bv8>, n: nat)
    requires n <= a.Length && n <= b.Length && n <= r.Length && r != a && r != b
    modifies r
    ensures forall k :: 0 <= k < n ==> r[k] == a[k] ^ b[k]
  {
    var i := 0;
    while i < n
      invariant i <= n
      invariant forall k :: 0 <= k < i ==> r[k] == a[k] ^ b[k]
    {
      r[i] := a[i] ^ b[i];
      i := i + 1;
    }
  }
}
