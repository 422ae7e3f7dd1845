/** The string arena of tg/stb_ds.h: blocks carved from the top down, oversized strings in blocks of their own. */
module Arenas {
  import opened Arith
  import opened Bytes

  const BLOCK_MAX: nat := 0x10_0000

  /** 512 bytes, doubled after every second block. */
  function BlockSize(block: nat): (s: nat)
    ensures s >= 512
  {
    512 * Pow2(block / 2)
  }

  /** 512 twice, then each size twice as large as the last but one. */
  lemma BlockSizes(block: nat)
    ensures BlockSize(0) == 512 && BlockSize(1) == 512 && BlockSize(block + 2) == 2 * BlockSize(block)
  {
    assert (block + 2) / 2 == block / 2 + 1;
  }

  lemma {:induction false} Pow2Below(e: nat)
    ensures Pow2(e) < 2048 <==> e < 11
  {
    if e == 0 {
    } else if e <= 11 {
      assert Pow2(4) == 16 && Pow2(8) == 256;
      assert Pow2(11) == 2048 && Pow2(10) == 1024 && Pow2(9) == 512;
      Pow2Below(e - 1);
    } else {
      Pow2Below(e - 1);
    }
  }

  /** Block sizes stop growing at one megabyte, which the 22nd step reaches. */
  lemma SizeBelowMax(block: nat)
    ensures BlockSize(block) < BLOCK_MAX <==> block < 22
  {
    Pow2Below(block / 2);
    hide Pow2;
  }

  /** `stbds_string_block`. */
  class Block {
    var next: Block?
    const storage: array<Byte>

    constructor (size: nat)
      ensures fresh(storage) && storage.Length == size && next == null
    {
      storage := new Byte[size];
      next := null;
    }
  }

  /** A string handed out: where it lies and its bytes, the final NUL included. */
  datatype Region = Region(block: Block, lo: nat, hi: nat, text: seq<Byte>)

  predicate Disjoint(r: Region, t: Region) {
    r.block != t.block || r.hi <= t.lo || t.hi <= r.lo
  }

  ghost predicate AllDisjoint(regions: seq<Region>) {
    forall i, j :: 0 <= i < j < |regions| ==> Disjoint(regions[i], regions[j])
  }

  /** Every string lies in a live block, above the free part of the first one. */
  ghost predicate Placed(blocks: seq<Block>, remaining: nat, regions: seq<Region>) {
    forall r :: r in regions ==>
      r.block in blocks && r.lo < r.hi <= r.block.storage.Length && (r.block == blocks[0] ==> remaining <= r.lo)
  }

  /** Every string lies in this memory and still reads as it was written. */
  ghost predicate Intact(regions: seq<Region>, memory: set<array<Byte>>)
    reads memory
  {
    forall r :: r in regions ==>
      r.block.storage in memory && r.lo <= r.hi <= r.block.storage.Length && r.block.storage[r.lo..r.hi] == r.text
  }

  ghost function MemoryOf(blocks: seq<Block>): (m: set<array<Byte>>)
    ensures forall b :: b in blocks ==> b.storage in m
  {
    set b: Block | b in blocks :: b.storage
  }

  /** The chain of blocks: distinct, each with memory of its own, linked in order. */
  ghost predicate Chain(first: Block?, blocks: seq<Block>)
    reads blocks
  {
    && first == BlockAt(blocks, 0)
    && (forall i :: 0 <= i < |blocks| ==> blocks[i].next == BlockAt(blocks, i + 1))
    && forall i, j :: 0 <= i < j < |blocks| ==> blocks[i] != blocks[j] && blocks[i].storage != blocks[j].storage
  }

  ghost function BlockAt(blocks: seq<Block>, i: nat): Block? {
    if i < |blocks| then blocks[i] else null
  }

  /** A stretch of `block` nothing lies in: below everything in the first block, or in a block not used yet. */
  ghost predicate Unused(blocks: seq<Block>, remaining: nat, regions: seq<Region>, block: Block, hi: nat) {
    || (forall t :: t in regions ==> t.block != block)
    || (blocks != [] && block == blocks[0] && hi <= remaining)
  }

  lemma OneMore(blocks: seq<Block>, remaining: nat, left: nat, regions: seq<Region>, r: Region)
    requires AllDisjoint(regions) && Placed(blocks, remaining, regions)
    requires r.block in blocks && r.lo < r.hi <= r.block.storage.Length
    requires Unused(blocks, remaining, regions, r.block, r.hi)
    requires left <= remaining && (r.block == blocks[0] ==> left <= r.lo)
    ensures AllDisjoint(regions + [r]) && Placed(blocks, left, regions + [r])
  {
    forall i | 0 <= i < |regions|
      ensures Disjoint(regions[i], r)
    {
      assert regions[i] in regions;
    }
  }

  /** `memmove` of a string into a block. */
  method Move(a: array<Byte>, lo: nat, text: seq<Byte>)
    requires lo + |text| <= a.Length
    modifies a
    ensures a[lo..lo + |text|] == text
    ensures forall i :: 0 <= i < a.Length && !(lo <= i < lo + |text|) ==> a[i] == old(a[i])
  {
    var k := 0;
    while k < |text|
      invariant k <= |text| && forall i :: 0 <= i < k ==> a[lo + i] == text[i]
      invariant forall i :: 0 <= i < a.Length && !(lo <= i < lo + |text|) ==> a[i] == old(a[i])
    {
      a[lo + k] := text[k];
      k := k + 1;
    }
  }

  lemma ChainFirst(first: Block?, blocks: seq<Block>, sb: Block)
    requires Chain(first, blocks) && sb.next == first
    requires forall b :: b in blocks ==> b != sb && b.storage != sb.storage
    ensures Chain(sb, [sb] + blocks)
  {
  }

  lemma StoragesDiffer(first: Block?, blocks: seq<Block>)
    requires Chain(first, blocks)
    ensures forall b, c :: b in blocks && c in blocks && b != c ==> b.storage != c.storage
  {
    forall b, c | b in blocks && c in blocks && b != c
      ensures b.storage != c.storage
    {
      var i :| 0 <= i < |blocks| && blocks[i] == b;
      var j :| 0 <= j < |blocks| && blocks[j] == c;
      assert i < j || j < i;
    }
  }

  method Allocate(size: nat, ghost regions: seq<Region>, ghost memory: set<array<Byte>>) returns (sb: Block)
    requires Intact(regions, memory)
    ensures fresh(sb) && fresh(sb.storage) && sb.storage.Length == size && Intact(regions, memory)
  {
    sb := new Block(size);
  }

  /** Links a block before the first one. */
  method LinkFirst(first: Block?, sb: Block, ghost blocks: seq<Block>, ghost regions: seq<Region>,
                   ghost memory: set<array<Byte>>)
    requires Chain(first, blocks) && Intact(regions, memory)
    requires forall b :: b in blocks ==> b != sb && b.storage != sb.storage
    modifies sb`next
    ensures Chain(sb, [sb] + blocks) && Intact(regions, memory)
  {
    sb.next := first;
    ChainFirst(first, blocks, sb);
  }

  /** Links a block behind the first one. */
  method LinkSecond(first: Block, sb: Block, ghost blocks: seq<Block>, ghost regions: seq<Region>,
                    ghost memory: set<array<Byte>>)
    requires Chain(first, blocks) && blocks != [] && Intact(regions, memory)
    requires forall b :: b in blocks ==> b != sb && b.storage != sb.storage
    modifies first`next, sb`next
    ensures Chain(first, [blocks[0], sb] + blocks[1..]) && Intact(regions, memory)
  {
    assert blocks[0] in blocks;
    sb.next := first.next;
    first.next := sb;
  }

  lemma PlacedBehind(blocks: seq<Block>, remaining: nat, regions: seq<Region>, sb: Block, size: nat)
    requires Placed(blocks, remaining, regions) && sb !in blocks
    ensures Placed([sb] + blocks, size, regions) && forall t :: t in regions ==> t.block != sb && t.block in blocks
  {
  }

  lemma PlacedLower(blocks: seq<Block>, remaining: nat, regions: seq<Region>)
    requires Placed(blocks, remaining, regions)
    ensures Placed(blocks, 0, regions)
  {
  }

  lemma PlacedAround(blocks: seq<Block>, remaining: nat, regions: seq<Region>, sb: Block)
    requires Placed(blocks, remaining, regions) && sb !in blocks && blocks != []
    ensures Placed([blocks[0], sb] + blocks[1..], remaining, regions)
    ensures forall t :: t in regions ==> t.block != sb && t.block in [blocks[0], sb] + blocks[1..]
  {
    assert forall b :: b in blocks ==> b == blocks[0] || b in blocks[1..];
  }

  /** Strings in the memory a new one goes to do not overlap it. */
  lemma OthersApart(blocks: seq<Block>, regions: seq<Region>, r: Region)
    requires forall b, c :: b in blocks && c in blocks && b != c ==> b.storage != c.storage
    requires r.block in blocks && AllDisjoint(regions + [r]) && forall t :: t in regions ==> t.block in blocks
    ensures forall t :: t in regions && t.block.storage == r.block.storage ==> t.hi <= r.lo || r.hi <= t.lo
  {
    var all := regions + [r];
    forall t | t in regions && t.block.storage == r.block.storage
      ensures t.hi <= r.lo || r.hi <= t.lo
    {
      var i :| 0 <= i < |regions| && regions[i] == t;
      assert Disjoint(all[i], all[|regions|]);
    }
  }

  lemma OneMoreApart(first: Block?, blocks: seq<Block>, remaining: nat, regions: seq<Region>, r: Region)
    requires Chain(first, blocks) && Placed(blocks, remaining, regions)
    requires r.block in blocks && AllDisjoint(regions + [r])
    ensures forall t :: t in regions && t.block.storage == r.block.storage ==> t.hi <= r.lo || r.hi <= t.lo
  {
    StoragesDiffer(first, blocks);
    OthersApart(blocks, regions, r);
  }

  lemma StorageIn(blocks: seq<Block>, sb: Block)
    requires sb in blocks
    ensures sb.storage in MemoryOf(blocks)
  {
  }

  /** Copying where no string lies leaves all strings intact. */
  method MoveBesides(a: array<Byte>, lo: nat, text: seq<Byte>, ghost regions: seq<Region>,
                     ghost memory: set<array<Byte>>)
    requires lo + |text| <= a.Length && Intact(regions, memory)
    requires forall t :: t in regions && t.block.storage == a ==> t.hi <= lo || lo + |text| <= t.lo
    modifies a
    ensures Intact(regions, memory) && a[lo..lo + |text|] == text
  {
    Move(a, lo, text);
    forall t | t in regions
      ensures t.block.storage[t.lo..t.hi] == t.text
    {
      assert t.block.storage[t.lo..t.hi] == old(t.block.storage[t.lo..t.hi]);
    }
  }

  lemma OneMoreIntact(regions: seq<Region>, memory: set<array<Byte>>, r: Region)
    requires Intact(regions, memory) && r.block.storage in memory
    requires r.lo <= r.hi <= r.block.storage.Length && r.block.storage[r.lo..r.hi] == r.text
    ensures Intact(regions + [r], memory)
  {
  }

  /** One more string in memory, where none lies; the links stay as they are. */
  method Write(r: Region, ghost regions: seq<Region>, ghost memory: set<array<Byte>>, ghost first: Block?,
               ghost blocks: seq<Block>)
    requires r.hi == r.lo + |r.text| <= r.block.storage.Length && r.block.storage in memory
    requires forall t :: t in regions && t.block.storage == r.block.storage ==> t.hi <= r.lo || r.hi <= t.lo
    requires Intact(regions, memory) && Chain(first, blocks)
    modifies r.block.storage
    ensures Intact(regions + [r], memory) && Chain(first, blocks)
  {
    hide Intact;
    MoveBesides(r.block.storage, r.lo, r.text, regions, memory);
    OneMoreIntact(regions, memory, r);
  }

  lemma MoreMemory(regions: seq<Region>, memory: set<array<Byte>>, more: set<array<Byte>>)
    requires Intact(regions, memory) && memory <= more
    ensures Intact(regions, more)
  {
  }

  lemma MemoryAround(blocks: seq<Block>, sb: Block)
    requires blocks != []
    ensures MemoryOf(blocks) <= MemoryOf([blocks[0], sb] + blocks[1..])
  {
    assert forall b :: b in blocks ==> b == blocks[0] || b in blocks[1..];
  }

  lemma MemoryBehind(blocks: seq<Block>, sb: Block)
    ensures MemoryOf(blocks) <= MemoryOf([sb] + blocks)
  {
  }

  class Arena {
    var storage: Block?
    var remaining: nat
    var block: nat
    /** The blocks in the order of the links, and every string handed out. */
    ghost var blocks: seq<Block>
    ghost var regions: seq<Region>

    ghost function Memory(): set<array<Byte>>
      reads this`blocks
    {
      MemoryOf(blocks)
    }

    ghost predicate Valid()
      reads this, blocks, Memory()
    {
      && Chain(storage, blocks)
      && (blocks == [] ==> remaining == 0) && (blocks != [] ==> remaining <= blocks[0].storage.Length)
      && block <= 22
      && AllDisjoint(regions) && Placed(blocks, remaining, regions)
      && Intact(regions, Memory())
    }

    constructor ()
      ensures Valid() && blocks == [] && regions == [] && block == 0
    {
      storage := null;
      remaining := 0;
      block := 0;
      blocks := [];
      regions := [];
    }

    lemma RoomFor(r: Region, left: nat)
      requires Valid() && r.block in blocks && r.lo < r.hi <= r.block.storage.Length
      requires Unused(blocks, remaining, regions, r.block, r.hi)
      requires left <= remaining && (r.block == blocks[0] ==> left <= r.lo)
      ensures AllDisjoint(regions + [r]) && Placed(blocks, left, regions + [r]) && r.block.storage in MemoryOf(blocks)
      ensures forall t :: t in regions && t.block.storage == r.block.storage ==> t.hi <= r.lo || r.hi <= t.lo
    {
      hide AllDisjoint, Placed, Chain, Unused, Intact, MemoryOf;
      OneMore(blocks, remaining, left, regions, r);
      OneMoreApart(storage, blocks, remaining, regions, r);
      StorageIn(blocks, r.block);
    }

    /** Writes a string where nothing lies yet. */
    method Place(sb: Block, lo: nat, text: seq<Byte>, left: nat)
      requires Valid() && sb in blocks && |text| > 0 && lo + |text| <= sb.storage.Length
      requires Unused(blocks, remaining, regions, sb, lo + |text|)
      requires left <= remaining && (sb == blocks[0] ==> left <= lo)
      modifies this`regions, this`remaining, sb.storage
      ensures Valid() && remaining == left && regions == old(regions) + [Region(sb, lo, lo + |text|, text)]
    {
      var r := Region(sb, lo, lo + |text|, text);
      hide AllDisjoint, Placed, Chain, Unused, Disjoint, Intact, MemoryOf, BlockAt;
      RoomFor(r, left);
      Write(r, regions, MemoryOf(blocks), storage, blocks);
      regions, remaining := regions + [r], left;
    }

    /** A new first block. */
    method AddFirst(size: nat) returns (sb: Block)
      requires Valid()
      modifies this`storage, this`remaining, this`blocks
      ensures Valid() && fresh(sb) && fresh(sb.storage) && sb.storage.Length == size
      ensures blocks == [sb] + old(blocks) && remaining == size
      ensures forall t :: t in regions ==> t.block != sb
    {
      hide Placed, AllDisjoint, Intact, MemoryOf;
      sb := Allocate(size, regions, Memory());
      LinkFirst(storage, sb, blocks, regions, Memory());
      PlacedBehind(blocks, remaining, regions, sb, size);
      MemoryBehind(blocks, sb);
      MoreMemory(regions, Memory(), MemoryOf([sb] + blocks));
      hide Chain;
      storage := sb;
      remaining := size;
      blocks := [sb] + blocks;
    }

    /** A second block. */
    method AddBehind(size: nat) returns (sb: Block)
      requires Valid() && blocks != []
      modifies this`blocks, blocks
      ensures Valid() && fresh(sb) && fresh(sb.storage) && sb.storage.Length == size
      ensures blocks == [old(blocks)[0], sb] + old(blocks)[1..]
      ensures forall t :: t in regions ==> t.block != sb
    {
      hide Chain, Placed, AllDisjoint, Intact, MemoryOf;
      FirstHolds();
      sb := Allocate(size, regions, Memory());
      ghost var longer := [blocks[0], sb] + blocks[1..];
      PlacedAround(blocks, remaining, regions, sb);
      MemoryAround(blocks, sb);
      MoreMemory(regions, Memory(), MemoryOf(longer));
      LinkSecond(storage, sb, blocks, regions, MemoryOf(longer));
      blocks := longer;
    }

    /** A block for one oversized string: second in the chain, or first in an empty one. */
    method AddSecond(size: nat) returns (sb: Block)
      requires Valid()
      modifies this`storage, this`remaining, this`blocks, blocks
      ensures Valid() && fresh(sb) && fresh(sb.storage) && sb.storage.Length == size && remaining == old(remaining)
      ensures blocks == if old(blocks) == [] then [sb] else [old(blocks)[0], sb] + old(blocks)[1..]
      ensures forall t :: t in regions ==> t.block != sb
    {
      hide Chain, Placed, AllDisjoint, Intact, MemoryOf;
      FirstHolds();
      if storage != null {
        sb := AddBehind(size);
      } else {
        sb := AddFirst(size);
        PlacedLower(blocks, remaining, regions);
        remaining := 0;
      }
    }

    /** The size of the next block, counting it. */
    method NextSize() returns (size: nat)
      requires Valid()
      modifies this`block
      ensures Valid() && size == BlockSize(old(block))
      ensures block == if old(block) < 22 then old(block) + 1 else 22
    {
      hide Chain, AllDisjoint, Placed, Intact;
      size := BlockSize(block);
      SizeBelowMax(block);
      hide BlockSize;
      if size < BLOCK_MAX {
        block := block + 1;
      }
    }

    /** The string at the low end of what is used of the first block. */
    method PlaceInFirst(text: seq<Byte>) returns (sb: Block, p: nat)
      requires Valid() && 0 < |text| <= remaining
      modifies this`regions, this`remaining, Memory()
      ensures Valid() && regions == old(regions) + [Region(sb, p, p + |text|, text)]
      ensures sb == storage && p == remaining == old(remaining) - |text|
    {
      hide AllDisjoint, Placed, Intact;
      sb := storage;
      p := remaining - |text|;
      Place(sb, p, text, p);
    }

    /** The string in a block of its own. */
    method PlaceAlone(text: seq<Byte>) returns (sb: Block)
      requires Valid() && |text| > 0 && remaining < |text|
      modifies this`storage, this`remaining, this`blocks, this`regions, blocks
      ensures Valid() && regions == old(regions) + [Region(sb, 0, |text|, text)] && remaining == old(remaining)
      ensures fresh(sb) && fresh(sb.storage)
      ensures blocks == if old(blocks) == [] then [sb] else [old(blocks)[0], sb] + old(blocks)[1..]
    {
      hide AllDisjoint, Placed, Intact, Chain;
      FirstHolds();
      sb := AddSecond(|text|);
      Place(sb, 0, text, remaining);
    }

    lemma FirstHolds()
      requires Valid()
      ensures storage == BlockAt(blocks, 0) && (blocks == [] ==> remaining == 0)
      ensures blocks != [] ==> remaining <= blocks[0].storage.Length
      ensures blocks != [] ==> blocks[0] in blocks && blocks[0].storage in Memory()
    {
      hide AllDisjoint, Placed, Intact;
    }

    /** `stbds_stralloc`: the block and the offset of the copy, which ends with the first NUL. */
    method Stralloc(str: seq<Byte>) returns (sb: Block, p: nat)
      requires Valid()
      modifies this, blocks, Memory()
      ensures Valid() && regions == old(regions) + [Region(sb, p, p + |CString(str)| + 1, CString(str) + [0])]
      ensures block == if |CString(str)| >= old(remaining) && old(block) < 22 then old(block) + 1 else old(block)
      ensures var len := |CString(str)| + 1;
              remaining == if len <= old(remaining) then old(remaining) - len
                           else if len > BlockSize(old(block)) then old(remaining)
                           else BlockSize(old(block)) - len
      ensures forall b :: b in old(blocks) ==> b in blocks
      ensures forall b :: b in blocks && b !in old(blocks) ==> fresh(b) && fresh(b.storage)
    {
      hide AllDisjoint, Placed, Intact, Chain, BlockSize, CString;
      var text := CString(str) + [0];
      var len := |text|;
      if len > remaining {
        var blocksize := NextSize();
        if len > blocksize {
          sb := PlaceAlone(text);
          p := 0;
          return;
        } else {
          sb := AddFirst(blocksize);
        }
      }
      sb, p := PlaceInFirst(text);
    }
  }
}
