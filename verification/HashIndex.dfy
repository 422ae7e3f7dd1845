/** The bucketed index of a hash map (`stbds_hash_index`) and how it is rebuilt at another size. */
module HashIndexes {
  import opened Probing
  import opened Placement

  class HashIndex {
    const slotCount: nat
    var usedCount: nat
    const usedCountThreshold: nat
    const usedCountShrinkThreshold: nat
    var tombstoneCount: nat
    const tombstoneCountThreshold: nat
    const seed: nat
    const hash: array<nat>
    const index: array<int>
    ghost const order: ProbeOrder
    ghost var loc: map<int, nat>

    /** The parts fixed at allocation. */
    ghost predicate Shape() {
      && SlotCount(slotCount)
      && IsOrder(order, slotCount)
      && hash.Length == slotCount && index.Length == slotCount
      && hash as object != index as object
      && usedCountThreshold == slotCount - slotCount / 4
      && tombstoneCountThreshold == slotCount / 8 + slotCount / 16
      && usedCountShrinkThreshold == (if slotCount <= BUCKET_LENGTH then 0 else slotCount / 4)
    }

    /** The indexed elements are exactly those in `loc`, with the given codes; counters are right. */
    ghost predicate Indexes(codes: seq<nat>)
      reads this, hash, index
    {
      && Shape()
      && Placed(order, hash[..], index[..], loc, codes)
      && multiset(hash[..])[HASH_DELETED] == tombstoneCount
      && multiset(hash[..])[HASH_EMPTY] + tombstoneCount + |loc| == slotCount
    }

    /** Codes of elements that are not indexed do not matter. */
    lemma IndexesAnyway(codes: seq<nat>, codes': seq<nat>)
      requires Indexes(codes)
      requires forall j :: j in loc ==> 0 <= j < |codes'| && codes'[j] == codes[j]
      ensures Indexes(codes')
    {
      OtherCodes(order, hash[..], index[..], loc, codes, codes');
    }

    constructor Allocate(slotCount: nat, seed: nat)
      requires SlotCount(slotCount)
      ensures fresh(hash) && fresh(index)
      ensures this.slotCount == slotCount && this.seed == seed
      ensures usedCount == 0 && tombstoneCount == 0 && loc == map[]
      ensures Indexes([])
    {
      this.slotCount := slotCount;
      this.usedCountThreshold := slotCount - slotCount / 4;
      this.tombstoneCountThreshold := slotCount / 8 + slotCount / 16;
      this.usedCountShrinkThreshold := if slotCount <= BUCKET_LENGTH then 0 else slotCount / 4;
      this.usedCount := 0;
      this.tombstoneCount := 0;
      this.seed := seed;
      this.hash := new nat[slotCount](_ => HASH_EMPTY);
      this.index := new int[slotCount](_ => INDEX_EMPTY);
      this.loc := map[];
      this.order := (code: nat, k: nat) => if slotCount > 0 then ProbeSlot(code, slotCount, k) else 0;
      new;
      SlotCountDoubles(slotCount);
      AllEmpty(hash[..]);
    }

    /** The first empty slot in `lo..hi`, or -1. */
    method FirstEmpty(lo: nat, hi: nat) returns (slot: int)
      requires lo <= hi <= hash.Length
      ensures slot == -1 || lo <= slot < hi
      ensures slot >= 0 ==> hash[slot] == HASH_EMPTY
      ensures forall s :: lo <= s < (if slot < 0 then hi else slot) ==> hash[s] != HASH_EMPTY
    {
      var z := lo;
      while z < hi
        invariant lo <= z <= hi
        invariant forall s :: lo <= s < z ==> hash[s] != HASH_EMPTY
      {
        if hash[z] == HASH_EMPTY {
          return z;
        }
        z := z + 1;
      }
      return -1;
    }

    /** One round of probing for an empty slot: the bucket of `pos`, starting at `pos` and wrapping around. */
    method EmptyInBucket(code: nat, pos: nat, ghost r: nat) returns (slot: int, ghost k: nat)
      requires Shape() && pos < slotCount && pos == RoundPos(code % slotCount, slotCount, r)
      requires OccupiedUpTo(order, hash[..], code, 8 * r)
      ensures slot < slotCount && OccupiedUpTo(order, hash[..], code, k)
      ensures slot >= 0 ==> hash[slot] == HASH_EMPTY && slot == order(code, k)
      ensures slot < 0 ==> k == 8 * (r + 1)
    {
      assert SlotCount(slotCount) && IsOrder(order, slotCount) && hash.Length == slotCount && BUCKET_LENGTH == 8;
      hide *;
      ghost var hs := hash[..];
      BucketFits(pos, slotCount);
      var bucket := pos - pos % BUCKET_LENGTH;
      assert bucket == pos - pos % 8 && bucket <= pos < bucket + 8 <= slotCount;
      slot := FirstEmpty(pos, bucket + BUCKET_LENGTH);
      assert forall s :: pos <= s < (if slot < 0 then bucket + 8 else slot) ==> hs[s] != HASH_EMPTY;
      if slot >= 0 {
        k := 8 * r + (slot - pos);
        OccupiedToEnd(order, hs, code, r, pos, slot);
        return;
      }
      slot := FirstEmpty(bucket, pos);
      if slot < 0 {
        k := 8 * r + 8;
        OccupiedAround(order, hs, code, r, pos, pos);
      } else {
        k := 8 * r + 8 - (pos - slot);
        OccupiedAround(order, hs, code, r, pos, slot);
      }
    }

    /** Follows the probe path of `code` to its first empty slot. */
    method FindEmpty(code: nat) returns (slot: int, ghost k: nat)
      requires Shape() && multiset(hash[..])[HASH_EMPTY] > 0
      ensures 0 <= slot < slotCount && hash[slot] == HASH_EMPTY
      ensures slot == order(code, k) && OccupiedUpTo(order, hash[..], code, k)
    {
      assert BUCKET_LENGTH == 8;
      SlotCountDoubles(slotCount);
      FirstRound(code % slotCount, slotCount);
      assert SlotCount(slotCount) && IsOrder(order, slotCount) && hash.Length == slotCount;
      hide RoundPos, SlotCount, IsOrder, OccupiedUpTo, BUCKET_LENGTH, HASH_EMPTY;
      var pos := code % slotCount;
      var step := BUCKET_LENGTH;
      ghost var r := 0;
      slot, k := EmptyInBucket(code, pos, r);
      while slot < 0
        invariant step == 8 * (r + 1) && pos < slotCount && pos == RoundPos(code % slotCount, slotCount, r)
        invariant slot < slotCount && OccupiedUpTo(order, hash[..], code, k)
        invariant slot >= 0 ==> hash[slot] == HASH_EMPTY && slot == order(code, k)
        invariant slot < 0 ==> k == 8 * (r + 1)
        decreases slotCount - 8 * r
      {
        EmptySlotAhead(order, hash[..], code, k);
        NextRound(code % slotCount, slotCount, r);
        pos := (pos + step) % slotCount;
        step := step + BUCKET_LENGTH;
        r := r + 1;
        slot, k := EmptyInBucket(code, pos, r);
      }
    }

    /** Writes one bucket cell for element `i`. */
    method WriteCell(pos: nat, code: nat, i: int, ghost k: nat, ghost codes: seq<nat>)
      requires Shape() && Placed(order, hash[..], index[..], loc, codes)
      requires i !in loc && 0 <= i < |codes| && codes[i] == code && code >= 2
      requires pos < slotCount && hash[pos] < 2 && pos == order(code, k) && OccupiedUpTo(order, hash[..], code, k)
      modifies this`loc, hash, index
      ensures Placed(order, hash[..], index[..], loc, codes) && loc == old(loc)[i := k]
      ensures multiset(hash[..])[HASH_EMPTY]
              == old(multiset(hash[..])[HASH_EMPTY] - (if hash[pos] == HASH_EMPTY then 1 else 0))
      ensures multiset(hash[..])[HASH_DELETED]
              == old(multiset(hash[..])[HASH_DELETED] - (if hash[pos] == HASH_DELETED then 1 else 0))
    {
      hide IsOrder, SlotCount, Placed;
      ghost var hs, ix := hash[..], index[..];
      Fill(order, hs, ix, loc, codes, i, k);
      EmptiesAfter(hs, pos, code);
      hash[pos] := code;
      index[pos] := i;
      loc := loc[i := k];
      assert hash[..] == hs[pos := code] && index[..] == ix[pos := i];
    }

    /** Copies one element of the old index over: the first empty slot on its path takes it. */
    method Adopt(code: nat, i: int, ghost codes: seq<nat>)
      requires Indexes(codes) && |loc| + tombstoneCount < slotCount
      requires i !in loc && 0 <= i < |codes| && codes[i] == code && code >= 2
      modifies this`loc, hash, index
      ensures Indexes(codes)
      ensures loc.Keys == old(loc).Keys + {i}
    {
      hide IsOrder, SlotCount, Placed, OccupiedUpTo;
      ghost var k;
      var slot;
      slot, k := FindEmpty(code);
      WriteCell(slot, code, i, k, codes);
    }

    /** Copies every element of the old index over, slot by slot. */
    method AdoptAll(ot: HashIndex, ghost codes: seq<nat>)
      requires Indexes(codes) && loc == map[] && tombstoneCount == 0
      requires ot.Indexes(codes) && |ot.loc| < slotCount
      requires ot != this && {hash as object, index} !! {ot.hash as object, ot.index}
      modifies this`loc, hash, index
      ensures Indexes(codes) && loc.Keys == ot.loc.Keys
    {
      hide Placed;
      ghost var hs, ix := ot.hash[..], ot.index[..];
      var s := 0;
      while s < ot.slotCount
        invariant 0 <= s <= ot.slotCount
        invariant ot.hash[..] == hs && ot.index[..] == ix
        invariant Indexes(codes)
        invariant loc.Keys == IndexedBelow(ix, s)
      {
        assert ot.hash[s] == hs[s] && ot.index[s] == ix[s];
        if ot.index[s] >= 0 {
          NotYetIndexed(ot.order, hs, ix, ot.loc, codes, s);
          SmallerSet(loc.Keys, ot.loc.Keys);
          Adopt(ot.hash[s], ot.index[s], codes);
        }
        s := s + 1;
      }
      AllIndexed(ot.order, hs, ix, ot.loc, codes);
    }

    /** Enters element `i` at the first tombstone met, if any, or else at the empty slot that ended the probe. */
    method Occupy(slot: nat, tombstone: int, code: nat, i: int, ghost k: nat, ghost codes: seq<nat>)
      requires Indexes(codes) && i !in loc && 0 <= i < |codes| && codes[i] == code && code >= 2
      requires tombstone < 0 ==> slot < slotCount && hash[slot] == HASH_EMPTY && slot == order(code, k)
      requires tombstone >= 0 ==> tombstone < slotCount && hash[tombstone] == HASH_DELETED
      requires tombstone >= 0 ==> tombstone == order(code, k)
      requires OccupiedUpTo(order, hash[..], code, k)
      modifies this, hash, index
      ensures Indexes(codes) && loc.Keys == old(loc).Keys + {i}
      ensures usedCount == old(usedCount) + 1
      ensures tombstoneCount == old(tombstoneCount) - (if tombstone >= 0 then 1 else 0)
    {
      hide IsOrder, SlotCount, Placed, OccupiedUpTo;
      var pos := slot;
      if tombstone >= 0 {
        pos := tombstone;
        assert HASH_DELETED in multiset(hash[..]) by { assert hash[..][pos] == HASH_DELETED; }
        tombstoneCount := tombstoneCount - 1;
      }
      usedCount := usedCount + 1;
      WriteCell(pos, code, i, k, codes);
    }

    /** Turns the slot of an element into a tombstone. */
    method Entomb(slot: nat, ghost codes: seq<nat>)
      requires Indexes(codes) && slot < slotCount && index[slot] >= 0 && usedCount > 0
      modifies this, hash, index
      ensures Indexes(codes) && loc == old(loc) - {old(index[slot])}
      ensures hash[..] == old(hash[..])[slot := HASH_DELETED] && index[..] == old(index[..])[slot := INDEX_DELETED]
      ensures usedCount == old(usedCount) - 1 && tombstoneCount == old(tombstoneCount) + 1
    {
      hide IsOrder, SlotCount;
      ghost var hs, ix := hash[..], index[..];
      Bury(order, hs, ix, loc, codes, slot);
      EmptiesAfter(hs, slot, HASH_DELETED);
      assert ix[slot] in loc && hs[slot] >= 2;
      assert loc == (loc - {ix[slot]})[ix[slot] := loc[ix[slot]]];
      usedCount := usedCount - 1;
      tombstoneCount := tombstoneCount + 1;
      hash[slot] := HASH_DELETED;
      index[slot] := INDEX_DELETED;
      loc := loc - {ix[slot]};
      assert hash[..] == hs[slot := HASH_DELETED] && index[..] == ix[slot := INDEX_DELETED];
    }

    /** The element in `slot` moves to place `to` of the element array. */
    method Relink(slot: nat, to: int, ghost codes: seq<nat>, ghost codes': seq<nat>)
      requires Indexes(codes) && slot < slotCount && index[slot] >= 0 && to !in loc
      requires index[slot] in loc && index[slot] < |codes| && 0 <= to < |codes'| && codes'[to] == codes[index[slot]]
      requires forall j :: j in loc && j != index[slot] ==> 0 <= j < |codes'| && j < |codes| && codes'[j] == codes[j]
      modifies this`loc, index
      ensures Indexes(codes') && loc.Keys == old(loc).Keys - {old(index[slot])} + {to}
    {
      hide IsOrder, SlotCount;
      ghost var hs, ix := hash[..], index[..];
      var i := index[slot];
      Renumber(order, hs, ix, loc, codes, codes', slot, to);
      assert |(loc - {i})[to := loc[i]]| == |loc| by {
        assert loc == (loc - {i})[i := loc[i]];
      }
      index[slot] := to;
      loc := (loc - {i})[to := loc[i]];
      assert index[..] == ix[slot := to] && hash[..] == hs;
    }
  }

  /** The elements found in the first `upTo` slots. */
  ghost function IndexedBelow(ix: seq<int>, upTo: nat): set<int>
    requires upTo <= |ix|
  {
    if upTo == 0 then {}
    else if ix[upTo - 1] < 0 then IndexedBelow(ix, upTo - 1)
    else IndexedBelow(ix, upTo - 1) + {ix[upTo - 1]}
  }

  lemma {:induction false} InIndexedBelow(ix: seq<int>, upTo: nat, i: int)
    requires upTo <= |ix|
    ensures i in IndexedBelow(ix, upTo) <==> i >= 0 && exists s :: 0 <= s < upTo && ix[s] == i
  {
    if upTo > 0 {
      InIndexedBelow(ix, upTo - 1, i);
    }
  }

  lemma NotYetIndexed(order: ProbeOrder, hs: seq<nat>, ix: seq<int>, loc: map<int, nat>, codes: seq<nat>, s: nat)
    requires Placed(order, hs, ix, loc, codes) && s < |ix| && ix[s] >= 0
    ensures 0 <= ix[s] < |codes| && hs[s] == codes[ix[s]] && hs[s] >= 2
    ensures ix[s] !in IndexedBelow(ix, s) && IndexedBelow(ix, s) < loc.Keys
  {
    var i := ix[s];
    assert HoldsAt(order, hs, ix, codes[i], i, loc[i]);
    InIndexedBelow(ix, s, i);
    forall t | 0 <= t < s && ix[t] >= 0
      ensures ix[t] != i
    {
      assert t == order(codes[ix[t]], loc[ix[t]]);
    }
    forall j | j in IndexedBelow(ix, s)
      ensures j in loc
    {
      InIndexedBelow(ix, s, j);
    }
    assert i in loc.Keys - IndexedBelow(ix, s);
  }

  lemma AllIndexed(order: ProbeOrder, hs: seq<nat>, ix: seq<int>, loc: map<int, nat>, codes: seq<nat>)
    requires Placed(order, hs, ix, loc, codes)
    ensures IndexedBelow(ix, |ix|) == loc.Keys
  {
    forall i
      ensures i in IndexedBelow(ix, |ix|) <==> i in loc
    {
      InIndexedBelow(ix, |ix|, i);
      if i in loc {
        assert HoldsAt(order, hs, ix, codes[i], i, loc[i]);
        assert ix[order(codes[i], loc[i])] == i;
      }
    }
  }

  lemma SmallerSet<T>(a: set<T>, b: set<T>)
    requires a < b
    ensures |a| < |b|
  {
    assert b - a != {};
    var x :| x in b - a;
    assert a + {x} <= b;
    assert b == (a + {x}) + (b - (a + {x}));
    assert |b| == |a + {x}| + |b - (a + {x})|;
  }

  /** A fresh index with `slotCount` slots holding everything `old` holds and no tombstones. */
  method MakeHashIndex(slotCount: nat, ot: HashIndex?, seed: nat, ghost codes: seq<nat>) returns (t: HashIndex)
    requires SlotCount(slotCount)
    requires ot != null ==> ot.Indexes(codes) && |ot.loc| == ot.usedCount && ot.usedCount < slotCount
    ensures fresh(t) && fresh(t.hash) && fresh(t.index)
    ensures t.slotCount == slotCount && t.tombstoneCount == 0
    ensures t.Indexes(codes)
    ensures ot == null ==> t.seed == seed && t.usedCount == 0 && t.loc == map[]
    ensures ot != null ==> t.seed == ot.seed && t.usedCount == ot.usedCount && t.loc.Keys == ot.loc.Keys
  {
    t := new HashIndex.Allocate(slotCount, if ot == null then seed else ot.seed);
    OtherCodes(t.order, t.hash[..], t.index[..], t.loc, [], codes);
    if ot != null {
      t.usedCount := ot.usedCount;
      t.AdoptAll(ot, codes);
    }
  }

  lemma {:induction false} AllEmpty(hs: seq<nat>)
    requires forall s :: 0 <= s < |hs| ==> hs[s] == HASH_EMPTY
    ensures multiset(hs)[HASH_EMPTY] == |hs| && multiset(hs)[HASH_DELETED] == 0
  {
    if hs != [] {
      AllEmpty(hs[1..]);
      assert hs == [hs[0]] + hs[1..];
    }
  }
}
