/**
 The hash map of `tg/stb_ds.h` in binary-key mode: a dense element array whose
 slot 0 is the default element, and an index into it that is grown, shrunk and
 rebuilt as elements come and go.
 */
module HashMaps {
  import opened Arith
  import opened Dictionary
  import opened HashIndexes
  import opened Pigeonhole
  import opened Placement
  import opened Probing

  /** Stored hashes 0 and 1 mark empty slots and tombstones. */
  function StoredHash(hash: nat): (h: nat)
    ensures h >= 2
  {
    if hash < 2 then hash + 2 else hash
  }

  function CodesOf<K, V>(hasher: (K, nat) -> nat, seed: nat, es: seq<Entry<K, V>>): (codes: seq<nat>)
    ensures |codes| == |es|
    ensures forall i :: 0 <= i < |es| ==> codes[i] == StoredHash(hasher(es[i].key, seed))
  {
    seq<nat>(|es|, i requires 0 <= i < |es| => StoredHash(hasher(es[i].key, seed)))
  }

  /** Below both thresholds at least one slot is neither used nor a tombstone. */
  lemma ThresholdsLeaveRoom(slotCount: nat, used: nat, tombstones: nat)
    requires SlotCount(slotCount)
    requires used <= slotCount - slotCount / 4 && tombstones <= slotCount / 8 + slotCount / 16
    ensures used + tombstones < slotCount
  {
    SlotCountDoubles(slotCount);
  }

  lemma SmallestSlotCount()
    ensures SlotCount(8)
  {
    assert 8 == 8 * Pow2(0);
  }

  /** After doubling, a table that was at its limit is below its new one. */
  lemma GrowthLeavesRoom(n: nat, used: nat)
    requires SlotCount(n) && used <= n - n / 4
    ensures SlotCount(n * 2) && used < n * 2 - (n * 2) / 4 <= n * 2
  {
    SlotCountDoubles(n);
  }

  lemma HalfLeavesRoom(n: nat, used: nat)
    requires SlotCount(n) && n > 8 && used < n / 4
    ensures SlotCount(n / 2) && used < n / 2 && used <= n / 2 - (n / 2) / 4
  {
    SlotCountHalves(n);
  }

  lemma SameLeavesRoom(n: nat, used: nat)
    requires SlotCount(n) && used <= n - n / 4
    ensures used < n
  {
    SlotCountDoubles(n);
  }

  /** Capacity after asking for `addLen` more elements and at least `minCap` in all. */
  function GrownCapacity(length: nat, capacity: nat, addLen: nat, minCap: nat): (c: nat)
    requires length <= capacity
    ensures c >= length + addLen && c >= minCap && c >= capacity
    ensures c == capacity || (c >= 4 && c >= 2 * capacity)
    ensures c > capacity ==> capacity < length + addLen || capacity < minCap
    ensures c > capacity ==> c == 2 * capacity || c == 4 || c == length + addLen || c == minCap
  {
    var need := if length + addLen > minCap then length + addLen else minCap;
    if need <= capacity then capacity
    else if need < 2 * capacity then 2 * capacity
    else if need < 4 then 4
    else need
  }

  /** An index and the element array it leads into (default element first), as values. */
  datatype View<K, V> = View(order: ProbeOrder, hs: seq<nat>, ix: seq<int>, es: seq<Entry<K, V>>) {

    /** Every slot with this code leads to an element that can be compared; tombstones are marked twice. */
    ghost predicate Readable(code: nat) {
      && code >= 2 && |hs| == |ix| && SlotCount(|hs|) && IsOrder(order, |hs|)
      && (forall s :: 0 <= s < |hs| && hs[s] == code ==> 0 <= ix[s] < |es| - 1)
      && (forall s :: 0 <= s < |hs| ==> (hs[s] == HASH_DELETED <==> ix[s] == INDEX_DELETED))
    }

    /** Slot `s` holds an element with this code and key. */
    ghost predicate Matches(code: nat, key: K, s: nat)
      requires Readable(code)
    {
      s < |hs| && hs[s] == code && es[ix[s] + 1].key == key
    }

    /** A probe loop looks past slot `s`. */
    ghost predicate Passes(code: nat, key: K, s: nat)
      requires Readable(code)
    {
      s < |hs| && hs[s] != HASH_EMPTY && !Matches(code, key, s)
    }

    ghost predicate PassedUpTo(code: nat, key: K, k: nat)
      requires Readable(code)
    {
      forall j :: 0 <= j < k ==> Passes(code, key, order(code, j))
    }

    /** The `k`-th probe ends the loop: an empty slot or a match. */
    ghost predicate StopsAt(code: nat, key: K, slot: int, k: nat)
      requires Readable(code)
    {
      0 <= slot < |hs| && slot == order(code, k) && (hs[slot] == HASH_EMPTY || Matches(code, key, slot))
    }

    /** `t` is negative, or a tombstone met during the first `k` probes. */
    ghost predicate TombstoneSeen(code: nat, t: int, kt: nat, k: nat) {
      t >= 0 ==> t < |hs| && hs[t] == HASH_DELETED && kt < k && t == order(code, kt)
    }

    /** The entries after the default element are, or start with, `entries`. */
    ghost predicate Holds(entries: seq<Entry<K, V>>) {
      |entries| < |es| && forall i :: 0 <= i < |entries| ==> es[i + 1] == entries[i]
    }

    /** Every indexed element carries the code of its key. */
    ghost predicate Coded(hasher: (K, nat) -> nat, seed: nat, loc: map<int, nat>, codes: seq<nat>) {
      && Placed(order, hs, ix, loc, codes) && SlotCount(|hs|) && IsOrder(order, |hs|)
      && (forall i :: i in loc ==> 0 <= i < |es| - 1 && codes[i] == StoredHash(hasher(es[i + 1].key, seed)))
    }

    lemma CodedIsReadable(hasher: (K, nat) -> nat, seed: nat, loc: map<int, nat>, codes: seq<nat>, code: nat)
      requires Coded(hasher, seed, loc, codes) && code >= 2
      ensures Readable(code)
    {
    }

    /** Where a probe for a key ends tells whether the key is indexed. */
    lemma StopMeans(hasher: (K, nat) -> nat, seed: nat, loc: map<int, nat>, codes: seq<nat>, key: K, slot: int, k: nat)
      requires Coded(hasher, seed, loc, codes) && Readable(StoredHash(hasher(key, seed)))
      requires StopsAt(StoredHash(hasher(key, seed)), key, slot, k) && PassedUpTo(StoredHash(hasher(key, seed)), key, k)
      ensures hs[slot] != HASH_EMPTY ==> ix[slot] in loc && es[ix[slot] + 1].key == key
      ensures hs[slot] == HASH_EMPTY ==> forall i :: i in loc ==> es[i + 1].key != key
    {
      var code := StoredHash(hasher(key, seed));
      if hs[slot] == HASH_EMPTY {
        forall i | i in loc && codes[i] == code
          ensures es[i + 1].key != key
        {
          assert HoldsAt(order, hs, ix, codes[i], i, loc[i]);
          MetBeforeEmpty(order, hs, ix, loc, codes, i, k);
          assert Passes(code, key, order(code, loc[i]));
        }
      }
    }

    lemma PassedAreOccupied(code: nat, key: K, k: nat, upTo: nat)
      requires Readable(code) && PassedUpTo(code, key, k) && upTo <= k
      ensures OccupiedUpTo(order, hs, code, upTo)
    {
      forall j | 0 <= j < upTo
        ensures order(code, j) < |hs| && hs[order(code, j)] != HASH_EMPTY
      {
        assert Passes(code, key, order(code, j));
      }
    }

    /** While the last element also fills the hole, its key leads to its old place only. */
    lemma OnlyTheLast(entries: seq<Entry<K, V>>, hole: nat, keys: set<int>, slot: int)
      requires DistinctKeys(entries) && hole < |entries| - 1 && |hs| == |ix|
      requires keys == Range(0, |entries|) - {hole as int}
      requires Holds(entries[hole := entries[|entries| - 1]])
      requires slot >= 0 ==> slot < |ix| && ix[slot] in keys && es[ix[slot] + 1].key == es[hole + 1].key
      requires slot < 0 ==> forall i :: i in keys ==> es[i + 1].key != es[hole + 1].key
      ensures slot >= 0 && ix[slot] == |entries| - 1
    {
      var now, last := entries[hole := entries[|entries| - 1]], |entries| - 1;
      InRange(|entries|);
      assert es[hole + 1] == now[hole] == entries[last] && es[last + 1] == now[last] == entries[last];
      assert last in keys;
      if slot >= 0 {
        assert es[ix[slot] + 1] == now[ix[slot]];
        MovedKey(entries, now, hole, ix[slot]);
      }
    }

    /** Looking among the indexed elements is looking among the entries. */
    lemma FoundAmong(entries: seq<Entry<K, V>>, keys: set<int>, key: K, slot: int)
      requires Holds(entries) && |hs| == |ix|
      requires forall i :: i in keys <==> 0 <= i < |entries|
      requires slot >= 0 ==> slot < |ix| && ix[slot] in keys && es[ix[slot] + 1].key == key
      requires slot < 0 ==> forall i :: i in keys ==> es[i + 1].key != key
      ensures slot >= 0 ==> 0 <= ix[slot] < |entries| && entries[ix[slot]].key == key
      ensures slot < 0 ==> !HasKey(entries, key)
    {
      if slot < 0 {
        forall i | 0 <= i < |entries|
          ensures entries[i].key != key
        {
          assert i in keys;
        }
      }
    }

    lemma StillOpen(code: nat, key: K, k: nat)
      requires Readable(code) && PassedUpTo(code, key, k) && multiset(hs)[HASH_EMPTY] > 0
      ensures k < |hs|
    {
      PassedAreOccupied(code, key, k, k);
      EmptySlotAhead(order, hs, code, k);
    }

    lemma PassedToEnd(code: nat, key: K, r: nat, pos: nat, upTo: nat)
      requires Readable(code) && pos == RoundPos(code % |hs|, |hs|, r)
      requires PassedUpTo(code, key, 8 * r) && pos <= upTo <= pos - pos % 8 + 8
      requires forall s :: pos <= s < upTo ==> Passes(code, key, s)
      ensures PassedUpTo(code, key, 8 * r + (upTo - pos))
      ensures upTo < pos - pos % 8 + 8 ==> order(code, 8 * r + (upTo - pos)) == upTo
    {
      ScanToEnd(order, |hs|, code, r, pos, upTo);
    }

    lemma PassedAround(code: nat, key: K, r: nat, pos: nat, upTo: nat)
      requires Readable(code) && pos == RoundPos(code % |hs|, |hs|, r)
      requires PassedUpTo(code, key, 8 * r) && pos - pos % 8 <= upTo <= pos
      requires forall s :: pos <= s < pos - pos % 8 + 8 ==> Passes(code, key, s)
      requires forall s :: pos - pos % 8 <= s < upTo ==> Passes(code, key, s)
      ensures PassedUpTo(code, key, 8 * r + 8 - (pos - upTo))
      ensures upTo < pos ==> order(code, 8 * r + 8 - (pos - upTo)) == upTo
    {
      ScanFromStart(order, |hs|, code, r, pos, upTo);
    }
  }

  lemma AppendedKeysDistinct<K, V>(es: seq<Entry<K, V>>, es': seq<Entry<K, V>>)
    requires DistinctKeys(es) && |es'| == |es| + 1 && es'[..|es|] == es && !HasKey(es, es'[|es|].key)
    ensures DistinctKeys(es')
  {
    forall j | 0 <= j < |es|
      ensures es'[j] == es[j] && es'[j].key != es'[|es|].key
    {
      assert es'[..|es|][j] == es[j];
    }
  }

  /** Besides the hole, only the last place has the key of the last entry. */
  lemma MovedKey<K, V>(es: seq<Entry<K, V>>, es': seq<Entry<K, V>>, hole: nat, j: int)
    requires DistinctKeys(es) && hole < |es| - 1 && es' == es[hole := es[|es| - 1]]
    requires 0 <= j < |es| && j != hole && es'[j].key == es[|es| - 1].key
    ensures j == |es| - 1
  {
  }

  lemma RangeSize(n: nat)
    ensures |Range(0, n)| == n
  {
  }

  lemma RangeShrinks(n: nat, hole: nat)
    requires hole < n - 1
    ensures Range(0, n) - {hole as int} - {n - 1} + {hole as int} == Range(0, n - 1)
  {
    InRange(n);
    InRange(n - 1);
  }

  lemma RangeGrows(n: nat)
    ensures Range(0, n + 1) == Range(0, n) + {n as int}
  {
  }

  lemma InRange(n: nat)
    ensures forall i :: i in Range(0, n) <==> 0 <= i < n
  {
  }

  class HashMap<K(==), V> {
    const hasher: (K, nat) -> nat
    const zero: Entry<K, V>          // an element of zero bytes
    var elems: array?<Entry<K, V>>   // elems[0] is the default element
    var length: nat                  // counts the default element
    var table: HashIndex?
    var temp: int

    /** The arrays and the index behind this map. */
    function Repr(): set<object>
      reads this`elems, this`table
    {
      (if elems == null then {} else {elems}) + (if table == null then {} else {table, table.hash, table.index})
    }

    /** The stored entries, in array order. */
    function Entries(): seq<Entry<K, V>>
      reads this`elems, this`length, elems
    {
      if elems == null || !(1 <= length <= elems.Length) then [] else elems[1..length]
    }

    /** The map this table stands for. */
    ghost function Map(): map<K, V>
      reads this`elems, this`length, elems
    {
      ToMap(Entries())
    }

    ghost predicate ArrayOk()
      reads this`elems, this`length, elems
    {
      && (elems == null ==> length == 0)
      && (elems != null ==> 1 <= length <= elems.Length)
      && DistinctKeys(Entries())
    }

    ghost predicate Separate()
      reads this`elems, this`table
    {
      table != null && elems != null ==> elems as object !in {table as object, table.hash, table.index}
    }

    ghost function Codes(): seq<nat>
      requires table != null
      reads this`elems, this`length, this`table, elems, table
    {
      CodesOf(hasher, table.seed, Entries())
    }

    /** The index knows exactly the entries. */
    ghost predicate IndexedAll()
      requires table != null
      reads this`elems, this`length, this`table, Repr()
    {
      && table.Indexes(Codes())
      && table.loc.Keys == Range(0, |Entries()|)
      && table.usedCount == |Entries()|
    }

    /** ... and its counters are inside their thresholds. */
    ghost predicate IndexOk()
      requires table != null
      reads this`elems, this`length, this`table, Repr()
    {
      && IndexedAll()
      && table.usedCount <= table.usedCountThreshold
      && table.tombstoneCount <= table.tombstoneCountThreshold
    }

    ghost predicate Valid()
      reads this`elems, this`length, this`table, Repr()
    {
      && ArrayOk()
      && (this as object) !in Repr() && Separate()
      && (elems == null ==> table == null)
      && (table == null ==> Entries() == [])
      && (table != null ==> IndexOk())
    }

    constructor (hasher: (K, nat) -> nat, zero: Entry<K, V>)
      ensures Valid() && Map() == map[] && elems == null && table == null
    {
      this.hasher := hasher;
      this.zero := zero;
      this.elems := null;
      this.length := 0;
      this.table := null;
      this.temp := 0;
    }

    /** Makes room in the element array, as `stbds_arrgrowf` does. */
    method ArrGrow(addLen: nat, minCap: nat)
      requires elems == null ==> length == 0
      requires elems != null ==> length <= elems.Length
      modifies this`elems
      ensures old(elems) == null && addLen == 0 && minCap == 0 ==> elems == null
      ensures elems != null ==>
                elems.Length
                == GrownCapacity(length, if old(elems) == null then 0 else old(elems.Length), addLen, minCap)
      ensures elems == old(elems) || fresh(elems)
      ensures old(elems) != null ==> elems != null && elems[..length] == old(elems[..length])
      ensures addLen > 0 || minCap > 0 ==> elems != null
    {
      var capacity := if elems == null then 0 else elems.Length;
      var grown := GrownCapacity(length, capacity, addLen, minCap);
      if grown > capacity {
        var z := zero;
        var b := new Entry<K, V>[grown](_ => z);
        var a := elems;
        if a != null {
          forall i | 0 <= i < a.Length {
            b[i] := a[i];
          }
          assert b[..length] == a[..length];
        }
        elems := b;
      }
    }

    /** `v` shows the index and the element array as they are. */
    ghost predicate Shows(v: View<K, V>)
      reads this`elems, this`length, this`table, Repr()
    {
      && elems != null && table != null && table.Shape()
      && v == View(table.order, table.hash[..], table.index[..], elems[..])
    }

    /** The slots `lo..hi` of one bucket: stops at a match or an empty slot and remembers a first tombstone. */
    method ScanSlots(code: nat, key: K, lo: nat, hi: nat, tombstone: int, ghost v: View<K, V>)
      returns (slot: int, t: int)
      requires Shows(v) && v.Readable(code) && lo <= hi <= table.slotCount
      ensures slot == -1 || lo <= slot < hi
      ensures slot >= 0 ==> v.hs[slot] == HASH_EMPTY || v.Matches(code, key, slot)
      ensures forall s :: lo <= s < (if slot < 0 then hi else slot) ==> v.Passes(code, key, s)
      ensures tombstone >= 0 ==> t == tombstone
      ensures tombstone < 0 && t >= 0 ==> lo <= t < (if slot < 0 then hi else slot) && v.hs[t] == HASH_DELETED
      ensures t < 0 ==> forall s :: lo <= s < (if slot < 0 then hi else slot) ==> v.hs[s] != HASH_DELETED
    {
      var i := lo;
      t := tombstone;
      while i < hi
        invariant lo <= i <= hi
        invariant forall s :: lo <= s < i ==> v.Passes(code, key, s)
        invariant tombstone >= 0 ==> t == tombstone
        invariant tombstone < 0 && t >= 0 ==> lo <= t < i && v.hs[t] == HASH_DELETED
        invariant t < 0 ==> forall s :: lo <= s < i ==> v.hs[s] != HASH_DELETED
      {
        assert table.hash[i] == v.hs[i] && table.index[i] == v.ix[i];
        if table.hash[i] == code {
          if elems[table.index[i] + 1].key == key {
            return i, t;
          }
        } else if table.hash[i] == HASH_EMPTY {
          return i, t;
        } else if t < 0 {
          if table.index[i] == INDEX_DELETED {
            t := i;
          }
        }
        i := i + 1;
      }
      slot := -1;
    }

    /** One round of the probe loop: the bucket of `pos`, from `pos` to its end and then from its start. */
    method ScanBucket(code: nat, key: K, pos: nat, tombstone: int, ghost r: nat, ghost kt0: nat, ghost v: View<K, V>)
      returns (slot: int, t: int, ghost k: nat, ghost kt: nat)
      requires Shows(v) && v.Readable(code)
      requires pos < table.slotCount && pos == RoundPos(code % table.slotCount, table.slotCount, r)
      requires v.PassedUpTo(code, key, 8 * r) && v.TombstoneSeen(code, tombstone, kt0, 8 * r)
      ensures slot >= 0 ==> v.StopsAt(code, key, slot, k)
      ensures slot < 0 ==> k == 8 * (r + 1)
      ensures v.PassedUpTo(code, key, k) && v.TombstoneSeen(code, t, kt, k)
    {
      hide RoundPos, IsOrder, SlotCount, StoredHash, View<K, V>.Passes, View<K, V>.Matches, View<K, V>.PassedUpTo;
      hide View<K, V>.Readable;
      BucketFits(pos, table.slotCount);
      var bucket := pos - pos % BUCKET_LENGTH;
      slot, t := ScanSlots(code, key, pos, bucket + BUCKET_LENGTH, tombstone, v);
      kt := kt0;
      if tombstone < 0 <= t {
        kt := 8 * r + (t - pos);
        v.PassedToEnd(code, key, r, pos, t);
      }
      if slot >= 0 {
        k := 8 * r + (slot - pos);
        v.PassedToEnd(code, key, r, pos, slot);
        return;
      }
      var before := t;
      slot, t := ScanSlots(code, key, bucket, pos, before, v);
      if before < 0 <= t {
        kt := 8 * r + 8 - (pos - t);
        v.PassedAround(code, key, r, pos, t);
      }
      k := 8 * r + 8 - (if slot < 0 then 0 else pos - slot);
      v.PassedAround(code, key, r, pos, if slot < 0 then pos else slot);
    }

    /** Follows the probe path of `code` to the element with this key, or else to the first empty slot. */
    method Probe(code: nat, key: K, ghost v: View<K, V>) returns (slot: int, t: int, ghost k: nat, ghost kt: nat)
      requires Shows(v) && v.Readable(code) && multiset(v.hs)[HASH_EMPTY] > 0
      ensures v.StopsAt(code, key, slot, k)
      ensures v.PassedUpTo(code, key, k) && v.TombstoneSeen(code, t, kt, k)
    {
      hide View<K, V>.Passes, View<K, V>.Matches;
      var pos := code % table.slotCount;
      var step := BUCKET_LENGTH;
      ghost var r := 0;
      slot, t, k, kt := ScanBucket(code, key, pos, -1, r, 0, v);
      while slot < 0
        invariant Shows(v) && step == 8 * (r + 1)
        invariant pos < table.slotCount && pos == RoundPos(code % table.slotCount, table.slotCount, r)
        invariant slot >= 0 ==> v.StopsAt(code, key, slot, k)
        invariant slot < 0 ==> k == 8 * (r + 1)
        invariant v.PassedUpTo(code, key, k) && v.TombstoneSeen(code, t, kt, k)
        decreases table.slotCount - 8 * r
      {
        v.StillOpen(code, key, k);
        pos := (pos + step) % table.slotCount;
        step := step + BUCKET_LENGTH;
        r := r + 1;
        slot, t, k, kt := ScanBucket(code, key, pos, t, r, kt, v);
      }
    }

    /** All that looking a key up relies on; it also holds in the middle of a deletion. */
    ghost predicate Searchable(v: View<K, V>, codes: seq<nat>)
      reads this`elems, this`length, this`table, Repr()
    {
      && Shows(v) && table.Indexes(codes)
      && v.Coded(hasher, table.seed, table.loc, codes)
      && |table.loc| + table.tombstoneCount < table.slotCount
    }

    /** `stbds_hm_find_slot`: the slot of the element with this key, or -1. */
    method FindSlot(key: K, ghost v: View<K, V>, ghost codes: seq<nat>) returns (slot: int)
      requires Searchable(v, codes)
      ensures slot >= 0 ==> slot < table.slotCount && v.ix[slot] in table.loc && v.es[v.ix[slot] + 1].key == key
      ensures slot < 0 ==> forall i :: i in table.loc ==> v.es[i + 1].key != key
    {
      hide Placed;
      var code := StoredHash(hasher(key, table.seed));
      v.CodedIsReadable(hasher, table.seed, table.loc, codes, code);
      var t;
      ghost var k, kt;
      slot, t, k, kt := Probe(code, key, v);
      v.StopMeans(hasher, table.seed, table.loc, codes, key, slot, k);
      if table.hash[slot] == HASH_EMPTY {
        slot := -1;
      }
    }

    /** The value handed out for keys that are not there. */
    function Default(): V
      requires elems != null ==> elems.Length > 0
      reads this`elems, this`length, this`table, elems
    {
      if elems == null then zero.value else elems[0].value
    }

    lemma ValidHasShape()
      requires Valid() && table != null
      ensures table.Shape()
    {
      hide Placed, IsOrder, SlotCount, DistinctKeys;
    }

    lemma ValidCounts()
      requires Valid() && table != null
      ensures table.usedCount == |table.loc| == |Entries()| && table.loc.Keys == Range(0, |Entries()|)
      ensures |table.loc| <= table.usedCountThreshold && table.tombstoneCount <= table.tombstoneCountThreshold
    {
      hide Placed, IsOrder, SlotCount, DistinctKeys;
      assert |table.loc| == |table.loc.Keys|;
    }

    /** Some slot is always empty, so every probe loop ends. */
    lemma ValidHasEmptySlot()
      requires Valid() && table != null
      ensures |table.loc| + table.tombstoneCount < table.slotCount
      ensures multiset(table.hash[..])[HASH_EMPTY] == table.slotCount - table.tombstoneCount - |table.loc| > 0
    {
      hide Placed, IsOrder, SlotCount, DistinctKeys, Entries;
      ValidCounts();
      ThresholdsLeaveRoom(table.slotCount, |table.loc|, table.tombstoneCount);
    }

    lemma ValidHolds(v: View<K, V>)
      requires Valid() && table != null && Shows(v)
      ensures v.Holds(Entries())
    {
      hide IndexOk, DistinctKeys;
    }

    lemma ValidIsCoded(v: View<K, V>)
      requires Valid() && table != null && Shows(v) && v.Holds(Entries())
      requires table.loc.Keys == Range(0, |Entries()|)
      ensures v.Coded(hasher, table.seed, table.loc, Codes())
    {
      hide Placed, IsOrder, SlotCount, DistinctKeys, Range;
      var es, codes := Entries(), Codes();
      InRange(|es|);
      forall i | i in table.loc
        ensures 0 <= i < |v.es| - 1 && codes[i] == StoredHash(hasher(v.es[i + 1].key, table.seed))
      {
        assert v.es[i + 1] == es[i];
      }
    }

    lemma ValidIsSearchable(v: View<K, V>)
      requires Valid() && table != null && Shows(v)
      ensures Searchable(v, Codes())
      ensures |table.loc| == |Entries()| && table.loc.Keys == Range(0, |Entries()|)
      ensures v.Holds(Entries()) && multiset(v.hs)[HASH_EMPTY] > 0
    {
      ValidCounts();
      ValidHasEmptySlot();
      ValidHolds(v);
      ValidIsCoded(v);
      hide View<K, V>.Coded, View<K, V>.Holds, Placed, IsOrder, SlotCount, DistinctKeys;
    }

    ghost function TheView(): View<K, V>
      requires elems != null && table != null
      reads this`elems, this`length, this`table, Repr()
    {
      View(table.order, table.hash[..], table.index[..], elems[..])
    }

    /** The element array exists afterwards, with its default element. */
    method EnsureArray()
      requires Valid()
      modifies this`elems, this`length
      ensures Valid() && elems != null && Entries() == old(Entries()) && Default() == old(Default())
      ensures elems == old(elems) || fresh(elems)
      ensures table == old(table)
      ensures fresh(Repr() - old(Repr()))
    {
      if elems == null {
        ArrGrow(0, 1);
        length := 1;
        elems[0] := zero;
      }
    }

    /** The place of the key's element among the entries, or -1. */
    method IndexOf(key: K) returns (i: int)
      requires Valid() && elems != null
      ensures i == -1 ==> !HasKey(Entries(), key)
      ensures i != -1 ==> 0 <= i < |Entries()| && Entries()[i].key == key
    {
      hide IndexOk, Separate, Searchable, ArrayOk, Range;
      if table == null {
        return -1;
      }
      ValidHasShape();
      var slot := SlotOf(key);
      i := if slot < 0 then -1 else table.index[slot];
    }

    /** `stbds_hmget_key`: leaves the position of the key's element in `temp`, or -1. */
    method GetKey(key: K)
      requires Valid()
      modifies this`elems, this`length, this`temp
      ensures Valid() && elems != null && Entries() == old(Entries()) && Default() == old(Default())
      ensures temp == -1 ==> !HasKey(Entries(), key)
      ensures temp != -1 ==> 0 <= temp < |Entries()| && Entries()[temp].key == key
      ensures fresh(Repr() - old(Repr()))
    {
      hide IndexOk, Separate;
      if elems == null {
        EnsureArray();
        temp := -1;
      } else {
        temp := IndexOf(key);
      }
    }

    /** `hmget`: the value bound to the key, else the default. */
    method Get(key: K) returns (value: V)
      requires Valid()
      modifies this`elems, this`length, this`temp
      ensures Valid() && Entries() == old(Entries()) && Default() == old(Default())
      ensures value == if key in Map() then Map()[key] else Default()
      ensures fresh(Repr() - old(Repr()))
    {
      hide IndexOk, Separate;
      GetKey(key);
      ToMapKeys(Entries(), key);
      if temp != -1 {
        ToMapAt(Entries(), temp);
      }
      value := elems[temp + 1].value;
    }

    /** `hmdefault`. */
    method PutDefault(value: V)
      requires Valid()
      modifies this`elems, this`length, elems
      ensures Valid() && Entries() == old(Entries()) && Default() == value
      ensures fresh(Repr() - old(Repr()))
    {
      hide HashIndex.Indexes, IsOrder, SlotCount, Range, CodesOf, DistinctKeys;
      EnsureArray();
      SetDefault(value);
    }

    method SetDefault(value: V)
      requires Valid() && elems != null
      modifies elems
      ensures Valid() && Entries() == old(Entries()) && Default() == value
    {
      hide HashIndex.Indexes, IsOrder, SlotCount, Range, CodesOf, DistinctKeys;
      ghost var es := Entries();
      elems[0] := Entry(elems[0].key, value);
      assert Entries() == es;
    }

    /** Replaces the index by a fresh one of the given size with the same elements. */
    method Reindex(slotCount: nat, freshSeed: nat)
      requires elems != null && SlotCount(slotCount) && |Entries()| < slotCount
      requires if table == null then Entries() == [] else IndexedAll()
      modifies this`table
      ensures table != null && fresh(table) && fresh(table.hash) && fresh(table.index)
      ensures IndexedAll() && table.slotCount == slotCount && table.tombstoneCount == 0
      ensures table.Shape() && table.usedCount == |Entries()|
      ensures (this as object) !in Repr() && Separate()
      ensures old(table) != null ==> table.seed == old(table).seed
    {
      hide Placed, IsOrder, SlotCount, Range, CodesOf;
      ghost var codes := if table == null then [] else Codes();
      ReindexCounts();
      var t := MakeHashIndex(slotCount, table, freshSeed, codes);
      assert CodesOf(hasher, t.seed, Entries()) == codes;
      hide HashIndex.Indexes;
      InRange(0);
      table := t;
    }

    lemma ReindexCounts()
      requires if table == null then Entries() == [] else IndexedAll()
      ensures table != null ==> table.usedCount == |table.loc| == |Entries()|
    {
      hide HashIndex.Indexes, Range;
      if table != null {
        InRange(|Entries()|);
        RangeSize(|Entries()|);
        assert |table.loc| == |table.loc.Keys|;
      }
    }

    /** A first index, or one of twice the size once three quarters of the slots are used. */
    method EnsureIndex(freshSeed: nat)
      requires Valid() && elems != null
      modifies this`table
      ensures Valid() && table != null && table.usedCount < table.usedCountThreshold
      ensures table == old(table) || (fresh(table) && fresh(table.hash) && fresh(table.index))
      ensures old(table) != null ==> table.seed == old(table).seed
      ensures fresh(Repr() - old(Repr()))
    {
      hide ArrayOk, Separate, IndexedAll, IsOrder, SlotCount;
      if table == null || table.usedCount >= table.usedCountThreshold {
        var slotCount := BUCKET_LENGTH;
        if table == null {
          SmallestSlotCount();
        } else {
          ValidHasShape();
          ValidCounts();
          GrowthLeavesRoom(table.slotCount, |Entries()|);
          slotCount := table.slotCount * 2;
        }
        Reindex(slotCount, freshSeed);
      }
    }

    /** Appends an element with this key; its value bytes are whatever the array held there. */
    method AppendEntry(key: K)
      requires elems != null && 1 <= length <= elems.Length
      modifies this`elems, this`length, elems
      ensures elems != null && length == old(length) + 1 <= elems.Length
      ensures elems == old(elems) || fresh(elems)
      ensures elems[..old(length)] == old(elems[..length]) && elems[old(length)].key == key
    {
      if length + 1 > elems.Length {
        ArrGrow(1, 0);
      }
      ghost var before := elems[..length];
      elems[length] := Entry(key, elems[length].value);
      length := length + 1;
      assert elems[..length - 1] == before;
    }

    /** The index knows every entry but the last, just appended one. */
    ghost predicate IndexedButLast()
      requires table != null
      reads this`elems, this`length, this`table, Repr()
    {
      && |Entries()| > 0
      && table.Indexes(Codes())
      && table.loc.Keys == Range(0, |Entries()| - 1)
      && table.usedCount == |Entries()| - 1
    }

    method AppendUnindexed(key: K)
      requires Valid() && elems != null && table != null && !HasKey(Entries(), key)
      modifies this`elems, this`length, elems
      ensures elems != null && ArrayOk() && (this as object) !in Repr() && Separate() && IndexedButLast()
      ensures elems == old(elems) || fresh(elems)
      ensures |Entries()| == |old(Entries())| + 1 && Entries()[..|old(Entries())|] == old(Entries())
      ensures Entries()[|old(Entries())|].key == key && Default() == old(Default())
    {
      hide HashIndex.Indexes, HashIndex.Shape, Range, CodesOf, DistinctKeys, ToMap, HasKey, IsOrder, SlotCount;
      ghost var es, codes := Entries(), Codes();
      ValidCounts();
      AppendEntry(key);
      InRange(|es|);
      assert forall j :: 0 <= j < |es| ==> Entries()[j] == es[j];
      table.IndexesAnyway(codes, Codes());
      AppendedKeysDistinct(es, Entries());
    }

    /** Appends an element for a new key and enters it into the index. */
    method Insert(key: K, code: nat, slot: nat, t: int, ghost k: nat)
      requires Valid() && elems != null && table != null && table.usedCount < table.usedCountThreshold
      requires code == StoredHash(hasher(key, table.seed)) && !HasKey(Entries(), key)
      requires t < 0 ==> slot < table.slotCount && table.hash[slot] == HASH_EMPTY && slot == table.order(code, k)
      requires t >= 0 ==> t < table.slotCount && table.hash[t] == HASH_DELETED && t == table.order(code, k)
      requires OccupiedUpTo(table.order, table.hash[..], code, k)
      modifies this`elems, this`length, this`temp, Repr()
      ensures Valid() && elems != null && table == old(table)
      ensures elems == old(elems) || fresh(elems)
      ensures temp == |old(Entries())| && |Entries()| == temp + 1
      ensures Entries()[..temp] == old(Entries()) && Entries()[temp].key == key && Default() == old(Default())
      ensures fresh(Repr() - old(Repr()))
    {
      hide HashIndex.Indexes, OccupiedUpTo, DistinctKeys, Range, CodesOf, ToMap, HasKey;
      AppendUnindexed(key);
      var i := length - 2;
      InRange(i);
      table.Occupy(slot, t, code, i, k, Codes());
      temp := i;
      RangeGrows(i);
    }

    /** The probe loop of `stbds_hmput_key`: the key's slot, or the free slot a new element may take. */
    method Locate(key: K, code: nat) returns (slot: int, t: int, ghost k: nat)
      requires Valid() && elems != null && table != null && code == StoredHash(hasher(key, table.seed))
      ensures 0 <= slot < table.slotCount
      ensures table.hash[slot] != HASH_EMPTY
              ==> 0 <= table.index[slot] < |Entries()| && Entries()[table.index[slot]].key == key
      ensures table.hash[slot] == HASH_EMPTY ==> !HasKey(Entries(), key)
      ensures t < 0 ==> slot == table.order(code, k)
      ensures t >= 0 ==> t < table.slotCount && table.hash[t] == HASH_DELETED && t == table.order(code, k)
      ensures OccupiedUpTo(table.order, table.hash[..], code, k)
    {
      hide IndexOk, ArrayOk, Separate, Placed, IsOrder, SlotCount, Range, OccupiedUpTo;
      ghost var v, es, codes := TheView(), Entries(), Codes();
      ValidHasShape();
      ValidIsSearchable(v);
      InRange(|es|);
      v.CodedIsReadable(hasher, table.seed, table.loc, codes, code);
      ghost var kt;
      slot, t, k, kt := Probe(code, key, v);
      v.StopMeans(hasher, table.seed, table.loc, codes, key, slot, k);
      v.FoundAmong(es, table.loc.Keys, key, if v.hs[slot] == HASH_EMPTY then -1 else slot);
      v.PassedAreOccupied(code, key, k, k);
      if t >= 0 {
        v.PassedAreOccupied(code, key, k, kt);
        k := kt;
      }
    }

    /** The second half of `stbds_hmput_key`, once there is room in the index. */
    method PutIndexed(key: K)
      requires Valid() && elems != null && table != null && table.usedCount < table.usedCountThreshold
      modifies this`elems, this`length, this`temp, Repr()
      ensures Valid() && elems != null && Default() == old(Default())
      ensures elems == old(elems) || fresh(elems)
      ensures 0 <= temp < |Entries()| && Entries()[temp].key == key
      ensures if HasKey(old(Entries()), key) then Entries() == old(Entries())
              else temp == |old(Entries())| && |Entries()| == temp + 1 && Entries()[..temp] == old(Entries())
      ensures fresh(Repr() - old(Repr()))
    {
      hide IndexOk, ArrayOk, Separate, OccupiedUpTo, IsOrder, SlotCount;
      ValidHasShape();
      var code := StoredHash(hasher(key, table.seed));
      var slot, t;
      ghost var k;
      slot, t, k := Locate(key, code);
      if table.hash[slot] != HASH_EMPTY {
        temp := table.index[slot];
        assert Entries()[temp].key == key;
      } else {
        Insert(key, code, slot, t, k);
      }
    }

    /** `stbds_hmput_key`: leaves in `temp` the place of the element with this key, a new one if there was none. */
    method PutKey(key: K, freshSeed: nat)
      requires Valid()
      modifies this`elems, this`length, this`table, this`temp, Repr()
      ensures Valid() && elems != null && Default() == old(Default())
      ensures elems == old(elems) || fresh(elems)
      ensures 0 <= temp < |Entries()| && Entries()[temp].key == key
      ensures if HasKey(old(Entries()), key) then Entries() == old(Entries())
              else temp == |old(Entries())| && |Entries()| == temp + 1 && Entries()[..temp] == old(Entries())
      ensures fresh(Repr() - old(Repr()))
    {
      hide IndexOk, ArrayOk, Separate, HashIndex.Shape, HasKey;
      EnsureArray();
      EnsureIndex(freshSeed);
      PutIndexed(key);
    }

    /** Writing an element with an unchanged key keeps the table intact. */
    method WriteValue(i: nat, key: K, value: V)
      requires Valid() && elems != null && i < |Entries()| && Entries()[i].key == key
      modifies elems
      ensures Valid() && Entries() == old(Entries())[i := Entry(key, value)] && Default() == old(Default())
    {
      hide HashIndex.Indexes, IsOrder, SlotCount, Range;
      ghost var es := Entries();
      ghost var codes := if table == null then [] else Codes();
      elems[i + 1] := Entry(key, value);
      assert Entries() == es[i := Entry(key, value)];
      assert table != null ==> Codes() == codes;
    }

    /** `hmput`. */
    method Put(key: K, value: V, freshSeed: nat)
      requires Valid()
      modifies this`elems, this`length, this`table, this`temp, Repr()
      ensures Valid() && Default() == old(Default())
      ensures Entries() == PutEntry(old(Entries()), key, value)
      ensures Map() == old(Map())[key := value]
      ensures fresh(Repr() - old(Repr()))
    {
      hide IndexOk, Separate;
      ghost var es := Entries();
      PutKey(key, freshSeed);
      ghost var mid, at := Entries(), temp;
      WriteValue(temp, key, value);
      PutEntryMeans(es, key, value);
      assert Entries() == PutEntry(es, key, value) by {
        if HasKey(es, key) {
          assert es[Position(es, key)].key == es[at].key;
        } else {
          assert mid[at := Entry(key, value)] == es + [Entry(key, value)];
        }
      }
    }

    /** The index knows every entry but number `hole`. */
    ghost predicate IndexedBut(codes: seq<nat>, hole: nat)
      requires table != null
      reads this`elems, this`length, this`table, Repr()
    {
      && hole < |codes| == |Entries()|
      && table.Indexes(codes)
      && table.loc.Keys == Range(0, |codes|) - {hole as int}
      && table.usedCount == |codes| - 1
      && (forall i :: 0 <= i < |codes| && i != hole ==> codes[i] == StoredHash(hasher(Entries()[i].key, table.seed)))
      && |table.loc| + table.tombstoneCount < table.slotCount
    }

    /** The element's slot becomes a tombstone; the element array is as before. */
    method Unindex(slot: nat) returns (hole: nat)
      requires Valid() && table != null && elems != null && slot < table.slotCount
      requires 0 <= table.index[slot] < |Entries()|
      modifies table, table.hash, table.index
      ensures hole == old(table.index[slot]) && hole < |Entries()| == old(|Entries()|)
      ensures Entries() == old(Entries()) && elems[..] == old(elems[..])
      ensures IndexedBut(CodesOf(hasher, table.seed, old(Entries())), hole)
      ensures table.usedCount == |Entries()| - 1 <= table.usedCountThreshold
    {
      hide HashIndex.Indexes, IsOrder, SlotCount, Range, DistinctKeys;
      ghost var codes := Codes();
      ValidHasShape();
      ValidCounts();
      ValidHasEmptySlot();
      ValidDirectory();
      InRange(|Entries()|);
      hole := table.index[slot];
      table.Entomb(slot, codes);
    }

    lemma ValidDirectory()
      requires Valid() && table != null
      ensures forall s :: 0 <= s < table.slotCount && table.index[s] >= 0 ==> table.index[s] in table.loc
    {
      hide IsOrder, SlotCount, Range, DistinctKeys, HoldsAt;
    }

    lemma HoleIsSearchable(v: View<K, V>, codes: seq<nat>, hole: nat)
      requires elems != null && table != null && IndexedBut(codes, hole) && v == TheView()
      requires 1 <= length <= elems.Length
      ensures Searchable(v, codes) && v.Holds(Entries())
      ensures table.loc.Keys == Range(0, |Entries()|) - {hole as int}
    {
      hide Placed, IsOrder, SlotCount, Range, DistinctKeys;
      InRange(|codes|);
      var es := Entries();
      forall i | i in table.loc
        ensures 0 <= i < |v.es| - 1 && codes[i] == StoredHash(hasher(v.es[i + 1].key, table.seed))
      {
        assert v.es[i + 1] == es[i];
      }
    }

    /** After the last element was copied into the hole: the slot that still says it is the last one. */
    method FindMoved(hole: nat, ghost es: seq<Entry<K, V>>) returns (slot: int)
      requires elems != null && table != null && 1 <= length <= elems.Length
      requires DistinctKeys(es) && hole < |es| - 1 && Entries() == es[hole := es[|es| - 1]]
      requires IndexedBut(CodesOf(hasher, table.seed, es), hole)
      ensures 0 <= slot < table.slotCount && table.index[slot] == |es| - 1
    {
      hide HashIndex.Indexes, IsOrder, SlotCount, Range, CodesOf, IndexedBut;
      ghost var codes, v := CodesOf(hasher, table.seed, es), TheView();
      HoleIsSearchable(v, codes, hole);
      slot := FindSlot(elems[hole + 1].key, v, codes);
      assert table.loc.Keys == Range(0, |es|) - {hole as int} && v.Holds(Entries());
      v.OnlyTheLast(es, hole, table.loc.Keys, slot);
    }

    method CopyLast(hole: nat, ghost codes: seq<nat>)
      requires elems != null && table != null && 1 <= length <= elems.Length && Separate()
      requires (this as object) !in Repr()
      requires hole < |Entries()| - 1 && IndexedBut(codes, hole)
      modifies elems
      ensures Entries() == old(Entries())[hole := old(Entries())[|Entries()| - 1]] && Default() == old(Default())
      ensures IndexedBut(codes, hole)
    {
      hide HashIndex.Indexes, IsOrder, SlotCount, Range;
      ghost var es := Entries();
      elems[hole + 1] := elems[length - 1];
      assert Entries() == es[hole := es[|es| - 1]];
    }

    /** Moves the last element into the hole and redirects its slot. */
    method FillHole(hole: nat, ghost es: seq<Entry<K, V>>)
      requires elems != null && table != null && 1 <= length <= elems.Length && Separate()
      requires (this as object) !in Repr()
      requires DistinctKeys(es) && hole < |es| - 1 && Entries() == es
      requires IndexedBut(CodesOf(hasher, table.seed, es), hole)
      modifies elems, table`loc, table.index
      ensures Entries() == es[hole := es[|es| - 1]] && Default() == old(Default())
      ensures table.Indexes(CodesOf(hasher, table.seed, SwapDelete(es, hole)))
      ensures table.loc.Keys == Range(0, |es| - 1)
    {
      hide HashIndex.Indexes, IsOrder, SlotCount, Range, CodesOf, DistinctKeys;
      ghost var codes, codes' := CodesOf(hasher, table.seed, es), CodesOf(hasher, table.seed, SwapDelete(es, hole));
      CopyLast(hole, codes);
      var slot := FindMoved(hole, es);
      InRange(|codes|);
      table.Relink(slot, hole, codes, codes');
      RangeShrinks(|es|, hole);
    }

    /** Swap-delete in the element array, with the index kept in step. */
    method RemoveAt(slot: nat, ghost i: nat)
      requires Valid() && table != null && elems != null && slot < table.slotCount
      requires i < |Entries()| && table.index[slot] == i
      modifies this`length, Repr()
      ensures elems != null && ArrayOk() && (this as object) !in Repr() && Separate() && IndexedAll()
      ensures Entries() == SwapDelete(old(Entries()), i) && Default() == old(Default())
      ensures table.Shape() && table.usedCount <= table.usedCountThreshold
    {
      hide HashIndex.Indexes, IsOrder, SlotCount, Range, CodesOf, IndexedBut, ToMap;
      ghost var es := Entries();
      ValidHasShape();
      var hole := Unindex(slot);
      SwapDeleteMeans(es, hole);
      var last := length - 2;
      if hole != last {
        FillHole(hole, es);
      } else {
        LastUnindexed(es, hole);
      }
      length := length - 1;
      assert Entries() == SwapDelete(es, hole);
    }

    /** Once the last entry is out of the index, dropping it leaves all others indexed. */
    lemma LastUnindexed(es: seq<Entry<K, V>>, hole: nat)
      requires table != null && hole == |es| - 1 && IndexedBut(CodesOf(hasher, table.seed, es), hole)
      ensures table.Indexes(CodesOf(hasher, table.seed, SwapDelete(es, hole)))
      ensures table.loc.Keys == Range(0, |es| - 1)
    {
      hide HashIndex.Indexes, IsOrder, SlotCount, Range, CodesOf;
      InRange(|es|);
      RangeGrows(hole);
      InRange(hole);
      table.IndexesAnyway(CodesOf(hasher, table.seed, es), CodesOf(hasher, table.seed, SwapDelete(es, hole)));
    }

    /** Halves an index that is less than a quarter full, or rebuilds one with too many tombstones. */
    method Tidy()
      requires elems != null && table != null && ArrayOk() && (this as object) !in Repr() && Separate() && IndexedAll()
      requires table.Shape() && table.usedCount <= table.usedCountThreshold
      modifies this`table
      ensures Valid() && table != null
      ensures table == old(table) || (fresh(table) && fresh(table.hash) && fresh(table.index))
    {
      hide ArrayOk, Separate, IndexedAll, IsOrder, SlotCount;
      if table.usedCount < table.usedCountShrinkThreshold && table.slotCount > BUCKET_LENGTH {
        UsedIsEntries();
        HalfLeavesRoom(table.slotCount, table.usedCount);
        Reindex(table.slotCount / 2, table.seed);
      } else if table.tombstoneCount > table.tombstoneCountThreshold {
        UsedIsEntries();
        SameLeavesRoom(table.slotCount, table.usedCount);
        Reindex(table.slotCount, table.seed);
      }
    }

    lemma UsedIsEntries()
      requires table != null && IndexedAll()
      ensures table.usedCount == |Entries()|
    {
      hide HashIndex.Indexes;
    }

    /** `hmdel`: tells whether the key was there. */
    method Delete(key: K) returns (deleted: bool)
      requires Valid()
      modifies this`length, this`table, this`temp, Repr()
      ensures Valid() && Default() == old(Default())
      ensures deleted == (key in old(Map()))
      ensures Entries() == DeleteEntry(old(Entries()), key)
      ensures Map() == old(Map()) - {key}
      ensures fresh(Repr() - old(Repr()))
    {
      hide IndexOk, IndexedAll, Separate, IsOrder, SlotCount;
      ghost var es := Entries();
      DeleteEntryMeans(es, key);
      ToMapKeys(es, key);
      if elems == null {
        return false;
      }
      temp := 0;
      if table == null {
        return false;
      }
      var slot := SlotOf(key);
      if slot < 0 {
        return false;
      }
      temp := 1;
      assert Position(es, key) == table.index[slot];
      RemoveAt(slot, table.index[slot]);
      Tidy();
      return true;
    }

    /** Where the index has the key, or -1. */
    method SlotOf(key: K) returns (slot: int)
      requires Valid() && elems != null && table != null
      ensures slot < table.slotCount == table.index.Length
      ensures slot < 0 ==> !HasKey(Entries(), key)
      ensures slot >= 0 ==> 0 <= table.index[slot] < |Entries()| && Entries()[table.index[slot]].key == key
    {
      hide IndexOk, Separate, Searchable, ArrayOk, Range;
      ghost var v, es := TheView(), Entries();
      ValidHasShape();
      ValidIsSearchable(v);
      InRange(|es|);
      slot := FindSlot(key, v, Codes());
      v.FoundAmong(es, table.loc.Keys, key, slot);
    }

    /** Any sequence of operations is answered as a plain finite map with a default would answer it. */
    method Run(ops: seq<Op<K, V>>) returns (answers: seq<Answer<V>>)
      requires Valid()
      modifies this, Repr()
      ensures Valid() && fresh(Repr() - old(Repr()))
      ensures answers == Answers(old(Map()), old(Default()), ops)
      ensures Map() == AfterAll(old(Map()), old(Default()), ops).0
      decreases |ops|
    {
      hide IndexOk, ArrayOk, Separate, Entries, ToMap;
      if ops == [] {
        return [];
      }
      var answer;
      match ops[0] {
        case PutOp(key, value, seed) =>
          Put(key, value, seed);
          answer := Done;
        case GetOp(key) =>
          var value := Get(key);
          answer := Got(value);
        case DeleteOp(key) =>
          var deleted := Delete(key);
          answer := Deleted(deleted);
        case DefaultOp(value) =>
          PutDefault(value);
          answer := Done;
      }
      var rest := Run(ops[1..]);
      return [answer] + rest;
    }
  }

  /** What callers do with a map. */
  datatype Op<K, V> = PutOp(key: K, value: V, seed: nat) | GetOp(key: K) | DeleteOp(key: K) | DefaultOp(value: V)

  datatype Answer<V> = Done | Got(value: V) | Deleted(was: bool)

  /** One operation on a plain finite map with a default. */
  ghost function After<K, V>(m: map<K, V>, default: V, op: Op<K, V>): (map<K, V>, V) {
    match op
    case PutOp(key, value, _) => (m[key := value], default)
    case GetOp(_) => (m, default)
    case DeleteOp(key) => (m - {key}, default)
    case DefaultOp(value) => (m, value)
  }

  ghost function AnswerOf<K, V>(m: map<K, V>, default: V, op: Op<K, V>): Answer<V> {
    match op
    case PutOp(_, _, _) => Done
    case GetOp(key) => Got(if key in m then m[key] else default)
    case DeleteOp(key) => Deleted(key in m)
    case DefaultOp(_) => Done
  }

  ghost function AfterAll<K, V>(m: map<K, V>, default: V, ops: seq<Op<K, V>>): (map<K, V>, V)
    decreases |ops|
  {
    if ops == [] then (m, default)
    else var (m', d') := After(m, default, ops[0]); AfterAll(m', d', ops[1..])
  }

  ghost function Answers<K, V>(m: map<K, V>, default: V, ops: seq<Op<K, V>>): seq<Answer<V>>
    decreases |ops|
  {
    if ops == [] then []
    else var (m', d') := After(m, default, ops[0]);
         [AnswerOf(m, default, ops[0])] + Answers(m', d', ops[1..])
  }
}
