/**
 What a hash index means, on values: `hs` and `ix` are the stored hashes and
 element indices of all slots, `codes` the hash codes of the elements, and
 `loc` tells for every indexed element after how many probes its slot is met.
 The probe order is an arbitrary function here, so none of these facts depend
 on the hash function or on the step sequence.
 */
module Placement {
  import opened Probing

  type ProbeOrder = (nat, nat) -> nat

  const INDEX_EMPTY: int := -1
  const INDEX_DELETED: int := -2
  const HASH_EMPTY: nat := 0
  const HASH_DELETED: nat := 1

  function ProbeSlot(code: nat, n: nat, k: nat): nat
    requires n > 0
  {
    Probe(code % n, n, k)
  }

  /** `p` is the probe order of an index with `n` slots. */
  ghost predicate IsOrder(p: ProbeOrder, n: nat) {
    n > 0 && forall code, k {:trigger ProbeSlot(code, n, k)} :: p(code, k) == ProbeSlot(code, n, k)
  }

  lemma OrderInBucket(p: ProbeOrder, n: nat, code: nat, r: nat, pos: nat, k: nat)
    requires n > 0 && IsOrder(p, n) && pos == RoundPos(code % n, n, r)
    requires 8 * r <= k < 8 * r + 8
    ensures p(code, k) == Around(pos, pos - pos % 8, k - 8 * r)
  {
    hide RoundPos, Around;
    assert p(code, k) == ProbeSlot(code, n, k);
    ProbeInRound(code % n, n, r, k, pos);
  }

  /** One round: the eight slots of a bucket starting inside it. */
  lemma OrderBucket(p: ProbeOrder, n: nat, code: nat, r: nat, pos: nat)
    requires SlotCount(n) && IsOrder(p, n) && pos == RoundPos(code % n, n, r)
    ensures forall k :: 8 * r <= k < 8 * r + 8 ==> p(code, k) == Around(pos, pos - pos % 8, k - 8 * r)
  {
    hide IsOrder, RoundPos, Around;
    forall k | 8 * r <= k < 8 * r + 8
      ensures p(code, k) == Around(pos, pos - pos % 8, k - 8 * r)
    {
      OrderInBucket(p, n, code, r, pos, k);
    }
  }

  lemma BucketFits(pos: nat, n: nat)
    requires SlotCount(n) && pos < n
    ensures pos - pos % 8 + 8 <= n
  {
    SlotCountDoubles(n);
    hide SlotCount;
    var b, m := pos / 8, n / 8;
    assert pos == 8 * b + pos % 8 && n == 8 * m;
    assert b < m;
  }

  /** Scanning `pos..upTo`, up to the end of the bucket, covers these probes. */
  lemma ScanToEnd(p: ProbeOrder, n: nat, code: nat, r: nat, pos: nat, upTo: nat)
    requires SlotCount(n) && IsOrder(p, n) && pos == RoundPos(code % n, n, r)
    requires pos <= upTo <= pos - pos % 8 + 8
    ensures upTo < pos - pos % 8 + 8 ==> p(code, 8 * r + (upTo - pos)) == upTo
    ensures forall k :: 8 * r <= k < 8 * r + (upTo - pos) ==> pos <= p(code, k) < upTo
  {
    hide IsOrder, SlotCount, RoundPos;
    OrderBucket(p, n, code, r, pos);
  }

  /** Scanning the whole rest of the bucket and then `bucket..upTo` covers these probes. */
  lemma ScanFromStart(p: ProbeOrder, n: nat, code: nat, r: nat, pos: nat, upTo: nat)
    requires SlotCount(n) && IsOrder(p, n) && pos == RoundPos(code % n, n, r)
    requires pos - pos % 8 <= upTo <= pos
    ensures upTo < pos ==> p(code, 8 * r + 8 - (pos - upTo)) == upTo
    ensures forall k :: 8 * r <= k < 8 * r + 8 - (pos - upTo)
              ==> pos <= p(code, k) < pos - pos % 8 + 8 || pos - pos % 8 <= p(code, k) < upTo
  {
    hide IsOrder, SlotCount, RoundPos;
    OrderBucket(p, n, code, r, pos);
  }

  /** While some slot is empty, fewer than `n` probes can have met occupied slots only. */
  lemma EmptySlotAhead(p: ProbeOrder, hs: seq<nat>, code: nat, seen: nat)
    requires SlotCount(|hs|) && IsOrder(p, |hs|)
    requires multiset(hs)[HASH_EMPTY] > 0
    requires OccupiedUpTo(p, hs, code, seen)
    ensures seen < |hs|
  {
    var n := |hs|;
    assert HASH_EMPTY in multiset(hs);
    var s: nat :| s < n && hs[s] == HASH_EMPTY;
    ProbeCoversOnce(code % n, n, s);
    var k :| 0 <= k < n && Probe(code % n, n, k) == s;
    assert p(code, k) == ProbeSlot(code, n, k);
  }

  /** Slots and elements point at each other, and no empty slot cuts a probe path short. */
  ghost predicate Placed(p: ProbeOrder, hs: seq<nat>, ix: seq<int>, loc: map<int, nat>, codes: seq<nat>) {
    && |hs| == |ix|
    && (forall s :: 0 <= s < |ix| ==>
          && ix[s] >= -2
          && (hs[s] == HASH_EMPTY <==> ix[s] == INDEX_EMPTY)
          && (hs[s] == HASH_DELETED <==> ix[s] == INDEX_DELETED))
    && (forall s :: 0 <= s < |ix| && ix[s] >= 0 ==> ix[s] in loc && ix[s] < |codes| && s == p(codes[ix[s]], loc[ix[s]]))
    && (forall i :: i in loc ==> 0 <= i < |codes| && HoldsAt(p, hs, ix, codes[i], i, loc[i]))
  }

  /** Element `i` with code `c` sits in the slot met after `k` probes, all earlier ones being occupied. */
  ghost predicate HoldsAt(p: ProbeOrder, hs: seq<nat>, ix: seq<int>, c: nat, i: int, k: nat) {
    && c >= 2
    && |hs| == |ix|
    && p(c, k) < |hs|
    && hs[p(c, k)] == c
    && ix[p(c, k)] == i
    && OccupiedUpTo(p, hs, c, k)
  }

  ghost predicate OccupiedUpTo(p: ProbeOrder, hs: seq<nat>, c: nat, k: nat) {
    forall j :: 0 <= j < k ==> p(c, j) < |hs| && hs[p(c, j)] != HASH_EMPTY
  }

  /** An occupied stretch extends over the scanned part of a bucket. */
  lemma OccupiedToEnd(p: ProbeOrder, hs: seq<nat>, code: nat, r: nat, pos: nat, upTo: nat)
    requires SlotCount(|hs|) && IsOrder(p, |hs|) && pos == RoundPos(code % |hs|, |hs|, r)
    requires OccupiedUpTo(p, hs, code, 8 * r) && pos <= upTo <= pos - pos % 8 + 8 <= |hs|
    requires forall s :: pos <= s < upTo ==> hs[s] != HASH_EMPTY
    ensures OccupiedUpTo(p, hs, code, 8 * r + (upTo - pos))
    ensures upTo < pos - pos % 8 + 8 ==> p(code, 8 * r + (upTo - pos)) == upTo
  {
    ScanToEnd(p, |hs|, code, r, pos, upTo);
  }

  lemma OccupiedAround(p: ProbeOrder, hs: seq<nat>, code: nat, r: nat, pos: nat, upTo: nat)
    requires SlotCount(|hs|) && IsOrder(p, |hs|) && pos == RoundPos(code % |hs|, |hs|, r)
    requires OccupiedUpTo(p, hs, code, 8 * r) && pos - pos % 8 <= upTo <= pos <= pos - pos % 8 + 8 <= |hs|
    requires forall s :: pos <= s < pos - pos % 8 + 8 ==> hs[s] != HASH_EMPTY
    requires forall s :: pos - pos % 8 <= s < upTo ==> hs[s] != HASH_EMPTY
    ensures OccupiedUpTo(p, hs, code, 8 * r + 8 - (pos - upTo))
    ensures upTo < pos ==> p(code, 8 * r + 8 - (pos - upTo)) == upTo
  {
    ScanFromStart(p, |hs|, code, r, pos, upTo);
  }

  /** Filling a free slot at the end of an occupied stretch of the probe path. */
  lemma Fill(p: ProbeOrder, hs: seq<nat>, ix: seq<int>, loc: map<int, nat>, codes: seq<nat>, i: int, k: nat)
    requires Placed(p, hs, ix, loc, codes)
    requires i !in loc && 0 <= i < |codes| && codes[i] >= 2
    requires p(codes[i], k) < |hs| && hs[p(codes[i], k)] < 2
    requires OccupiedUpTo(p, hs, codes[i], k)
    ensures var s := p(codes[i], k);
            Placed(p, hs[s := codes[i]], ix[s := i], loc[i := k], codes)
  {
    var s := p(codes[i], k);
    var hs', ix', loc' := hs[s := codes[i]], ix[s := i], loc[i := k];
    forall j | j in loc'
      ensures 0 <= j < |codes| && HoldsAt(p, hs', ix', codes[j], j, loc'[j])
    {
      if j != i {
        assert HoldsAt(p, hs, ix, codes[j], j, loc[j]);
      }
    }
  }

  /** Turning the slot of element `i` into a tombstone. */
  lemma Bury(p: ProbeOrder, hs: seq<nat>, ix: seq<int>, loc: map<int, nat>, codes: seq<nat>, s: nat)
    requires Placed(p, hs, ix, loc, codes)
    requires s < |ix| && ix[s] >= 0
    ensures Placed(p, hs[s := HASH_DELETED], ix[s := INDEX_DELETED], loc - {ix[s]}, codes)
  {
    var i := ix[s];
    var hs', ix', loc' := hs[s := HASH_DELETED], ix[s := INDEX_DELETED], loc - {i};
    forall j | j in loc'
      ensures 0 <= j < |codes| && HoldsAt(p, hs', ix', codes[j], j, loc'[j])
    {
      assert HoldsAt(p, hs, ix, codes[j], j, loc[j]);
    }
    forall t | 0 <= t < |ix'| && ix'[t] >= 0
      ensures ix'[t] in loc'
    {
      assert ix[t] in loc && t == p(codes[ix[t]], loc[ix[t]]);
    }
  }

  /** Renumbering the element in slot `s` as `to`, a number not in use. */
  lemma Renumber(p: ProbeOrder, hs: seq<nat>, ix: seq<int>, loc: map<int, nat>, codes: seq<nat>, codes': seq<nat>,
                 s: nat, to: int)
    requires Placed(p, hs, ix, loc, codes)
    requires s < |ix| && ix[s] >= 0 && to !in loc
    requires 0 <= to < |codes'| && codes'[to] == codes[ix[s]]
    requires forall j :: j in loc && j != ix[s] ==> 0 <= j < |codes'| && codes'[j] == codes[j]
    ensures Placed(p, hs, ix[s := to], (loc - {ix[s]})[to := loc[ix[s]]], codes')
  {
    var i := ix[s];
    var ix', loc' := ix[s := to], (loc - {i})[to := loc[i]];
    forall j | j in loc'
      ensures 0 <= j < |codes'| && HoldsAt(p, hs, ix', codes'[j], j, loc'[j])
    {
      if j != to {
        assert HoldsAt(p, hs, ix, codes[j], j, loc[j]);
      } else {
        assert HoldsAt(p, hs, ix, codes[i], i, loc[i]);
      }
    }
    forall t | 0 <= t < |ix'| && ix'[t] >= 0
      ensures ix'[t] in loc' && ix'[t] < |codes'| && t == p(codes'[ix'[t]], loc'[ix'[t]])
    {
      assert ix[t] in loc && t == p(codes[ix[t]], loc[ix[t]]);
    }
  }

  /** A code list that grows or shrinks outside the indexed elements changes nothing. */
  lemma OtherCodes(p: ProbeOrder, hs: seq<nat>, ix: seq<int>, loc: map<int, nat>, codes: seq<nat>, codes': seq<nat>)
    requires Placed(p, hs, ix, loc, codes)
    requires forall j :: j in loc ==> 0 <= j < |codes'| && codes'[j] == codes[j]
    ensures Placed(p, hs, ix, loc, codes')
  {
  }

  /** An indexed element is met on its probe path before any empty slot. */
  lemma MetBeforeEmpty(p: ProbeOrder, hs: seq<nat>, ix: seq<int>, loc: map<int, nat>, codes: seq<nat>, i: int, k: nat)
    requires Placed(p, hs, ix, loc, codes) && i in loc
    requires p(codes[i], k) < |hs| && hs[p(codes[i], k)] == HASH_EMPTY
    ensures loc[i] < k
  {
    assert HoldsAt(p, hs, ix, codes[i], i, loc[i]);
  }

  /** The number of empty slots after overwriting one slot. */
  lemma EmptiesAfter(hs: seq<nat>, s: nat, v: nat)
    requires s < |hs| && v != HASH_EMPTY
    ensures multiset(hs[s := v])[HASH_EMPTY] == multiset(hs)[HASH_EMPTY] - (if hs[s] == HASH_EMPTY then 1 else 0)
    ensures multiset(hs[s := v])[HASH_DELETED]
         == multiset(hs)[HASH_DELETED] - (if hs[s] == HASH_DELETED then 1 else 0) + (if v == HASH_DELETED then 1 else 0)
  {
    assert multiset(hs[s := v]) == multiset(hs) - multiset{hs[s]} + multiset{v};
  }
}
