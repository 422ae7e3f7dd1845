/**
 * The finite map that a list of entries with distinct keys stands for, and the list operations of `tg/stb_ds.h`
 * on it.
 */
module Dictionary {

  datatype Entry<K, V> = Entry(key: K, value: V)

  ghost predicate DistinctKeys<K, V>(es: seq<Entry<K, V>>) {
    forall i, j :: 0 <= i < j < |es| ==> es[i].key != es[j].key
  }

  ghost predicate HasKey<K, V>(es: seq<Entry<K, V>>, key: K) {
    exists i :: 0 <= i < |es| && es[i].key == key
  }

  /** The map an entry list stands for. */
  ghost function ToMap<K, V>(es: seq<Entry<K, V>>): map<K, V> {
    if es == [] then map[] else ToMap(es[..|es| - 1])[es[|es| - 1].key := es[|es| - 1].value]
  }

  lemma {:induction false} ToMapKeys<K, V>(es: seq<Entry<K, V>>, key: K)
    ensures key in ToMap(es) <==> HasKey(es, key)
  {
    if es != [] {
      var rest, last := es[..|es| - 1], es[|es| - 1];
      ToMapKeys(rest, key);
      if HasKey(rest, key) {
        var i :| 0 <= i < |rest| && rest[i].key == key;
        assert es[i].key == key;
      }
      if HasKey(es, key) && last.key != key {
        var i :| 0 <= i < |es| && es[i].key == key;
        assert rest[i].key == key;
      }
    }
  }

  lemma {:induction false} ToMapAt<K, V>(es: seq<Entry<K, V>>, i: nat)
    requires DistinctKeys(es) && i < |es|
    ensures es[i].key in ToMap(es) && ToMap(es)[es[i].key] == es[i].value
  {
    if i < |es| - 1 {
      ToMapAt(es[..|es| - 1], i);
    }
  }

  /** Two lists of entries with distinct keys stand for the same map if each entry of one occurs in the other. */
  lemma SameMap<K, V>(es: seq<Entry<K, V>>, m: map<K, V>)
    requires DistinctKeys(es)
    requires forall i :: 0 <= i < |es| ==> es[i].key in m && m[es[i].key] == es[i].value
    requires forall key :: key in m ==> HasKey(es, key)
    ensures ToMap(es) == m
  {
    var t := ToMap(es);
    forall key | key in t
      ensures key in m
    {
      ToMapKeys(es, key);
    }
    forall key | key in m
      ensures key in t && t[key] == m[key]
    {
      var i :| 0 <= i < |es| && es[i].key == key;
      ToMapAt(es, i);
    }
    assert t.Keys == m.Keys;
  }

  /** Appending an entry with a new key. */
  lemma AppendMeans<K, V>(es: seq<Entry<K, V>>, key: K, value: V)
    requires DistinctKeys(es) && !HasKey(es, key)
    ensures DistinctKeys(es + [Entry(key, value)])
    ensures ToMap(es + [Entry(key, value)]) == ToMap(es)[key := value]
  {
    var es' := es + [Entry(key, value)];
    assert es'[..|es'| - 1] == es;
  }

  /** Overwriting the value of an entry. */
  lemma OverwriteMeans<K, V>(es: seq<Entry<K, V>>, i: nat, value: V)
    requires DistinctKeys(es) && i < |es|
    ensures DistinctKeys(es[i := Entry(es[i].key, value)])
    ensures ToMap(es[i := Entry(es[i].key, value)]) == ToMap(es)[es[i].key := value]
  {
    var es', m := es[i := Entry(es[i].key, value)], ToMap(es)[es[i].key := value];
    forall j | 0 <= j < |es'|
      ensures es'[j].key in m && m[es'[j].key] == es'[j].value
    {
      ToMapAt(es, j);
    }
    forall key | key in m
      ensures HasKey(es', key)
    {
      ToMapKeys(es, key);
      ToMapAt(es, i);
      var j :| 0 <= j < |es| && es[j].key == key;
      assert es'[j].key == key;
    }
    SameMap(es', m);
  }

  /** Swap-delete: the last entry takes the place of the deleted one. */
  function SwapDelete<K, V>(es: seq<Entry<K, V>>, i: nat): (r: seq<Entry<K, V>>)
    requires i < |es|
    ensures |r| == |es| - 1
    ensures forall j :: 0 <= j < |r| ==> r[j] == es[if j == i then |r| else j]
  {
    es[i := es[|es| - 1]][..|es| - 1]
  }

  /** Swap-delete removes exactly one key and leaves every other binding as it was. */
  lemma SwapDeleteMeans<K, V>(es: seq<Entry<K, V>>, i: nat)
    requires DistinctKeys(es) && i < |es|
    ensures DistinctKeys(SwapDelete(es, i))
    ensures ToMap(SwapDelete(es, i)) == ToMap(es) - {es[i].key}
  {
    hide SwapDelete, ToMap;
    var es', m, last := SwapDelete(es, i), ToMap(es) - {es[i].key}, |es| - 1;
    forall j | 0 <= j < |es'|
      ensures es'[j].key in m && m[es'[j].key] == es'[j].value
    {
      ToMapAt(es, if j == i then last else j);
    }
    forall key | key in m
      ensures HasKey(es', key)
    {
      ToMapKeys(es, key);
      var j :| 0 <= j < |es| && es[j].key == key;
      assert es'[if j == last then i else j].key == key;
    }
    SameMap(es', m);
  }

  ghost function Position<K, V>(es: seq<Entry<K, V>>, key: K): (i: nat)
    requires HasKey(es, key)
    ensures i < |es| && es[i].key == key
  {
    var i: nat :| i < |es| && es[i].key == key;
    i
  }

  /** Put on an entry list: overwrite in place, or append. */
  ghost function PutEntry<K, V>(es: seq<Entry<K, V>>, key: K, value: V): seq<Entry<K, V>> {
    if HasKey(es, key) then es[Position(es, key) := Entry(key, value)] else es + [Entry(key, value)]
  }

  /** Delete on an entry list: swap-delete, or nothing. */
  ghost function DeleteEntry<K, V>(es: seq<Entry<K, V>>, key: K): seq<Entry<K, V>> {
    if HasKey(es, key) then SwapDelete(es, Position(es, key)) else es
  }

  lemma PutEntryMeans<K, V>(es: seq<Entry<K, V>>, key: K, value: V)
    requires DistinctKeys(es)
    ensures DistinctKeys(PutEntry(es, key, value))
    ensures ToMap(PutEntry(es, key, value)) == ToMap(es)[key := value]
  {
    if HasKey(es, key) {
      OverwriteMeans(es, Position(es, key), value);
    } else {
      AppendMeans(es, key, value);
    }
  }

  lemma DeleteEntryMeans<K, V>(es: seq<Entry<K, V>>, key: K)
    requires DistinctKeys(es)
    ensures DistinctKeys(DeleteEntry(es, key))
    ensures ToMap(DeleteEntry(es, key)) == ToMap(es) - {key}
  {
    if HasKey(es, key) {
      SwapDeleteMeans(es, Position(es, key));
    } else {
      ToMapKeys(es, key);
    }
  }
}
