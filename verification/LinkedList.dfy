/** tg/list.h: a list of heap nodes spliced in place. */
module LinkedLists {
  import opened Options

  /** The first item that matches, if any. */
  function Found<T>(s: seq<T>, cmp: T -> bool): Option<T> {
    if s == [] then None else if cmp(s[0]) then Some(s[0]) else Found(s[1..], cmp)
  }

  /** The items without the first that matches. */
  function Without<T>(s: seq<T>, cmp: T -> bool): seq<T> {
    if s == [] then [] else if cmp(s[0]) then s[1..] else [s[0]] + Without(s[1..], cmp)
  }

  /** Cutting at `k`: the first match goes and everything else keeps its order; with no match nothing changes. */
  lemma {:induction false} CutMeans<T>(s: seq<T>, cmp: T -> bool, k: nat)
    requires k <= |s| && (forall i :: 0 <= i < k ==> !cmp(s[i])) && (k < |s| ==> cmp(s[k]))
    ensures Found(s, cmp) == if k < |s| then Some(s[k]) else None
    ensures Without(s, cmp) == if k < |s| then s[..k] + s[k + 1..] else s
  {
    if k > 0 {
      CutMeans(s[1..], cmp, k - 1);
      assert s == [s[0]] + s[1..];
    }
  }

  class Node<T> {
    var prev: Node?<T>
    const data: T

    constructor (prev: Node?<T>, data: T)
      ensures this.prev == prev && this.data == data
    {
      this.prev := prev;
      this.data := data;
    }
  }

  /** The items of some nodes. */
  ghost function Datas<T>(nodes: seq<Node<T>>): (c: seq<T>)
    ensures |c| == |nodes| && forall i :: 0 <= i < |c| ==> c[i] == nodes[i].data
  {
    seq(|nodes|, i requires 0 <= i < |nodes| => nodes[i].data)
  }

  lemma DatasAdd<T>(n: Node<T>, nodes: seq<Node<T>>)
    ensures Datas([n] + nodes) == [n.data] + Datas(nodes)
  {
  }

  lemma DatasCut<T>(nodes: seq<Node<T>>, k: nat)
    requires k < |nodes|
    ensures Datas(nodes[..k] + nodes[k + 1..]) == Datas(nodes)[..k] + Datas(nodes)[k + 1..]
  {
  }

  /** Distinct nodes, each linked to the next. */
  ghost predicate Linked<T>(head: Node?<T>, nodes: seq<Node<T>>)
    reads nodes
  {
    && (forall i, j :: 0 <= i < j < |nodes| ==> nodes[i] != nodes[j])
    && head == At(nodes, 0)
    && forall i :: 0 <= i < |nodes| ==> nodes[i].prev == At(nodes, i + 1)
  }

  /** A `list_t *` variable and the nodes that hang from it. */
  class List<T> {
    var head: Node?<T>
    /** The nodes in the order the links visit them. */
    ghost var nodes: seq<Node<T>>

    ghost predicate Valid()
      reads this, nodes
    {
      Linked(head, nodes)
    }

    ghost function Contents(): seq<T>
      reads this`nodes
    {
      Datas(nodes)
    }

    constructor ()
      ensures Valid() && Contents() == [] && nodes == []
    {
      head := null;
      nodes := [];
    }

    /** `list_add`: a new first node. */
    method Add(item: T)
      requires Valid()
      modifies this
      ensures Valid() && Contents() == [item] + old(Contents())
      ensures |nodes| == |old(nodes)| + 1 && fresh(nodes[0]) && nodes[1..] == old(nodes)
    {
      var n := new Node(head, item);
      DatasAdd(n, nodes);
      nodes := [n] + nodes;
      head := n;
    }

    /** Takes the node `l` out of the chain. */
    method Unlink(ghost k: nat, l: Node<T>, prev: Node?<T>)
      requires Valid() && k < |nodes| && l == nodes[k] && prev == if k == 0 then null else nodes[k - 1]
      modifies this, nodes
      ensures Valid() && nodes == old(nodes[..k] + nodes[k + 1..])
    {
      if prev != null {
        prev.prev := l.prev;
      } else {
        head := l.prev;
      }
      nodes := nodes[..k] + nodes[k + 1..];
    }

    /** The search of `list_cut`: the first node that matches and the one before it. */
    method Search(cmp: T -> bool) returns (l: Node?<T>, prev: Node?<T>, ghost k: nat)
      requires Valid()
      ensures k <= |nodes| && l == At(nodes, k) && prev == if k == 0 then null else nodes[k - 1]
      ensures forall i :: 0 <= i < k ==> !cmp(Contents()[i])
      ensures l != null ==> k < |nodes| && l == nodes[k] && cmp(Contents()[k])
      ensures l == null ==> k == |nodes|
    {
      l := head;
      prev := null;
      k := 0;
      while l != null
        invariant k <= |nodes| && l == At(nodes, k) && prev == if k == 0 then null else nodes[k - 1]
        invariant forall i :: 0 <= i < k ==> !cmp(Contents()[i])
        decreases |nodes| - k
      {
        if cmp(l.data) {
          return;
        }
        prev := l;
        l := l.prev;
        k := k + 1;
      }
    }

    /** `list_cut`: unlinks the first node whose item matches and gives the item back. */
    method Cut(cmp: T -> bool) returns (data: Option<T>)
      requires Valid()
      modifies this, nodes
      ensures Valid()
      ensures data == Found(old(Contents()), cmp) && Contents() == Without(old(Contents()), cmp)
      ensures forall n :: n in nodes ==> n in old(nodes)
    {
      data := None;
      var l, prev, k := Search(cmp);
      hide Linked, Found, Without;
      CutMeans(Contents(), cmp, k);
      if l != null {
        data := Some(l.data);
        DatasCut(nodes, k);
        Unlink(k, l, prev);
      }
    }

    /** `list_for_each`: the items in order. */
    method Items() returns (items: seq<T>)
      requires Valid()
      ensures items == Contents()
    {
      items := [];
      var p := head;
      ghost var k := 0;
      while p != null
        invariant k <= |nodes| && p == At(nodes, k) && items == Contents()[..k]
        decreases |nodes| - k
      {
        items := items + [p.data];
        p := p.prev;
        k := k + 1;
      }
    }

    /** `list_free`. */
    method Free()
      requires Valid()
      modifies this
      ensures Valid() && Contents() == [] && nodes == []
    {
      var l := head;
      ghost var k := 0;
      while l != null
        invariant k <= |nodes| && l == At(nodes, k)
        decreases |nodes| - k
      {
        l := l.prev;
        k := k + 1;
      }
      head := null;
      nodes := [];
    }
  }

  ghost function At<T>(nodes: seq<Node<T>>, i: nat): Node?<T> {
    if i < |nodes| then nodes[i] else null
  }
}
