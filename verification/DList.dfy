/** The doubly linked list of esp32/main/list.c: nodes on the heap, refined to a sequence. */
module DList {
  import opened Basics

  class Node<T> {
    var next: Node?<T>
    var prev: Node?<T>
    var element: T

    /** dlist__alloc, with the element its callers set at once. */
    constructor (element: T)
      ensures next == null && prev == null && this.element == element
    {
      next, prev, this.element := null, null, element;
    }
  }

  ghost function NodeAt<T>(nodes: seq<Node<T>>, i: int): Node?<T> {
    if 0 <= i < |nodes| then nodes[i] else null
  }

  /** The nodes of the list that starts at `list`, in order: next and prev are inverse to each
      other, end in null and never meet a node twice. */
  ghost predicate IsList<T>(list: Node?<T>, nodes: seq<Node<T>>)
    reads nodes
  {
    && list == (if nodes == [] then null else nodes[0])
    && (forall i {:trigger nodes[i].next} :: 0 <= i < |nodes| ==> nodes[i].next == NodeAt(nodes, i + 1))
    && (forall i {:trigger nodes[i].prev} :: 0 <= i < |nodes| ==> nodes[i].prev == NodeAt(nodes, i - 1))
    && (forall i, j :: 0 <= i < j < |nodes| ==> nodes[i] != nodes[j])
  }

  ghost function Elements<T>(nodes: seq<Node<T>>): (s: seq<T>)
    reads nodes
    ensures |s| == |nodes|
    ensures forall i :: 0 <= i < |s| ==> s[i] == nodes[i].element
  {
    if nodes == [] then [] else [nodes[0].element] + Elements(nodes[1..])
  }

  /** x as a new element k of s. */
  ghost function InsertAt<T>(s: seq<T>, k: nat, x: T): seq<T>
    requires k <= |s|
  {
    s[..k] + [x] + s[k..]
  }

  lemma InsertedAt<T>(s: seq<T>, k: nat, x: T)
    requires k <= |s|
    ensures |InsertAt(s, k, x)| == |s| + 1 && InsertAt(s, k, x)[k] == x
  {
  }

  ghost function RemoveAt<T>(s: seq<T>, k: nat): seq<T>
    requires k < |s|
  {
    s[..k] + s[k + 1..]
  }

  lemma RemovedFrom<T>(s: seq<T>, k: nat)
    requires k < |s|
    ensures |RemoveAt(s, k)| == |s| - 1 && forall x :: x in RemoveAt(s, k) ==> x in s
  {
  }

  // ---------- From pointers to sequences ----------

  /** Every pointer is as in the list `nodes` but for those that lead to and from n, at place k. */
  ghost predicate Spliced<T>(nodes: seq<Node<T>>, k: nat, n: Node<T>)
    reads nodes, n
  {
    && k <= |nodes|
    && (forall i {:trigger nodes[i].next} :: 0 <= i < |nodes| ==>
          nodes[i].next == if i + 1 == k then n else NodeAt(nodes, i + 1))
    && (forall i {:trigger nodes[i].prev} :: 0 <= i < |nodes| ==>
          nodes[i].prev == if i == k then n else NodeAt(nodes, i - 1))
    && n.next == NodeAt(nodes, k) && n.prev == NodeAt(nodes, k - 1)
    && (forall i, j :: 0 <= i < j < |nodes| ==> nodes[i] != nodes[j])
    && (forall i :: 0 <= i < |nodes| ==> nodes[i] != n)
  }

  lemma SplicedIsList<T>(nodes: seq<Node<T>>, k: nat, n: Node<T>, s: seq<T>)
    requires Spliced(nodes, k, n)
    requires |s| == |nodes| && forall i :: 0 <= i < |s| ==> s[i] == nodes[i].element
    ensures IsList(if k == 0 then n else nodes[0], InsertAt(nodes, k, n))
    ensures Elements(InsertAt(nodes, k, n)) == InsertAt(s, k, n.element)
  {
    hide Elements;
    var nodes' := InsertAt(nodes, k, n);
    assert forall i :: 0 <= i < k ==> nodes'[i] == nodes[i];
    assert nodes'[k] == n;
    assert forall i :: k < i < |nodes'| ==> nodes'[i] == nodes[i - 1];
  }

  /** Every pointer is as in the list `nodes` but for those that led to node k. */
  ghost predicate Bypassed<T>(nodes: seq<Node<T>>, k: nat)
    reads nodes
  {
    && k < |nodes|
    && (forall i {:trigger nodes[i].next} :: 0 <= i < |nodes| ==>
          nodes[i].next == NodeAt(nodes, if i + 1 == k then k + 1 else i + 1))
    && (forall i {:trigger nodes[i].prev} :: 0 <= i < |nodes| ==>
          nodes[i].prev == NodeAt(nodes, if i == k + 1 then k - 1 else i - 1))
    && (forall i, j :: 0 <= i < j < |nodes| ==> nodes[i] != nodes[j])
  }

  lemma BypassedIsList<T>(nodes: seq<Node<T>>, k: nat)
    requires Bypassed(nodes, k)
    ensures IsList(NodeAt(nodes, if k == 0 then 1 else 0), RemoveAt(nodes, k))
  {
    var nodes' := RemoveAt(nodes, k);
    assert forall i :: 0 <= i < k ==> nodes'[i] == nodes[i];
    assert forall i :: k <= i < |nodes'| ==> nodes'[i] == nodes[i + 1];
  }

  lemma RemovedElements<T>(nodes: seq<Node<T>>, k: nat, s: seq<T>)
    requires |s| == |nodes| && k < |nodes|
    requires forall i :: 0 <= i < |s| ==> s[i] == nodes[i].element
    ensures Elements(RemoveAt(nodes, k)) == RemoveAt(s, k)
  {
    hide Elements;
  }

  // ---------- Inserting ----------

  method Last<T>(list: Node?<T>, ghost nodes: seq<Node<T>>) returns (last: Node?<T>)
    requires IsList(list, nodes)
    ensures last == NodeAt(nodes, |nodes| - 1)
  {
    last := null;
    var l := list;
    ghost var i := 0;
    while l != null
      invariant 0 <= i <= |nodes| && l == NodeAt(nodes, i) && last == NodeAt(nodes, i - 1)
      decreases |nodes| - i
    {
      last := l;
      l := l.next;
      i := i + 1;
    }
  }

  method Append<T>(list: Node?<T>, element: T, ghost nodes: seq<Node<T>>)
    returns (r: Node<T>, ghost nodes': seq<Node<T>>)
    requires IsList(list, nodes)
    modifies nodes
    ensures IsList(r, nodes') && |nodes'| == |nodes| + 1 && nodes' == nodes + [nodes'[|nodes|]]
    ensures fresh(nodes'[|nodes|])
    ensures Elements(nodes') == old(Elements(nodes)) + [element]
  {
    hide Elements;
    ghost var s := Elements(nodes);
    var nlist := new Node(element);
    nodes' := nodes + [nlist];
    r := nlist;
    if list != null {
      var last := Last(list, nodes);
      last.next := nlist;
      nlist.prev := last;
      r := list;
    }
    SplicedIsList(nodes, |nodes|, nlist, s);
    assert InsertAt(nodes, |nodes|, nlist) == nodes';
    assert InsertAt(s, |nodes|, element) == s + [element];
  }

  method InsertBefore<T>(list: Node<T>, sibling: Node<T>, element: T, ghost nodes: seq<Node<T>>, ghost k: nat)
    returns (r: Node<T>, ghost nodes': seq<Node<T>>)
    requires IsList(list, nodes) && k < |nodes| && nodes[k] == sibling
    modifies nodes
    ensures |nodes'| == |nodes| + 1 && nodes' == InsertAt(nodes, k, nodes'[k]) && fresh(nodes'[k])
    ensures IsList(r, nodes')
    ensures Elements(nodes') == InsertAt(old(Elements(nodes)), k, element)
  {
    hide Elements, InsertAt;
    ghost var s := Elements(nodes);
    var nlist := new Node(element);
    nodes' := InsertAt(nodes, k, nlist);
    nlist.prev := sibling.prev;
    nlist.next := sibling;
    sibling.prev := nlist;
    if nlist.prev != null {
      nlist.prev.next := nlist;
      r := list;
    } else {
      r := nlist;
    }
    SplicedIsList(nodes, k, nlist, s);
    InsertedAt(nodes, k, nlist);
  }

  /** Where insert_sorted puts x: before the first element that is not greater. */
  ghost function Position<T>(s: seq<T>, cmp: (T, T) -> int, x: T): (k: nat)
    ensures k <= |s|
    ensures forall i :: 0 <= i < k ==> cmp(s[i], x) > 0
    ensures k < |s| ==> cmp(s[k], x) <= 0
  {
    if s == [] || cmp(s[0], x) <= 0 then 0 else 1 + Position(s[1..], cmp, x)
  }

  lemma PositionIs<T>(s: seq<T>, cmp: (T, T) -> int, x: T, k: nat)
    requires k <= |s| && (k < |s| ==> cmp(s[k], x) <= 0)
    requires forall i :: 0 <= i < k ==> cmp(s[i], x) > 0
    ensures Position(s, cmp, x) == k
  {
  }

  ghost function Insert<T>(s: seq<T>, cmp: (T, T) -> int, x: T): seq<T> {
    InsertAt(s, Position(s, cmp, x), x)
  }

  /** The search of insert_sorted: stops at the first node that is not greater, or at the last. */
  method FindPlace<T>(list: Node<T>, cmp: (T, T) -> int, element: T, ghost nodes: seq<Node<T>>)
    returns (t: Node<T>, cmpval: int, ghost k: nat)
    requires IsList(list, nodes)
    ensures k < |nodes| && t == nodes[k] && cmpval == cmp(nodes[k].element, element)
    ensures forall i :: 0 <= i < k ==> cmp(nodes[i].element, element) > 0
    ensures cmpval > 0 ==> k == |nodes| - 1
  {
    t := list;
    cmpval := cmp(t.element, element);
    k := 0;
    while t.next != null && cmpval > 0
      invariant k < |nodes| && t == nodes[k] && cmpval == cmp(t.element, element)
      invariant forall i :: 0 <= i < k ==> cmp(nodes[i].element, element) > 0
      decreases |nodes| - k
    {
      t := t.next;
      k := k + 1;
      cmpval := cmp(t.element, element);
    }
  }

  lemma OnlyNode<T>(n: Node<T>)
    requires n.next == null && n.prev == null
    ensures Spliced([], 0, n)
  {
  }

  /** The first two cases of insert_sorted: behind the last node, or in front of node t. */
  method LinkAfter<T>(t: Node<T>, nlist: Node<T>, ghost nodes: seq<Node<T>>)
    requires IsList(NodeAt(nodes, 0), nodes) && nodes != [] && t == nodes[|nodes| - 1]
    requires nlist !in nodes && nlist.next == null && nlist.prev == null
    modifies t, nlist
    ensures Spliced(nodes, |nodes|, nlist)
    ensures t.element == old(t.element) && nlist.element == old(nlist.element)
  {
    t.next := nlist;
    nlist.prev := t;
  }

  method LinkBefore<T>(t: Node<T>, nlist: Node<T>, ghost nodes: seq<Node<T>>, ghost k: nat)
    requires IsList(NodeAt(nodes, 0), nodes) && k < |nodes| && t == nodes[k]
    requires nlist !in nodes && nlist.next == null && nlist.prev == null
    modifies nodes, nlist
    ensures Spliced(nodes, k, nlist)
    ensures nlist.element == old(nlist.element) && forall n :: n in nodes ==> n.element == old(n.element)
  {
    if t.prev != null {
      t.prev.next := nlist;
      nlist.prev := t.prev;
    }
    nlist.next := t;
    t.prev := nlist;
  }

  method InsertSorted<T>(list: Node?<T>, cmp: (T, T) -> int, element: T, ghost nodes: seq<Node<T>>)
    returns (r: Node<T>, ghost nodes': seq<Node<T>>, ghost k: nat)
    requires IsList(list, nodes)
    modifies nodes
    ensures k <= |nodes| && |nodes'| == |nodes| + 1 && nodes' == InsertAt(nodes, k, nodes'[k]) && fresh(nodes'[k])
    ensures IsList(r, nodes')
    ensures k == Position(old(Elements(nodes)), cmp, element)
    ensures Elements(nodes') == Insert(old(Elements(nodes)), cmp, element)
  {
    hide Elements, InsertAt, Position, Spliced;
    ghost var s := Elements(nodes);
    var nlist := new Node(element);
    k := 0;
    if list == null {
      r := nlist;
      OnlyNode(nlist);
    } else {
      var t, cmpval;
      t, cmpval, k := FindPlace(list, cmp, element, nodes);
      if t.next == null && cmpval > 0 {
        k := k + 1;
        LinkAfter(t, nlist, nodes);
        r := list;
      } else {
        LinkBefore(t, nlist, nodes, k);
        r := if t == list then nlist else list;
      }
    }
    PositionIs(s, cmp, element, k);
    SplicedIsList(nodes, k, nlist, s);
    InsertedAt(nodes, k, nlist);
    nodes' := InsertAt(nodes, k, nlist);
  }

  // ---------- Removing ----------

  method Unlink<T>(list: Node?<T>, node: Node?<T>, ghost nodes: seq<Node<T>>, ghost k: nat) returns (r: Node?<T>)
    requires IsList(list, nodes)
    requires node != null ==> k < |nodes| && nodes[k] == node
    modifies nodes
    ensures node == null ==> r == list && IsList(r, nodes)
    ensures node != null ==> IsList(r, RemoveAt(nodes, k)) && node.next == old(node.next) && node.prev == old(node.prev)
    ensures forall n :: n in nodes ==> n.element == old(n.element)
  {
    hide RemoveAt;
    if node == null {
      return list;
    }
    if node.prev != null {
      node.prev.next := node.next;
    }
    if node.next != null {
      node.next.prev := node.prev;
    }
    r := list;
    if node == list {
      r := list.next;
    }
    BypassedIsList(nodes, k);
  }

  /** dlist__remove_node; what it frees is no longer reachable. Removing null changes nothing. */
  method RemoveNode<T>(list: Node?<T>, node: Node?<T>, ghost nodes: seq<Node<T>>, ghost k: nat)
    returns (r: Node?<T>, ghost nodes': seq<Node<T>>)
    requires IsList(list, nodes)
    requires node != null ==> k < |nodes| && nodes[k] == node
    modifies nodes
    ensures IsList(r, nodes')
    ensures nodes' == if node == null then nodes else RemoveAt(nodes, k)
    ensures Elements(nodes') == if node == null then old(Elements(nodes)) else RemoveAt(old(Elements(nodes)), k)
  {
    hide Elements;
    ghost var s := Elements(nodes);
    r := Unlink(list, node, nodes, k);
    nodes' := nodes;
    if node != null {
      nodes' := RemoveAt(nodes, k);
      RemovedElements(nodes, k, s);
    }
  }

  ghost function RemoveFirst<T>(s: seq<T>, x: T): seq<T> {
    if s == [] then [] else if s[0] == x then s[1..] else [s[0]] + RemoveFirst(s[1..], x)
  }

  lemma {:induction false} FirstAt<T>(s: seq<T>, k: nat, x: T)
    requires k < |s| && s[k] == x && forall i :: 0 <= i < k ==> s[i] != x
    ensures RemoveFirst(s, x) == RemoveAt(s, k)
  {
    if k > 0 {
      FirstAt(s[1..], k - 1, x);
    }
  }

  lemma {:induction false} NotThere<T>(s: seq<T>, x: T)
    requires x !in s
    ensures RemoveFirst(s, x) == s
  {
    if s != [] {
      NotThere(s[1..], x);
    }
  }

  /** Removes the first node that holds the element, if any does. */
  method Remove<T(==)>(list: Node?<T>, element: T, ghost nodes: seq<Node<T>>)
    returns (r: Node?<T>, ghost nodes': seq<Node<T>>)
    requires IsList(list, nodes)
    modifies nodes
    ensures IsList(r, nodes')
    ensures Elements(nodes') == RemoveFirst(old(Elements(nodes)), element)
    ensures forall n :: n in nodes' ==> n in nodes
  {
    hide Elements, RemoveAt, RemoveFirst;
    ghost var s := Elements(nodes);
    var t := list;
    r, nodes' := list, nodes;
    ghost var k: nat := 0;
    while t != null
      invariant k <= |nodes| && t == NodeAt(nodes, k)
      invariant forall i :: 0 <= i < k ==> nodes[i].element != element
      decreases |nodes| - k
    {
      if t.element != element {
        t := t.next;
        k := k + 1;
      } else {
        FirstAt(s, k, element);
        r := Unlink(list, t, nodes, k);
        nodes' := RemoveAt(nodes, k);
        RemovedElements(nodes, k, s);
        RemovedFrom(nodes, k);
        return;
      }
    }
    NotThere(s, element);
  }

  method Count<T>(list: Node?<T>, ghost nodes: seq<Node<T>>) returns (c: nat)
    requires IsList(list, nodes)
    ensures c == |nodes|
  {
    c := 0;
    var l := list;
    while l != null
      invariant c <= |nodes| && l == NodeAt(nodes, c)
      decreases |nodes| - c
    {
      l := l.next;
      c := c + 1;
    }
  }

  // ---------- What the sequence operations achieve ----------

  /** cmp orders all elements; equal ones need not be the same. */
  ghost predicate TotalPreorder<T(!new)>(cmp: (T, T) -> int) {
    && (forall a, b :: cmp(a, b) > 0 <==> cmp(b, a) < 0)
    && (forall a, b, c :: cmp(a, b) >= 0 && cmp(b, c) >= 0 ==> cmp(a, c) >= 0)
  }

  ghost predicate Descending<T>(s: seq<T>, cmp: (T, T) -> int) {
    forall i, j :: 0 <= i < j < |s| ==> cmp(s[i], s[j]) >= 0
  }

  lemma Flip<T(!new)>(cmp: (T, T) -> int, a: T, b: T)
    requires TotalPreorder(cmp) && cmp(a, b) <= 0
    ensures cmp(b, a) >= 0
  {
  }

  lemma Chain<T(!new)>(cmp: (T, T) -> int, a: T, b: T, c: T)
    requires TotalPreorder(cmp) && cmp(a, b) >= 0 && cmp(b, c) >= 0
    ensures cmp(a, c) >= 0
  {
  }

  /** x against what follows it: against its neighbour directly, further on by transitivity. */
  lemma NotBelowRest<T(!new)>(s: seq<T>, cmp: (T, T) -> int, x: T, k: nat)
    requires TotalPreorder(cmp) && Descending(s, cmp) && k < |s| && cmp(s[k], x) <= 0
    ensures forall j :: k <= j < |s| ==> cmp(x, s[j]) >= 0
  {
    Flip(cmp, s[k], x);
    forall j | k < j < |s| ensures cmp(x, s[j]) >= 0 {
      Chain(cmp, x, s[k], s[j]);
    }
  }

  lemma InsertAtDescends<T>(s: seq<T>, cmp: (T, T) -> int, x: T, k: nat)
    requires Descending(s, cmp) && k <= |s|
    requires forall i :: 0 <= i < k ==> cmp(s[i], x) > 0
    requires forall j :: k <= j < |s| ==> cmp(x, s[j]) >= 0
    ensures Descending(InsertAt(s, k, x), cmp)
  {
    var r := InsertAt(s, k, x);
    forall i, j | 0 <= i < j < |r| ensures cmp(r[i], r[j]) >= 0 {
      assert i == k || r[i] == s[if i < k then i else i - 1];
      assert j == k || r[j] == s[if j < k then j else j - 1];
    }
  }

  lemma InsertAtCounts<T>(s: seq<T>, k: nat, x: T)
    requires k <= |s|
    ensures multiset(InsertAt(s, k, x)) == multiset(s) + multiset{x}
  {
    assert s == s[..k] + s[k..];
  }

  /** insert_sorted keeps a descending list descending and adds exactly the new element. */
  lemma InsertKeepsOrder<T(!new)>(s: seq<T>, cmp: (T, T) -> int, x: T)
    requires TotalPreorder(cmp) && Descending(s, cmp)
    ensures Descending(Insert(s, cmp, x), cmp)
    ensures multiset(Insert(s, cmp, x)) == multiset(s) + multiset{x}
  {
    hide TotalPreorder, Position, InsertAt, Descending;
    var k := Position(s, cmp, x);
    if k < |s| {
      NotBelowRest(s, cmp, x, k);
    }
    InsertAtDescends(s, cmp, x, k);
    InsertAtCounts(s, k, x);
  }

  /** A list built by insert_sorted alone. */
  ghost function InsertAll<T>(xs: seq<T>, cmp: (T, T) -> int): seq<T> {
    if xs == [] then [] else Insert(InsertAll(xs[..|xs| - 1], cmp), cmp, xs[|xs| - 1])
  }

  lemma EmptyDescends<T>(cmp: (T, T) -> int)
    ensures Descending([], cmp)
  {
  }

  lemma {:induction false} InsertAllSorts<T(!new)>(xs: seq<T>, cmp: (T, T) -> int)
    requires TotalPreorder(cmp)
    ensures Descending(InsertAll(xs, cmp), cmp) && multiset(InsertAll(xs, cmp)) == multiset(xs)
  {
    hide TotalPreorder, Insert, Descending;
    if xs == [] {
      assert Descending(InsertAll(xs, cmp), cmp) by { EmptyDescends(cmp); }
    } else {
      var ys := xs[..|xs| - 1];
      InsertAllSorts(ys, cmp);
      InsertKeepsOrder(InsertAll(ys, cmp), cmp, xs[|xs| - 1]);
      assert xs == ys + [xs[|xs| - 1]];
    }
  }

  /** y, if it compares equal to x. */
  ghost function IfEqual<T>(y: T, cmp: (T, T) -> int, x: T): seq<T> {
    if cmp(y, x) == 0 then [y] else []
  }

  /** The elements that compare equal to x, in the order of the list. */
  ghost function Equals<T>(s: seq<T>, cmp: (T, T) -> int, x: T): seq<T> {
    if s == [] then [] else IfEqual(s[0], cmp, x) + Equals(s[1..], cmp, x)
  }

  ghost function Reversed<T>(s: seq<T>): seq<T> {
    if s == [] then [] else Reversed(s[1..]) + [s[0]]
  }

  lemma {:induction false} EqualsConcat<T>(a: seq<T>, b: seq<T>, cmp: (T, T) -> int, x: T)
    ensures Equals(a + b, cmp, x) == Equals(a, cmp, x) + Equals(b, cmp, x)
  {
    hide IfEqual;
    if a == [] {
      assert a + b == b;
    } else {
      assert (a + b)[1..] == a[1..] + b;
      EqualsConcat(a[1..], b, cmp, x);
      Assoc(IfEqual(a[0], cmp, x), Equals(a[1..], cmp, x), Equals(b, cmp, x));
    }
  }

  lemma EqualsOne<T>(y: T, cmp: (T, T) -> int, x: T)
    ensures Equals([y], cmp, x) == IfEqual(y, cmp, x)
  {
    hide IfEqual;
    assert Equals([y][1..], cmp, x) == [];
    assert IfEqual(y, cmp, x) + [] == IfEqual(y, cmp, x);
  }

  lemma {:induction false} NoneEqual<T>(s: seq<T>, cmp: (T, T) -> int, x: T)
    requires forall i :: 0 <= i < |s| ==> cmp(s[i], x) != 0
    ensures Equals(s, cmp, x) == []
  {
    if s != [] {
      NoneEqual(s[1..], cmp, x);
    }
  }

  lemma AboveEqual<T(!new)>(cmp: (T, T) -> int, a: T, y: T, x: T)
    requires TotalPreorder(cmp) && cmp(a, y) > 0 && cmp(y, x) == 0
    ensures cmp(a, x) != 0
  {
    if cmp(a, x) == 0 {
      Chain(cmp, y, x, a);
    }
  }

  /** No equal of x stands in front of the place for y, if y itself is one. */
  lemma NoEqualInFront<T(!new)>(s: seq<T>, cmp: (T, T) -> int, y: T, x: T)
    requires TotalPreorder(cmp)
    ensures var front := Equals(s[..Position(s, cmp, y)], cmp, x);
            front + IfEqual(y, cmp, x) == IfEqual(y, cmp, x) + front
  {
    var front := s[..Position(s, cmp, y)];
    var e := Equals(front, cmp, x);
    if cmp(y, x) == 0 {
      forall i | 0 <= i < |front| ensures cmp(front[i], x) != 0 {
        AboveEqual(cmp, s[i], y, x);
      }
      NoneEqual(front, cmp, x);
      assert e + IfEqual(y, cmp, x) == IfEqual(y, cmp, x) == IfEqual(y, cmp, x) + e;
    } else {
      assert e + [] == e == [] + e;
    }
  }

  /** A new element comes in front of all its equals and moves no others. */
  lemma InsertedBeforeEquals<T(!new)>(s: seq<T>, cmp: (T, T) -> int, y: T, x: T)
    requires TotalPreorder(cmp)
    ensures Equals(Insert(s, cmp, y), cmp, x) == IfEqual(y, cmp, x) + Equals(s, cmp, x)
  {
    hide TotalPreorder, Equals, IfEqual, Position;
    var k := Position(s, cmp, y);
    var front, rest := s[..k], s[k..];
    NoEqualInFront(s, cmp, y, x);
    SplitAt(s, k);
    EqualsConcat(front, rest, cmp, x);
    EqualsConcat(front + [y], rest, cmp, x);
    EqualsConcat(front, [y], cmp, x);
    EqualsOne(y, cmp, x);
    Assoc(IfEqual(y, cmp, x), Equals(front, cmp, x), Equals(rest, cmp, x));
  }

  lemma {:induction false} ReversedSnoc<T>(s: seq<T>, x: T)
    ensures Reversed(s + [x]) == [x] + Reversed(s)
  {
    if s == [] {
      assert Reversed([x][1..]) == [];
      assert s + [x] == [x];
    } else {
      assert (s + [x])[1..] == s[1..] + [x];
      ReversedSnoc(s[1..], x);
    }
  }

  lemma ReversedIfEqual<T>(s: seq<T>, y: T, cmp: (T, T) -> int, x: T)
    ensures Reversed(s + IfEqual(y, cmp, x)) == IfEqual(y, cmp, x) + Reversed(s)
  {
    hide Reversed;
    if cmp(y, x) == 0 {
      ReversedSnoc(s, y);
    } else {
      assert s + [] == s && [] + Reversed(s) == Reversed(s);
    }
  }

  lemma ReversedNone<T>()
    ensures Reversed<T>([]) == []
  {
  }

  /** Equal elements end up in the reverse order of their insertion. */
  lemma {:induction false} EqualElementsReversed<T(!new)>(xs: seq<T>, cmp: (T, T) -> int, x: T)
    requires TotalPreorder(cmp)
    ensures Equals(InsertAll(xs, cmp), cmp, x) == Reversed(Equals(xs, cmp, x))
  {
    hide TotalPreorder, IfEqual, Insert, Reversed;
    if xs == [] {
      ReversedNone<T>();
    } else {
      hide Equals;
      var ys, y := xs[..|xs| - 1], xs[|xs| - 1];
      EqualElementsReversed(ys, cmp, x);
      InsertedBeforeEquals(InsertAll(ys, cmp), cmp, y, x);
      assert xs == ys + [y];
      EqualsConcat(ys, [y], cmp, x);
      EqualsOne(y, cmp, x);
      ReversedIfEqual(Equals(ys, cmp, x), y, cmp, x);
    }
  }

  /** Removing what was just inserted gives the old list back, unless an equal pointer was there. */
  lemma {:induction false} RemoveUndoesInsert<T>(s: seq<T>, cmp: (T, T) -> int, x: T)
    requires x !in s
    ensures RemoveFirst(Insert(s, cmp, x), x) == s
  {
    var k := Position(s, cmp, x);
    FirstAt(Insert(s, cmp, x), k, x);
    assert s == s[..k] + s[k..];
  }

  lemma TailDescends<T>(s: seq<T>, cmp: (T, T) -> int)
    requires s != [] && Descending(s, cmp)
    ensures Descending(s[1..], cmp)
  {
  }

  lemma ConsDescends<T(!new)>(s: seq<T>, cmp: (T, T) -> int, r: seq<T>)
    requires s != [] && Descending(s, cmp) && Descending(r, cmp)
    requires forall y :: y in r ==> y in s[1..]
    ensures Descending([s[0]] + r, cmp)
  {
    forall j | 0 <= j < |r| ensures cmp(s[0], r[j]) >= 0 {
      assert r[j] in s[1..];
      var i :| 1 <= i < |s| && s[i] == r[j];
    }
  }

  /** remove takes away one occurrence and keeps the order of the others. */
  lemma {:induction false} RemoveKeepsOrder<T(!new)>(s: seq<T>, cmp: (T, T) -> int, x: T)
    requires Descending(s, cmp)
    ensures Descending(RemoveFirst(s, x), cmp)
    ensures multiset(RemoveFirst(s, x)) == multiset(s) - multiset{x}
    ensures forall y :: y in RemoveFirst(s, x) ==> y in s
  {
    hide Descending;
    if s == [] {
    } else {
      TailDescends(s, cmp);
      assert s == [s[0]] + s[1..];
      if s[0] != x {
        RemoveKeepsOrder(s[1..], cmp, x);
        ConsDescends(s, cmp, RemoveFirst(s[1..], x));
      }
    }
  }
}
