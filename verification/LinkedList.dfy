/** The circular doubly linked lists that requests and workloads are kept on. */
module LinkedList {
  class Node {
    var next: Node?
    var prev: Node?

    /** list_node_init. */
    constructor ()
      ensures next == prev == this
    {
      new;
      next, prev := this, this;
    }
  }

  /** The node behind the i-th one of a ring. */
  function Succ(ring: seq<Node>, i: nat): Node
    requires i < |ring|
  {
    if i + 1 < |ring| then ring[i + 1] else ring[0]
  }

  /** b is linked behind a. */
  predicate Follows(a: Node, b: Node)
    reads a, b
  {
    a.next == b && b.prev == a
  }

  ghost predicate Distinct(ring: seq<Node>) {
    forall i, j :: 0 <= i < j < |ring| ==> ring[i] != ring[j]
  }

  ghost predicate Linked(ring: seq<Node>)
    reads ring
  {
    forall i :: 0 <= i < |ring| ==> Follows(ring[i], Succ(ring, i))
  }

  /** The node before the i-th one. */
  lemma Before(ring: seq<Node>, i: nat)
    requires Linked(ring) && i < |ring|
    ensures ring[i].next == Succ(ring, i)
    ensures ring[i].prev == (if i > 0 then ring[i - 1] else ring[|ring| - 1])
  {
    assert Follows(ring[i], Succ(ring, i));
    var j := if i > 0 then i - 1 else |ring| - 1;
    assert Follows(ring[j], Succ(ring, j));
  }

  class List {
    const head: Node
    ghost var nodes: seq<Node>

    /** The head and the nodes, as a ring. */
    ghost function Ring(): (r: seq<Node>)
      reads this
      ensures |r| == |nodes| + 1 && r[0] == head && r[1..] == nodes
    {
      [head] + nodes
    }

    ghost predicate Valid()
      reads this, head, nodes
    {
      Distinct(Ring()) && Linked(Ring())
    }

    constructor ()
      ensures Valid() && nodes == [] && fresh(head)
    {
      head := new Node();
      nodes := [];
    }

    /** list_empty. */
    predicate Empty()
      requires Valid()
      reads this, head, nodes
      ensures Empty() <==> nodes == []
    {
      assert Follows(Ring()[0], Succ(Ring(), 0));
      head.next == head
    }

    /** list_add_tail. */
    method AddTail(node: Node)
      requires Valid() && node !in Ring()
      modifies this`nodes, head, node, nodes
      ensures Valid() && nodes == old(nodes) + [node]
    {
      ghost var ring := Ring();
      Before(ring, 0);
      var prev := head.prev;
      head.prev := node;
      node.next := head;
      node.prev := prev;
      prev.next := node;
      nodes := nodes + [node];
      assert Ring() == ring + [node];
      forall j | 0 <= j < |Ring()| ensures Follows(Ring()[j], Succ(Ring(), j)) {
        if j < |ring| - 1 { assert old(Follows(ring[j], Succ(ring, j))); }
      }
    }

    /** list_del: the node, the at-th of the list, is left poisoned. */
    method Del(node: Node, ghost at: nat)
      requires Valid() && at < |nodes| && nodes[at] == node
      modifies this`nodes, head, nodes
      ensures Valid() && node.next == node.prev == null
      ensures nodes == old(nodes)[..at] + old(nodes)[at + 1..]
    {
      hide Distinct, Linked;
      ghost var ring, k := Ring(), at + 1;
      Neighbours(at);
      var prev, next := node.prev, node.next;
      next.prev := prev;
      prev.next := next;
      node.next, node.prev := null, null;
      nodes := nodes[..at] + nodes[at + 1..];
      assert Ring() == Without(ring, k);
      LinkedWithout(Spot(ring, k));
    }

    /** What Del relies on: the neighbours of a node are in the list, and no other node is it or the one before it. */
    lemma Neighbours(at: nat)
      requires Valid() && at < |nodes|
      ensures Ring()[at + 1] == nodes[at] && nodes[at].prev == Ring()[at] && nodes[at].next == Succ(Ring(), at + 1)
      ensures InList(Ring()[at]) && InList(Succ(Ring(), at + 1))
      ensures forall j :: 0 <= j < |Ring()| && j != at + 1 ==> Ring()[j] != nodes[at]
      ensures forall j :: 0 <= j < |Ring()| && j != at ==> Ring()[j] != Ring()[at]
      ensures Distinct(Without(Ring(), at + 1))
    {
      hide Distinct, Linked;
      var ring := Ring();
      assert ring[1..][at] == ring[at + 1];
      Before(ring, at + 1);
      Apart(ring, at + 1);
      Apart(ring, at);
      DistinctWithout(ring, at + 1);
    }

    ghost predicate InList(n: Node)
      reads this
    {
      n == head || n in nodes
    }

    /** list_splice_init: all nodes of this list go to the front of the other, and this list is empty. */
    method SpliceInit(other: List)
      requires Valid() && other.Valid() && other != this
      requires forall n :: n in Ring() ==> n !in other.Ring()
      modifies this`nodes, other`nodes, head, nodes, other.head, other.nodes
      ensures Valid() && nodes == []
      ensures other.Valid() && other.nodes == old(nodes) + old(other.nodes)
    {
      hide Distinct, Linked, Joined;
      ghost var a, b := Ring(), other.Ring();
      Before(a, 0);
      Before(b, 0);
      SpliceEnds(a, b);
      if head.next != head {
        var first, last, at := head.next, head.prev, other.head.next;
        first.prev := other.head;
        other.head.next := first;
        last.next := at;
        at.prev := last;
        head.next, head.prev := head, head;
      }
      other.nodes := nodes + other.nodes;
      nodes := [];
      assert Ring() == [head];
      assert other.Ring() == Joined(a, b) by { JoinedIs(a, b); }
      Alone(head);
      DistinctJoined(a, b);
      LinkedJoined(Pair(a, b));
    }
  }

  function Joined(a: seq<Node>, b: seq<Node>): seq<Node>
    requires a != [] && b != []
  {
    [b[0]] + a[1..] + b[1..]
  }

  lemma JoinedIs(a: seq<Node>, b: seq<Node>)
    requires a != [] && b != []
    ensures Joined(a, b) == [b[0]] + (a[1..] + b[1..])
  {
  }

  lemma Alone(head: Node)
    requires head.next == head.prev == head
    ensures Distinct([head]) && Linked([head])
  {
  }

  lemma SpliceEnds(a: seq<Node>, b: seq<Node>)
    requires Distinct(a) && Distinct(b) && a != [] && b != [] && forall n :: n in a ==> n !in b
    ensures forall i, j :: 0 <= i < |a| && 0 <= j < |b| ==> a[i] != b[j]
    ensures forall i, j :: 0 <= i < j < |a| ==> a[i] != a[j]
    ensures forall i, j :: 0 <= i < j < |b| ==> b[i] != b[j]
    ensures Succ(a, 0) == a[0] <==> |a| == 1
  {
    forall i, j | 0 <= i < |a| && 0 <= j < |b| ensures a[i] != b[j] { assert a[i] in a && b[j] in b; }
  }

  datatype Pair = Pair(a: seq<Node>, b: seq<Node>)

  /** If the ends of a, but for its head, were linked into b behind its head, the two are one ring. */
  twostate lemma LinkedJoined(s: Pair)
    requires s.a != [] && s.b != [] && old(Linked(s.a)) && old(Linked(s.b))
    requires |s.a| > 1 ==> Follows(s.b[0], s.a[1]) && Follows(s.a[|s.a| - 1], Succ(s.b, 0))
    requires forall j :: 0 < j < |s.a| ==> s.a[j].next == old(s.a[j].next) || j == |s.a| - 1
    requires forall j :: 0 < j < |s.a| ==> s.a[j].prev == old(s.a[j].prev) || j == 1
    requires forall j :: 0 <= j < |s.b| ==> s.b[j].next == old(s.b[j].next) || (j == 0 && |s.a| > 1)
    requires forall j :: 0 <= j < |s.b| ==> s.b[j].prev == old(s.b[j].prev) || (s.b[j] == Succ(s.b, 0) && |s.a| > 1)
    requires Distinct(s.b)
    ensures Linked(Joined(s.a, s.b))
  {
    var (a, b) := (s.a, s.b);
    var c := Joined(a, b);
    forall j | 0 <= j < |c| ensures Follows(c[j], Succ(c, j)) {
      if 0 < j < |a| {
        assert c[j] == a[j] && old(Follows(a[j], Succ(a, j)));
      } else {
        var k := if j == 0 then 0 else j - |a| + 1;
        assert c[j] == b[k] && old(Follows(b[k], Succ(b, k)));
      }
    }
  }

  datatype Spot = Spot(ring: seq<Node>, k: nat)

  function Without(ring: seq<Node>, k: nat): seq<Node>
    requires k < |ring|
  {
    ring[..k] + ring[k + 1..]
  }

  lemma Apart(ring: seq<Node>, k: nat)
    requires Distinct(ring) && k < |ring|
    ensures forall j :: 0 <= j < |ring| && j != k ==> ring[j] != ring[k]
  {
  }

  lemma DistinctWithout(ring: seq<Node>, k: nat)
    requires Distinct(ring) && k < |ring|
    ensures Distinct(Without(ring, k))
  {
    var rest := Without(ring, k);
    assert forall j :: 0 <= j < |rest| ==> rest[j] == ring[if j < k then j else j + 1];
  }

  lemma DistinctJoined(a: seq<Node>, b: seq<Node>)
    requires Distinct(a) && Distinct(b) && a != [] && b != [] && forall n :: n in a ==> n !in b
    ensures Distinct(Joined(a, b))
  {
    var c := Joined(a, b);
    SpliceEnds(a, b);
    forall i, j | 0 <= i < j < |c| ensures c[i] != c[j] {
      var p, q := if i == 0 then b[0] else if i < |a| then a[i] else b[i - |a| + 1], if j < |a| then a[j] else b[j - |a| + 1];
      assert c[i] == p && c[j] == q;
    }
  }

  /** If the neighbours of the k-th node of a ring were linked to each other, the ring without it is linked. */
  twostate lemma LinkedWithout(s: Spot)
    requires 0 < s.k < |s.ring| && Distinct(s.ring) && old(Linked(s.ring))
    requires Follows(s.ring[s.k - 1], Succ(s.ring, s.k))
    requires forall j :: 0 <= j < |s.ring| && j != s.k ==> s.ring[j].next == old(s.ring[j].next) || j == s.k - 1
    requires forall j :: 0 <= j < |s.ring| && j != s.k ==> s.ring[j].prev == old(s.ring[j].prev) || s.ring[j] == Succ(s.ring, s.k)
    ensures Linked(Without(s.ring, s.k))
  {
    var (ring, k) := (s.ring, s.k);
    var rest := Without(ring, k);
    forall j | 0 <= j < |rest| ensures Follows(rest[j], Succ(rest, j)) {
      var j' := if j < k then j else j + 1;
      assert rest[j] == ring[j'] && old(Follows(ring[j'], Succ(ring, j')));
    }
  }
}
