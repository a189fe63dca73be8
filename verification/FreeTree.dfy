/** The tree of free blocks of a heap page, as a value. A node is the unit offset of its header;
    the block sizes are looked up in sz, the size fields of the page's headers. */
module FreeTree {
  import opened Options

  datatype Tree = Leaf | Node(at: nat, left: Tree, right: Tree)

  function Nodes(t: Tree): set<nat> {
    match t
    case Leaf => {}
    case Node(a, l, r) => {a} + Nodes(l) + Nodes(r)
  }

  /** Every node is reached once. */
  predicate Distinct(t: Tree) {
    match t
    case Leaf => true
    case Node(a, l, r) => a !in Nodes(l) && a !in Nodes(r) && Nodes(l) !! Nodes(r) && Distinct(l) && Distinct(r)
  }

  ghost predicate Within(s: set<nat>, n: nat) {
    forall a :: a in s ==> a < n
  }

  ghost predicate AtMost(s: set<nat>, sz: seq<nat>, k: nat) {
    forall a :: a in s ==> a < |sz| && sz[a] <= k
  }

  ghost predicate AtLeast(s: set<nat>, sz: seq<nat>, k: nat) {
    forall a :: a in s ==> a < |sz| && sz[a] >= k
  }

  /** The weak order the heap keeps: left <= node <= right. */
  ghost predicate Ordered(t: Tree, sz: seq<nat>) {
    match t
    case Leaf => true
    case Node(a, l, r) =>
      a < |sz| && AtMost(Nodes(l), sz, sz[a]) && AtLeast(Nodes(r), sz, sz[a]) && Ordered(l, sz) && Ordered(r, sz)
  }

  lemma {:induction false} OrderedWithin(t: Tree, sz: seq<nat>)
    requires Ordered(t, sz)
    ensures Within(Nodes(t), |sz|)
  {
    if t.Node? { OrderedWithin(t.left, sz); OrderedWithin(t.right, sz); }
  }

  /** Order depends on the sizes of the nodes only. */
  lemma {:induction false} OrderedFrame(t: Tree, sz: seq<nat>, sz': seq<nat>)
    requires Ordered(t, sz) && forall a :: a in Nodes(t) ==> a < |sz'| && sz'[a] == SizeAt(sz, a)
    ensures Ordered(t, sz')
  {
    if t.Node? {
      OrderedWithin(t, sz);
      OrderedFrame(t.left, sz, sz');
      OrderedFrame(t.right, sz, sz');
    }
  }

  function SizeAt(sz: seq<nat>, a: nat): nat {
    if a < |sz| then sz[a] else 0
  }

  // ---- Insertion

  /** mp_heap_btree_insert: an equal size goes between its equal and that node's left subtree. */
  function Insert(t: Tree, a: nat, sz: seq<nat>): Tree {
    match t
    case Leaf => Node(a, Leaf, Leaf)
    case Node(p, l, r) =>
      if SizeAt(sz, a) > SizeAt(sz, p) then Node(p, l, Insert(r, a, sz))
      else if SizeAt(sz, a) < SizeAt(sz, p) then Node(p, Insert(l, a, sz), r)
      else Node(p, Node(a, l, Leaf), r)
  }

  lemma {:induction false} InsertNodes(t: Tree, a: nat, sz: seq<nat>)
    ensures Nodes(Insert(t, a, sz)) == Nodes(t) + {a}
  {
    match t
    case Leaf =>
    case Node(p, l, r) =>
      InsertNodes(l, a, sz);
      InsertNodes(r, a, sz);
      assert Nodes(Node(a, l, Leaf)) == {a} + Nodes(l);
      assert Nodes(Node(p, Node(a, l, Leaf), r)) == Nodes(t) + {a};
      assert Nodes(Node(p, Insert(l, a, sz), r)) == Nodes(t) + {a};
  }

  /** Inserting a new block keeps the tree free of repetitions and in order. */
  lemma {:induction false} InsertKeepsOrder(t: Tree, a: nat, sz: seq<nat>)
    requires Ordered(t, sz) && Distinct(t) && a < |sz| && a !in Nodes(t)
    ensures Ordered(Insert(t, a, sz), sz) && Distinct(Insert(t, a, sz))
  {
    if t.Node? {
      var p, l, r := t.at, t.left, t.right;
      if sz[a] > sz[p] {
        InsertNodes(r, a, sz);
        InsertKeepsOrder(r, a, sz);
      } else if sz[a] < sz[p] {
        InsertNodes(l, a, sz);
        InsertKeepsOrder(l, a, sz);
      } else {
        assert Ordered(Leaf, sz) && Distinct(Leaf) && Nodes(Leaf) == {};
        assert Ordered(Node(a, l, Leaf), sz) && Distinct(Node(a, l, Leaf)) && Nodes(Node(a, l, Leaf)) == {a} + Nodes(l);
      }
    }
  }

  lemma {:induction false} InsertFrame(t: Tree, a: nat, sz: seq<nat>, sz': seq<nat>)
    requires SizeAt(sz, a) == SizeAt(sz', a) && forall b :: b in Nodes(t) ==> SizeAt(sz, b) == SizeAt(sz', b)
    ensures Insert(t, a, sz) == Insert(t, a, sz')
  {
    if t.Node? { InsertFrame(t.left, a, sz, sz'); InsertFrame(t.right, a, sz, sz'); }
  }

  // ---- Deletion

  /** The leftmost node. */
  function Min(t: Tree): nat
    requires t.Node?
  {
    if t.left.Leaf? then t.at else Min(t.left)
  }

  function RemoveMin(t: Tree): Tree
    requires t.Node?
  {
    if t.left.Leaf? then t.right else Node(t.at, RemoveMin(t.left), t.right)
  }

  /** mp_heap_btree_delete at the root of a subtree: with two children the smallest node of the right
      subtree takes the place of the root. */
  function RemoveRoot(t: Tree): Tree
    requires t.Node?
  {
    if t.left.Node? && t.right.Node? then Node(Min(t.right), t.left, RemoveMin(t.right))
    else if t.left.Node? then t.left
    else t.right
  }

  function Remove(t: Tree, a: nat): Tree {
    match t
    case Leaf => Leaf
    case Node(p, l, r) =>
      if a == p then RemoveRoot(t)
      else if a in Nodes(l) then Node(p, Remove(l, a), r)
      else Node(p, l, Remove(r, a))
  }

  lemma {:induction false} RemoveMinNodes(t: Tree)
    requires t.Node? && Distinct(t)
    ensures Min(t) in Nodes(t) && Nodes(RemoveMin(t)) == Nodes(t) - {Min(t)} && Distinct(RemoveMin(t))
  {
    if t.left.Node? { RemoveMinNodes(t.left); }
  }

  lemma {:induction false} RemoveMinKeepsOrder(t: Tree, sz: seq<nat>)
    requires t.Node? && Distinct(t) && Ordered(t, sz)
    ensures Min(t) < |sz| && Ordered(RemoveMin(t), sz) && AtLeast(Nodes(t), sz, sz[Min(t)])
  {
    RemoveMinNodes(t);
    OrderedWithin(t, sz);
    if t.left.Node? {
      RemoveMinNodes(t.left);
      RemoveMinKeepsOrder(t.left, sz);
    }
  }

  /** Removing a node takes exactly that node out and keeps the rest in order. */
  lemma {:induction false} RemoveKeepsOrder(t: Tree, a: nat, sz: seq<nat>)
    requires Distinct(t) && Ordered(t, sz) && a in Nodes(t)
    ensures Nodes(Remove(t, a)) == Nodes(t) - {a}
    ensures Distinct(Remove(t, a)) && Ordered(Remove(t, a), sz)
  {
    if a == t.at {
      if t.left.Node? && t.right.Node? {
        RemoveMinNodes(t.right);
        RemoveMinKeepsOrder(t.right, sz);
      }
    } else if a in Nodes(t.left) {
      RemoveKeepsOrder(t.left, a, sz);
    } else {
      RemoveKeepsOrder(t.right, a, sz);
    }
  }

  // ---- Best fit

  /** The last node on the search path that is large enough. */
  function Best(t: Tree, units: nat, sz: seq<nat>): Option<nat> {
    match t
    case Leaf => None
    case Node(p, l, r) =>
      if SizeAt(sz, p) == units then Some(p)
      else if SizeAt(sz, p) < units then Best(r, units, sz)
      else match Best(l, units, sz) case Some(b) => Some(b) case None => Some(p)
  }

  /** None exactly when every free block is too small; otherwise a smallest sufficient block. */
  lemma {:induction false} BestIsBestFit(t: Tree, units: nat, sz: seq<nat>)
    requires Ordered(t, sz)
    ensures Best(t, units, sz).None? <==> forall a :: a in Nodes(t) ==> sz[a] < units
    ensures Best(t, units, sz).Some? ==>
              var b := Best(t, units, sz).value;
              b in Nodes(t) && b < |sz| && sz[b] >= units && forall a :: a in Nodes(t) && sz[a] >= units ==> sz[b] <= sz[a]
  {
    OrderedWithin(t, sz);
    if t.Node? {
      BestIsBestFit(t.left, units, sz);
      BestIsBestFit(t.right, units, sz);
    }
  }

  // ---- Linearisation

  /** mp_heap_btree_linearize: preorder. */
  function Linear(t: Tree): seq<nat> {
    match t
    case Leaf => []
    case Node(a, l, r) => [a] + Linear(l) + Linear(r)
  }

  predicate NoRepeats(s: seq<nat>) {
    forall i, j :: 0 <= i < j < |s| ==> s[i] != s[j]
  }

  function Elems(s: seq<nat>): set<nat> {
    set a | a in s
  }

  lemma ConcatLists(s: seq<nat>, t: seq<nat>)
    requires NoRepeats(s) && NoRepeats(t) && Elems(s) !! Elems(t)
    ensures NoRepeats(s + t) && Elems(s + t) == Elems(s) + Elems(t)
  {
    forall i, j | 0 <= i < j < |s + t| ensures (s + t)[i] != (s + t)[j] {
      if i < |s| <= j { assert s[i] in Elems(s) && t[j - |s|] in Elems(t); }
    }
  }

  lemma {:induction false} LinearLists(t: Tree)
    requires Distinct(t)
    ensures Elems(Linear(t)) == Nodes(t) && NoRepeats(Linear(t))
  {
    match t
    case Leaf =>
    case Node(a, l, r) =>
      LinearLists(l);
      LinearLists(r);
      ConcatLists([a], Linear(l));
      ConcatLists([a] + Linear(l), Linear(r));
  }

  // ---- The nodes by size

  /** Left subtree, node, right subtree. */
  function InOrder(t: Tree): seq<nat> {
    match t
    case Leaf => []
    case Node(a, l, r) => InOrder(l) + [a] + InOrder(r)
  }

  lemma {:induction false} InOrderLists(t: Tree)
    ensures forall a :: a in InOrder(t) <==> a in Nodes(t)
  {
    if t.Node? {
      InOrderLists(t.left);
      InOrderLists(t.right);
    }
  }

  predicate NoneLarger(x: seq<nat>, sz: seq<nat>, k: nat) {
    forall i :: 0 <= i < |x| ==> SizeAt(sz, x[i]) <= k
  }

  predicate NoneSmaller(y: seq<nat>, sz: seq<nat>, k: nat) {
    forall i :: 0 <= i < |y| ==> SizeAt(sz, y[i]) >= k
  }

  ghost predicate HasSize(t: Tree, sz: seq<nat>, k: nat) {
    exists b :: b in Nodes(t) && SizeAt(sz, b) == k
  }

  lemma InOrderSizes(t: Tree, sz: seq<nat>, k: nat)
    requires Ordered(t, sz)
    ensures AtMost(Nodes(t), sz, k) ==> NoneLarger(InOrder(t), sz, k)
    ensures AtLeast(Nodes(t), sz, k) ==> NoneSmaller(InOrder(t), sz, k)
  {
    hide Ordered, InOrder, Nodes;
    InOrderLists(t);
    forall i | 0 <= i < |InOrder(t)| ensures InOrder(t)[i] in Nodes(t) { assert InOrder(t)[i] in InOrder(t); }
  }

  /** A new block goes between the smaller and the larger ones; if there are blocks of its size, directly in front of
      one of them. */
  lemma {:induction false} InsertPlace(t: Tree, a: nat, sz: seq<nat>) returns (x: seq<nat>, y: seq<nat>)
    requires Ordered(t, sz) && a < |sz|
    ensures InOrder(t) == x + y && InOrder(Insert(t, a, sz)) == x + [a] + y
    ensures NoneLarger(x, sz, sz[a]) && NoneSmaller(y, sz, sz[a])
    ensures HasSize(t, sz, sz[a]) ==> y != [] && SizeAt(sz, y[0]) == sz[a]
  {
    hide HasSize, NoneLarger, NoneSmaller, AtMost, AtLeast;
    match t
    case Leaf => x, y := [], []; NoSizes(sz, sz[a]);
    case Node(p, l, r) =>
      if sz[a] > sz[p] {
        var x', y' := InsertPlace(r, a, sz);
        x, y := InOrder(l) + [p] + x', y';
        assert InOrder(l) + [p] + (x' + [a] + y') == x + [a] + y;
        SizesLeft(t, sz, sz[a], x');
      } else if sz[a] < sz[p] {
        var x', y' := InsertPlace(l, a, sz);
        x, y := x', y' + [p] + InOrder(r);
        assert x' + [a] + y' + [p] + InOrder(r) == x + [a] + y;
        SizesRight(t, sz, sz[a], y');
      } else {
        x, y := InOrder(l), [p] + InOrder(r);
        assert InOrder(Node(a, l, Leaf)) == InOrder(l) + [a] + [] == InOrder(l) + [a];
        InOrderSizes(l, sz, sz[a]);
        SizesRight(t, sz, sz[a], []);
        assert [] + [p] + InOrder(r) == y;
      }
  }

  lemma NoSizes(sz: seq<nat>, k: nat)
    ensures !HasSize(Leaf, sz, k) && NoneLarger([], sz, k) && NoneSmaller([], sz, k)
  {
  }

  /** Left of a larger size: the left subtree, the root and what was found on the right. */
  lemma SizesLeft(t: Tree, sz: seq<nat>, k: nat, x: seq<nat>)
    requires t.Node? && Ordered(t, sz) && sz[t.at] < k && NoneLarger(x, sz, k)
    ensures NoneLarger(InOrder(t.left) + [t.at] + x, sz, k) && (HasSize(t, sz, k) ==> HasSize(t.right, sz, k))
  {
    InOrderSizes(t.left, sz, k);
  }

  lemma SizesRight(t: Tree, sz: seq<nat>, k: nat, y: seq<nat>)
    requires t.Node? && Ordered(t, sz) && k <= sz[t.at] && NoneSmaller(y, sz, k)
    ensures NoneSmaller(y + [t.at] + InOrder(t.right), sz, k)
    ensures k < sz[t.at] && HasSize(t, sz, k) ==> HasSize(t.left, sz, k)
  {
    InOrderSizes(t.right, sz, k);
  }

  /** Removing a node leaves all others where they were in this order. */
  lemma {:induction false} RemovePlace(t: Tree, a: nat) returns (x: seq<nat>, y: seq<nat>)
    requires Distinct(t) && a in Nodes(t)
    ensures InOrder(t) == x + [a] + y && InOrder(Remove(t, a)) == x + y
  {
    var p, l, r := t.at, t.left, t.right;
    if a == p {
      x, y := InOrder(l), InOrder(r);
      if l.Node? && r.Node? {
        MinFirst(r);
        assert InOrder(l) + ([Min(r)] + InOrder(RemoveMin(r))) == InOrder(l) + [Min(r)] + InOrder(RemoveMin(r));
      }
    } else if a in Nodes(l) {
      var x', y' := RemovePlace(l, a);
      x, y := x', y' + [p] + InOrder(r);
      assert x' + [a] + y' + [p] + InOrder(r) == x + [a] + y && x' + y' + [p] + InOrder(r) == x + y;
    } else {
      var x', y' := RemovePlace(r, a);
      x, y := InOrder(l) + [p] + x', y';
      assert InOrder(l) + [p] + (x' + [a] + y') == x + [a] + y && InOrder(l) + [p] + (x' + y') == x + y;
    }
  }

  lemma {:induction false} MinFirst(t: Tree)
    requires t.Node?
    ensures InOrder(t) == [Min(t)] + InOrder(RemoveMin(t))
  {
    if t.left.Node? {
      MinFirst(t.left);
      assert [Min(t)] + InOrder(RemoveMin(t.left)) + [t.at] + InOrder(t.right)
          == [Min(t)] + (InOrder(RemoveMin(t.left)) + [t.at] + InOrder(t.right));
    }
  }
}
