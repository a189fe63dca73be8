/** How the free tree lies in the page: each header holds signed offsets to its children, 0 for none. */
module FreeLinks {
  import opened FreeTree

  /** The node of a tree's root, or -1 for an empty tree (NULL). */
  function Root(t: Tree): int {
    if t.Leaf? then -1 else t.at
  }

  /** MP_HH_SET_CHILD: the offset from a to the root of its subtree. */
  function Offset(a: nat, root: int): int {
    if root < 0 then 0 else root - a
  }

  predicate Linked(l: seq<int>, r: seq<int>, t: Tree) {
    match t
    case Leaf => true
    case Node(a, lt, rt) =>
      && a < |l| == |r|
      && l[a] == Offset(a, Root(lt)) && r[a] == Offset(a, Root(rt))
      && Linked(l, r, lt) && Linked(l, r, rt)
  }

  /** A tree with a hole: the way from the root down to a subtree. */
  datatype Path =
    | Top
    | InLeft(up: Path, at: nat, right: Tree)
    | InRight(up: Path, at: nat, left: Tree)

  function Plug(c: Path, t: Tree): Tree {
    match c
    case Top => t
    case InLeft(up, a, rt) => Plug(up, Node(a, t, rt))
    case InRight(up, a, lt) => Plug(up, Node(a, lt, t))
  }

  function PathNodes(c: Path): set<nat> {
    match c
    case Top => {}
    case InLeft(up, a, rt) => {a} + Nodes(rt) + PathNodes(up)
    case InRight(up, a, lt) => {a} + Nodes(lt) + PathNodes(up)
  }

  predicate LinkedPath(l: seq<int>, r: seq<int>, c: Path, root: int) {
    match c
    case Top => true
    case InLeft(up, a, rt) =>
      && a < |l| == |r|
      && l[a] == Offset(a, root) && r[a] == Offset(a, Root(rt)) && Linked(l, r, rt)
      && LinkedPath(l, r, up, a)
    case InRight(up, a, lt) =>
      && a < |l| == |r|
      && l[a] == Offset(a, Root(lt)) && r[a] == Offset(a, root) && Linked(l, r, lt)
      && LinkedPath(l, r, up, a)
  }

  lemma {:induction false} PlugLinked(l: seq<int>, r: seq<int>, c: Path, t: Tree)
    ensures Linked(l, r, Plug(c, t)) <==> Linked(l, r, t) && LinkedPath(l, r, c, Root(t))
  {
    match c
    case Top =>
    case InLeft(up, a, rt) => PlugLinked(l, r, up, Node(a, t, rt));
    case InRight(up, a, lt) => PlugLinked(l, r, up, Node(a, lt, t));
  }

  lemma {:induction false} PlugNodes(c: Path, t: Tree)
    ensures Nodes(Plug(c, t)) == Nodes(t) + PathNodes(c)
    ensures Distinct(Plug(c, t)) ==> Distinct(t) && Nodes(t) !! PathNodes(c)
  {
    match c
    case Top =>
    case InLeft(up, a, rt) => PlugNodes(up, Node(a, t, rt));
    case InRight(up, a, lt) => PlugNodes(up, Node(a, lt, t));
  }

  ghost predicate SameOn(s: set<nat>, l: seq<int>, l': seq<int>) {
    |l| == |l'| && forall a :: a in s && a < |l| ==> l[a] == l'[a]
  }

  lemma {:induction false} LinkedFrame(l: seq<int>, r: seq<int>, l': seq<int>, r': seq<int>, t: Tree)
    requires Linked(l, r, t) && SameOn(Nodes(t), l, l') && SameOn(Nodes(t), r, r')
    ensures Linked(l', r', t)
  {
    if t.Node? {
      LinkedFrame(l, r, l', r', t.left);
      LinkedFrame(l, r, l', r', t.right);
    }
  }

  lemma {:induction false} PathFrame(l: seq<int>, r: seq<int>, l': seq<int>, r': seq<int>, c: Path, root: int)
    requires LinkedPath(l, r, c, root) && SameOn(PathNodes(c), l, l') && SameOn(PathNodes(c), r, r')
    ensures LinkedPath(l', r', c, root)
  {
    match c
    case Top =>
    case InLeft(up, a, rt) => LinkedFrame(l, r, l', r', rt); PathFrame(l, r, l', r', up, a);
    case InRight(up, a, lt) => LinkedFrame(l, r, l', r', lt); PathFrame(l, r, l', r', up, a);
  }

  lemma {:induction false} LinkedWithin(l: seq<int>, r: seq<int>, t: Tree)
    requires Linked(l, r, t)
    ensures t.Node? ==> |l| == |r|
    ensures Within(Nodes(t), |l|)
  {
    if t.Node? {
      LinkedWithin(l, r, t.left);
      LinkedWithin(l, r, t.right);
    }
  }

  /** Removing below a path and then closing the path is removing from the whole tree. */
  lemma {:induction false} PlugRemove(c: Path, t: Tree, a: nat)
    requires Distinct(Plug(c, t)) && a in Nodes(t)
    ensures Remove(Plug(c, t), a) == Plug(c, Remove(t, a))
  {
    match c
    case Top =>
    case InLeft(up, p, rt) =>
      PlugNodes(up, Node(p, t, rt));
      PlugRemove(up, Node(p, t, rt), a);
    case InRight(up, p, lt) =>
      PlugNodes(up, Node(p, lt, t));
      PlugRemove(up, Node(p, lt, t), a);
  }

  /** Arrays that differ only outside s. */
  ghost predicate DifferOnlyIn(s: set<nat>, l: seq<int>, l': seq<int>) {
    |l| == |l'| && forall a :: 0 <= a < |l| && a !in s ==> l[a] == l'[a]
  }

  /** Rewriting the links of a subtree's root, or of headers outside the tree, leaves the path above and
      the subtrees below as they were. */
  lemma {:induction false} RootRewritten(l: seq<int>, r: seq<int>, l': seq<int>, r': seq<int>, c: Path, t: Tree, s: set<nat>)
    requires Linked(l, r, Plug(c, t)) && Distinct(Plug(c, t)) && t.Node?
    requires s !! Nodes(t.left) && s !! Nodes(t.right) && s !! PathNodes(c)
    requires DifferOnlyIn(s, l, l') && DifferOnlyIn(s, r, r')
    ensures Linked(l', r', t.left) && Linked(l', r', t.right) && LinkedPath(l', r', c, t.at)
  {
    PlugLinked(l, r, c, t);
    PathFrame(l, r, l', r', c, t.at);
    LinkedFrame(l, r, l', r', t.left);
    LinkedFrame(l, r, l', r', t.right);
  }

  // ---- Hanging another subtree into the hole of a path

  /** l', r' agree with l, r on the path, except that the link to the hole now leads to root'. */
  ghost predicate Rehung(l: seq<int>, r: seq<int>, l': seq<int>, r': seq<int>, c: Path, root': int) {
    match c
    case Top => true
    case InLeft(up, a, rt) =>
      && a < |l| == |r| == |l'| == |r'|
      && l'[a] == Offset(a, root') && r'[a] == r[a]
      && SameOn(PathNodes(c) - {a}, l, l') && SameOn(PathNodes(c) - {a}, r, r')
    case InRight(up, a, lt) =>
      && a < |l| == |r| == |l'| == |r'|
      && r'[a] == Offset(a, root') && l'[a] == l[a]
      && SameOn(PathNodes(c) - {a}, l, l') && SameOn(PathNodes(c) - {a}, r, r')
  }

  lemma Rehang(l: seq<int>, r: seq<int>, l': seq<int>, r': seq<int>, c: Path, t: Tree, t': Tree)
    requires Linked(l, r, Plug(c, t)) && Distinct(Plug(c, t))
    requires Linked(l', r', t') && Rehung(l, r, l', r', c, Root(t'))
    ensures Linked(l', r', Plug(c, t'))
  {
    PlugLinked(l, r, c, t);
    match c
    case Top =>
    case InLeft(up, a, rt) =>
      PlugNodes(up, Node(a, t, rt));
      LinkedFrame(l, r, l', r', rt);
      PathFrame(l, r, l', r', up, a);
      PlugLinked(l', r', c, t');
    case InRight(up, a, lt) =>
      PlugNodes(up, Node(a, lt, t));
      LinkedFrame(l, r, l', r', lt);
      PathFrame(l, r, l', r', up, a);
      PlugLinked(l', r', c, t');
  }

  lemma {:induction false} PlugDistinct(c: Path, t: Tree, t': Tree)
    requires Distinct(Plug(c, t)) && Distinct(t') && Nodes(t') <= Nodes(t)
    ensures Distinct(Plug(c, t'))
  {
    PlugNodes(c, t);
    match c
    case Top =>
    case InLeft(up, a, rt) =>
      PlugNodes(up, Node(a, t, rt));
      PlugDistinct(up, Node(a, t, rt), Node(a, t', rt));
    case InRight(up, a, lt) =>
      PlugNodes(up, Node(a, lt, t));
      PlugDistinct(up, Node(a, lt, t), Node(a, lt, t'));
  }

  lemma {:induction false} PlugRoot(c: Path, t: Tree, t': Tree)
    requires c != Top
    ensures Root(Plug(c, t)) == Root(Plug(c, t'))
  {
    match c
    case Top =>
    case InLeft(up, a, rt) => if up != Top { PlugRoot(up, Node(a, t, rt), Node(a, t', rt)); }
    case InRight(up, a, lt) => if up != Top { PlugRoot(up, Node(a, lt, t), Node(a, lt, t')); }
  }

  lemma RemoveRootNodes(t: Tree)
    requires t.Node? && Distinct(t)
    ensures Distinct(RemoveRoot(t)) && Nodes(RemoveRoot(t)) == Nodes(t) - {t.at}
  {
    if t.left.Node? && t.right.Node? { RemoveMinNodes(t.right); }
  }

  /** Links lead to headers of the tree and so stay inside the page: a free header never carries the offsets that
      mark an allocated one. */
  lemma {:induction false} LinksInside(l: seq<int>, r: seq<int>, t: Tree, a: nat)
    requires Linked(l, r, t) && a in Nodes(t)
    ensures a < |l| == |r| && -|l| < l[a] < |l| && -|l| < r[a] < |l|
    ensures (l[a] == 0 || a + l[a] in Nodes(t)) && (r[a] == 0 || a + r[a] in Nodes(t))
  {
    LinkedWithin(l, r, t);
    if a in Nodes(t.left) {
      LinksInside(l, r, t.left, a);
    } else if a in Nodes(t.right) {
      LinksInside(l, r, t.right, a);
    } else {
      assert t.left.Node? ==> t.left.at in Nodes(t.left);
      assert t.right.Node? ==> t.right.at in Nodes(t.right);
      LinkedWithin(l, r, t.left);
      LinkedWithin(l, r, t.right);
    }
  }
}
