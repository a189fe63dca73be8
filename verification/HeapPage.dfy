/** One page of the traditional heap: headers in place, the free ones linked into a search tree. */
module HeapPage {
  import opened Options
  import opened FreeTree
  import opened FreeLinks
  import opened PageLayout
  import H = HeapSpec

  /** The bit fields of mp_heap_header: an assignment that does not fit is a verification error. */
  type Units10 = x: int | 0 <= x < 1024
  type Offset11 = x: int | -1024 <= x < 1024

  const MARK: Offset11 := 1023

  datatype Direction = DirN | DirL | DirR

  class Page {
    const size: array<Units10>
    const left: array<Offset11>
    const right: array<Offset11>
    var root: int
    var free: nat
    var freeCount: nat
    var allocatedCount: nat
    var defragPeriod: int
    ghost var tree: Tree

    /** The arrays hold tree; this is all the tree operations rely on. */
    ghost predicate TreeOk()
      reads this, size, left, right
    {
      && left != right && size as object != left && size as object != right
      && size.Length == left.Length == right.Length <= 1023
      && Linked(left[..], right[..], tree) && Distinct(tree)
      && root == Root(tree)
    }

    ghost function Model(): H.Page
      reads this, size
    {
      H.Page(size[..], tree)
    }

    /** The page between two calls. */
    ghost predicate Valid()
      reads this, size, left, right
    {
      && TreeOk()
      && H.Inv(Model())
      && Marked(left[..], right[..], H.Allocated(Model()))
      && free == UnitsOf(size[..], 0, Nodes(tree))
      && freeCount == CountOf(size[..], 0, Nodes(tree))
      && allocatedCount == CountOf(size[..], 0, H.Allocated(Model()))
    }

    /** mp_heap_page_alloc: one free block over the whole page. */
    constructor (units: nat)
      requires 1 <= units <= 1023
      ensures Valid() && fresh(size) && fresh(left) && fresh(right)
      ensures |Model().sz| == units && Model().tree == Node(0, Leaf, Leaf) && Model().sz[0] == units
      ensures free == units && freeCount == 1 && allocatedCount == 0 && defragPeriod == 1
    {
      size, left, right := new Units10[units], new Offset11[units], new Offset11[units];
      root, free, freeCount, allocatedCount, defragPeriod := 0, units, 1, 0, 1;
      tree := Node(0, Leaf, Leaf);
      new;
      size[0], left[0], right[0] := units, 0, 0;
      assert Tiles(size[..], units);
      assert Tiles(size[..], 0) && Starts(size[..], 0) == {0} + Starts(size[..], units);
      assert Nodes(tree) == {0};
      assert CountOf(size[..], units, Nodes(tree)) == 0 && UnitsOf(size[..], units, Nodes(tree)) == 0;
      assert CountOf(size[..], units, H.Allocated(Model())) == 0;
    }

    /** MP_HH_IS_ALLOCATED tells exactly the allocated headers of the page. */
    lemma MarkIsExact(a: nat)
      requires Valid() && a in Starts(size[..], 0)
      ensures a < left.Length && (a in H.Allocated(Model()) <==> left[a] == 1023 && right[a] == 1023)
    {
      StartsRange(size[..], 0);
      if a in Nodes(tree) { LinksInside(left[..], right[..], tree, a); }
    }

    // The MP_HH_SET_* and MP_HH_COPY_* macros.

    method SetLeft(hh: nat, child: nat)
      requires hh < left.Length <= 1023 && child < left.Length
      modifies left
      ensures left[..] == old(left[..])[hh := child - hh]
    {
      left[hh] := child - hh;
    }

    method SetRight(hh: nat, child: nat)
      requires hh < right.Length <= 1023 && child < right.Length
      modifies right
      ensures right[..] == old(right[..])[hh := child - hh]
    {
      right[hh] := child - hh;
    }

    method CopyLeft(from: nat, to: nat)
      requires from < left.Length <= 1023 && to < left.Length && 0 <= from + left[from] < left.Length
      modifies left
      ensures left[..] == old(left[..])[to := if old(left[from]) == 0 then 0 else from + old(left[from]) - to]
    {
      left[to] := if left[from] == 0 then 0 else from + left[from] - to;
    }

    method CopyRight(from: nat, to: nat)
      requires from < right.Length <= 1023 && to < right.Length && 0 <= from + right[from] < right.Length
      modifies right
      ensures right[..] == old(right[..])[to := if old(right[from]) == 0 then 0 else from + old(right[from]) - to]
    {
      right[to] := if right[from] == 0 then 0 else from + right[from] - to;
    }

    /** mp_heap_btree_insert. */
    method Insert(hh: nat)
      requires TreeOk() && hh < size.Length && hh !in Nodes(tree)
      modifies this`root, this`tree, left, right
      ensures TreeOk() && tree == FreeTree.Insert(old(tree), hh, size[..])
      ensures DifferOnlyIn(Nodes(tree), old(left[..]), left[..]) && DifferOnlyIn(Nodes(tree), old(right[..]), right[..])
    {
      hide FreeTree.Insert, Linked, Distinct, Nodes, Plug, LinkedPath, PathNodes;
      var parent := root;
      ghost var t0, sz := tree, size[..];
      ghost var l0, r0 := left[..], right[..];
      left[hh], right[hh] := 0, 0;
      InsertKeepsDistinct(t0, hh, sz);
      LinkedWithin(l0, r0, t0);
      LinkedFrame(l0, r0, left[..], right[..], t0);
      tree := FreeTree.Insert(t0, hh, sz);
      if root == -1 {
        root := hh;
        LeafInsert(left[..], right[..], hh, sz);
        return;
      }
      ghost var l1, r1 := left[..], right[..];
      ghost var c, t := Top, t0;
      PlugTop(t0);
      PlugTop(tree);
      var inserted := false;
      while !inserted
        invariant root == Root(t0) && t.Node? && parent == t.at && parent in Nodes(t0)
        invariant tree == FreeTree.Insert(t0, hh, sz) && Plug(c, t) == t0 && Plug(c, FreeTree.Insert(t, hh, sz)) == tree
        invariant !inserted ==> left[..] == l1 && right[..] == r1
        invariant inserted ==> Linked(left[..], right[..], tree)
        invariant DifferOnlyIn({hh, parent}, l1, left[..]) && DifferOnlyIn({hh, parent}, r1, right[..])
        decreases !inserted, t
      {
        AtNode(l1, r1, c, t);
        Descend(c, t, hh, sz);
        if size[hh] > size[parent] {
          if right[parent] == 0 {
            SetRight(parent, hh);
            inserted := true;
          } else {
            c, t := InRight(c, t.at, t.left), t.right;
            parent := parent + right[parent];
          }
        } else if size[hh] < size[parent] {
          if left[parent] == 0 {
            SetLeft(parent, hh);
            inserted := true;
          } else {
            c, t := InLeft(c, t.at, t.right), t.left;
            parent := parent + left[parent];
          }
        } else {
          CopyLeft(parent, hh);
          SetLeft(parent, hh);
          inserted := true;
        }
        if inserted { AttachedHere(l1, r1, left[..], right[..], c, t, hh, sz); }
      }
      RootOfInsert(t0, hh, sz);
    }

    /** mp_heap_btree_delete: hh is the root of the subtree t, hanging from the path c. */
    method Delete(parent: int, hh: nat, direction: Direction, ghost c: Path, ghost t: Tree)
      requires TreeOk() && tree == Plug(c, t) && t.Node? && t.at == hh && Leads(c, parent, direction)
      modifies this`root, this`tree, left, right
      ensures TreeOk() && tree == Plug(c, RemoveRoot(t))
      ensures hh < left.Length && left[hh] == 0 && right[hh] == 0
      ensures LinksKept(Nodes(old(tree)), old(left[..]), old(right[..]), left[..], right[..])
      decreases if t.left.Node? && t.right.Node? then 2 else 0
    {
      hide Linked, Distinct, Nodes, Plug, LinkedPath, PathNodes, RemoveMin, Min, RemoveRoot, Rehung;
      ghost var t0, l0, r0 := tree, left[..], right[..];
      AtNode(l0, r0, c, t);
      RemovedTree(c, t);
      if c != Top { ParentOfHole(l0, r0, c, parent, direction, hh); }
      var tail := parent;
      ghost var t1, l1, r1 := t, l0, r0;
      if left[hh] != 0 && right[hh] != 0 {
        tail := TakeSuccessor(hh, c, t);
        t1, l1, r1 := Node(hh, t.left, RemoveMin(t.right)), left[..], right[..];
        Successor(c, t, t1);
      } else {
        OneChild(t);
        if left[hh] != 0 {
          tail := hh + left[hh];
        } else if right[hh] != 0 {
          tail := hh + right[hh];
        }
      }
      AtNode(l1, r1, c, t1);
      match direction {
        case DirL => SetLeft(parent, tail);
        case DirR => SetRight(parent, tail);
        case DirN => root := tail;
      }
      left[hh], right[hh] := 0, 0;
      tree := Plug(c, RemoveRoot(t));
      Relinked(l1, r1, left[..], right[..], c, t1, RemoveRoot(t), parent, direction, tail, hh);
      if c == Top { PlugTop(RemoveRoot(t)); } else { PlugRoot(c, t, RemoveRoot(t)); PlugRoot(c, t, t1); }
    }

    /** The two-child part of mp_heap_btree_delete: unlinks the smallest successor of hh and gives it the
        children of hh. */
    method TakeSuccessor(hh: nat, ghost c: Path, ghost t: Tree) returns (tail: nat)
      requires TreeOk() && tree == Plug(c, t) && t.Node? && t.at == hh && t.left.Node? && t.right.Node?
      modifies this`root, this`tree, left, right
      ensures TreeOk() && tree == Plug(c, Node(hh, t.left, RemoveMin(t.right)))
      ensures tail == Min(t.right) && tail < left.Length
      ensures left[tail] == Offset(tail, Root(t.left)) && right[tail] == Offset(tail, Root(RemoveMin(t.right)))
      ensures LinksKept(Nodes(old(tree)), old(left[..]), old(right[..]), left[..], right[..])
      decreases 1
    {
      hide Linked, Distinct, Nodes, Plug, LinkedPath, PathNodes, RemoveMin, Min, RemoveRoot;
      ghost var t0, l0, r0 := tree, left[..], right[..];
      AtNode(l0, r0, c, t);
      var tparent, tdir := hh, DirR;
      tail := hh + right[hh];
      ghost var tc, tt := InRight(c, hh, t.left), t.right;
      GoRight(c, t);
      AtNode(l0, r0, tc, tt);
      while left[tail] != 0
        invariant tree == t0 && root == Root(t0) && left[..] == l0 && right[..] == r0
        invariant tt.Node? && tt.at == tail && tail < left.Length
        invariant t0 == Plug(tc, tt) && Leads(tc, tparent, tdir)
        invariant Min(tt) == Min(t.right)
        invariant Plug(tc, RemoveMin(tt)) == Plug(InRight(c, hh, t.left), RemoveMin(t.right))
        invariant left[tail] == 0 <==> tt.left.Leaf?
        decreases tt
      {
        AtNode(l0, r0, tc, tt);
        GoLeft(tc, tt);
        tparent := tail;
        tail := tail + left[tail];
        tc, tt := InLeft(tc, tt.at, tt.right), tt.left;
        tdir := DirL;
        AtNode(l0, r0, tc, tt);
      }
      NoLeftChild(tt);
      Delete(tparent, tail, tdir, tc, tt);
      ghost var t1 := Node(hh, t.left, RemoveMin(t.right));
      GoRight(c, t1);
      Successor(c, t, t1);
      AtNode(left[..], right[..], c, t1);
      ghost var l1, r1 := left[..], right[..];
      CopyLeft(hh, tail);
      CopyRight(hh, tail);
      Unaffected(l1, r1, left[..], right[..], tree, {tail});
    }

    /** mp_heap_btree_find_delete: the best-fitting free block, taken out of the tree, or -1. */
    method FindDelete(units: nat) returns (found: int)
      requires TreeOk() && Ordered(tree, size[..]) && root != -1
      modifies this`root, this`tree, left, right
      ensures TreeOk()
      ensures match Best(old(tree), units, size[..])
              case None => found == -1 && tree == old(tree) && left[..] == old(left[..]) && right[..] == old(right[..])
              case Some(b) => found == b && tree == Remove(old(tree), b)
      ensures LinksKept(Nodes(old(tree)), old(left[..]), old(right[..]), left[..], right[..])
    {
      hide Linked, Distinct, Nodes, Plug, LinkedPath, PathNodes, RemoveRoot, Remove, FreeTree.Best, Ordered;
      ghost var t0, sz, l0, r0 := tree, size[..], left[..], right[..];
      var hh, parent, direction := root, -1, DirN;
      ghost var c, t := Top, t0;
      PlugTop(t0);
      OrderedWithin(t0, sz);
      var best, bParent, bDiff, bDirection := root, -1, size[root] - units, DirN;
      ghost var bc, bt := Top, t0;
      while true
        invariant tree == t0 && root == Root(t0) && left[..] == l0 && right[..] == r0
        invariant t.Node? && t.at == hh && 0 <= hh < left.Length && Plug(c, t) == t0 && Leads(c, parent, direction)
        invariant bt.Node? && bt.at == best && 0 <= best < left.Length && Plug(bc, bt) == t0 && Leads(bc, bParent, bDirection)
        invariant bDiff == size[best] - units && Ordered(t, sz)
        invariant c == Top ==> best == hh && t == t0
        invariant c != Top ==>
                    && (bDiff >= 0 ==> AtMost(Nodes(t), sz, size[best]))
                    && Best(t0, units, sz) == OrElse(Best(t, units, sz), if bDiff >= 0 then Some(best as nat) else None)
        decreases t
      {
        SearchStep(l0, r0, c, t, units, sz);
        var diff := size[hh] - units;
        if diff >= 0 && (diff <= bDiff || bDiff < 0) {
          bParent, best, bDiff, bDirection := parent, hh, diff, direction;
          bc, bt := c, t;
          if diff == 0 { break; }
        }
        if left[hh] != 0 && diff > 0 {
          parent, direction := hh, DirL;
          c, t := InLeft(c, t.at, t.right), t.left;
          hh := hh + left[hh];
        } else if right[hh] != 0 && diff < 0 {
          parent, direction := hh, DirR;
          c, t := InRight(c, t.at, t.left), t.right;
          hh := hh + right[hh];
        } else {
          break;
        }
      }
      assert Best(t0, units, sz) == if bDiff >= 0 then Some(best as nat) else None;
      if bDiff < 0 {
        return -1;
      }
      RemoveBelow(bc, bt);
      Delete(bParent, best, bDirection, bc, bt);
      found := best;
    }

    /** mp_heap_btree_linearize. */
    method Linearize(list: array<nat>, node: nat, index: nat, ghost t: Tree) returns (next: nat)
      requires Linked(left[..], right[..], t) && Distinct(t) && t.Node? && t.at == node
      requires list as object != left && list as object != right && index + |Linear(t)| <= list.Length
      modifies list
      ensures next == index + |Linear(t)| && list[index..next] == Linear(t)
      ensures forall k :: 0 <= k < list.Length && !(index <= k < next) ==> list[k] == old(list[k])
      decreases t
    {
      LinkedWithin(left[..], right[..], t);
      list[index] := node;
      next := index + 1;
      if left[node] != 0 {
        next := Linearize(list, node + left[node], next, t.left);
      }
      assert list[index..next] == [node] + Linear(t.left);
      ghost var half := list[index..next];
      ghost var mid := next;
      if right[node] != 0 {
        next := Linearize(list, node + right[node], next, t.right);
      }
      assert list[index..next] == half + Linear(t.right);
    }

    /** The trimming part of mp_heap_alloc: cuts block hh to units and frees the rest. */
    method Trim(hh: nat, units: nat)
      requires TreeOk() && hh < size.Length && 0 < units < size[hh] && hh + size[hh] <= size.Length
      requires hh + units !in Nodes(tree)
      modifies this`root, this`tree, size, left, right
      ensures TreeOk() && size[..] == Split(old(size[..]), hh, units)
      ensures tree == FreeTree.Insert(old(tree), hh + units, size[..])
      ensures LinksKept(Nodes(tree), old(left[..]), old(right[..]), left[..], right[..])
    {
      hide Linked, Distinct, Nodes, FreeTree.Insert;
      var diff := size[hh] - units;
      size[hh] := units;
      var next := hh + size[hh];
      ghost var l1, r1 := left[..], right[..];
      size[next], left[next], right[next] := diff, 0, 0;
      Unaffected(l1, r1, left[..], right[..], tree, {next});
      InsertNodes(tree, next, size[..]);
      Insert(next);
    }

    /** mp_heap_alloc on this page: the offset of the allocated header, or -1. */
    method Alloc(bytes: nat) returns (found: int)
      requires Valid()
      modifies this, size, left, right
      ensures Valid()
      ensures Model() == H.Alloc(old(Model()), H.Units(bytes)).0
      ensures match H.Alloc(old(Model()), H.Units(bytes)).1 case None => found == -1 case Some(b) => found == b
      ensures found == -1 <==> forall a :: a in Nodes(old(tree)) ==> H.TooSmall(old(size[..]), a, bytes)
      ensures found != -1 ==>
                && 0 <= found < size.Length && !H.TooSmall(size[..], found, bytes)
                && size[found] == if old(size[..])[found] > H.Units(bytes) + 4 then H.Units(bytes) else old(size[..])[found]
      ensures defragPeriod == old(defragPeriod)
    {
      hide Linked, Distinct, Ordered, Nodes, FreeTree.Insert, Remove, Best, Tiles, Starts, UnitsOf, CountOf;
      hide H.Alloc, Marked, H.Allocated, LinksKept;
      ghost var p := Model();
      var units := H.Units(bytes);
      AllocFacts(p, units);
      H.AllocFailsExactly(p, bytes);
      H.LargeEnough(bytes, units);
      if root == -1 {
        EmptyAlloc(p, units);
        return -1;
      }
      found := FindDelete(units);
      if found == -1 {
        return;
      }
      MarkedKept(old(left[..]), old(right[..]), left[..], right[..], H.Allocated(p), Nodes(p.tree));
      ghost var l1, r1 := left[..], right[..];
      left[found], right[found] := MARK, MARK;
      MarkedAdd(l1, r1, left[..], right[..], H.Allocated(p), found);
      Unaffected(l1, r1, left[..], right[..], tree, {found});
      var diff := size[found] - units;
      allocatedCount := allocatedCount + 1;
      freeCount := freeCount - 1;
      if diff > H.MIN_UNITS {
        freeCount := freeCount + 1;
        ghost var l2, r2 := left[..], right[..];
        Trim(found, units);
        MarkedKept(l2, r2, left[..], right[..], H.Allocated(p) + {found as nat}, Nodes(tree));
      }
      free := free - size[found];
    }

    /** mp_heap_free on this page; released says whether the page held nothing else. */
    method Free(hh: nat) returns (released: bool)
      requires Valid() && hh in H.Allocated(Model())
      modifies this, size, left, right
      ensures Valid()
      ensures released <==> H.Allocated(old(Model())) == {hh}
      ensures var freed := H.Free(old(Model()), hh);
              if !released && old(freeCount) + 1 > 16 && old(defragPeriod) <= 1
              then Model() == H.Defrag(freed) else Model() == freed
      ensures defragPeriod == if released || old(freeCount) + 1 <= 16 then old(defragPeriod)
                              else if old(defragPeriod) <= 1 then 8
                              else old(defragPeriod) - 1
    {
      hide Linked, Distinct, Ordered, Nodes, FreeTree.Insert, Tiles, Starts, UnitsOf, CountOf, H.Defrag;
      ghost var p := Model();
      H.FreeCorrect(p, hh);
      StartsRange(size[..], 0);
      assert size[hh] > 0;
      assert left[hh] == MARK && right[hh] == MARK;
      Insert(hh);
      InsertNotEmpty(p.tree, hh, p.sz);
      CountZero(p.sz, 0, H.Allocated(p) - {hh});
      freeCount := freeCount + 1;
      free := free + size[hh];
      allocatedCount := allocatedCount - 1;
      released := allocatedCount == 0;
      if !released && freeCount > H.DEFRAG_FREE {
        Defrag();
      }
    }

    /** The first part of mp_heap_page_defrag: the free headers, linearised and sorted by address. */
    method FreeList(ghost fs: seq<nat>) returns (list: array<nat>)
      requires TreeOk() && root != -1 && Tiles(size[..], 0) && Nodes(tree) <= Starts(size[..], 0)
      requires freeCount == CountOf(size[..], 0, Nodes(tree))
      requires H.Ascending(fs) && Elems(fs) == Elems(Linear(tree))
      ensures fresh(list) && list[..] == fs
    {
      hide Starts, CountOf, Linear, H.Ascending, Elems;
      list := new nat[freeCount];
      LinearCount(tree, size[..]);
      var next := Linearize(list, root, 0, tree);
      assert next == freeCount;
      assert list[..] == Linear(tree);
      SortByAddress(list);
      H.AscendingUnique(list[..], fs);
    }

    /** The inner loop of mp_heap_page_defrag: the blocks of the list that follow hh without a gap are merged
        into it. */
    method MergeRun(list: array<nat>, start: nat, hh: nat, ghost sz: seq<nat>, ghost merged: seq<nat>, ghost done: nat)
      returns (index: nat)
      requires list as object != size && size.Length <= 1023 && start <= list.Length
      requires done < |merged| && H.CoalesceReady(size[..], [hh] + list[start..])
      requires H.Coalesce(size[..], [hh] + list[start..]) == (sz, merged[done..])
      requires H.Ascending(merged) && SameSizes(merged[..done], size[..], sz)
      modifies size
      ensures start <= index <= list.Length && hh < size.Length
      ensures H.CoalesceReady(size[..], [hh] + list[index..])
      ensures H.Coalesce(size[..], [hh] + list[index..]) == (sz, merged[done..])
      ensures index < list.Length ==> list[index] != hh + size[hh]
      ensures SameSizes(merged[..done], size[..], sz)
    {
      hide H.Coalesce, H.CoalesceReady, H.Ascending, SameSizes;
      index := start;
      ghost var fs := list[..];
      assert list[start..] == fs[start..];
      HeadStep(size[..], hh, fs[index..], sz, merged[done..]);
      var next := hh + size[hh];
      while index < list.Length && next == list[index]
        invariant start <= index <= list.Length && list[..] == fs
        invariant hh < size.Length && next == hh + size[hh]
        invariant H.CoalesceReady(size[..], [hh] + fs[index..])
        invariant H.Coalesce(size[..], [hh] + fs[index..]) == (sz, merged[done..])
        invariant SameSizes(merged[..done], size[..], sz)
      {
        HeadStep(size[..], hh, fs[index..], sz, merged[done..]);
        NotDone(merged, done, hh, size[..], sz, size[hh] + size[next]);
        assert fs[index..][1..] == fs[index + 1..];
        size[hh] := size[hh] + size[next];
        next := next + size[next];
        index := index + 1;
      }
      assert list[index..] == fs[index..];
    }

    /** mp_heap_page_defrag. */
    method Defrag()
      requires Valid() && root != -1
      modifies this, size, left, right
      ensures Valid()
      ensures old(defragPeriod) > 1 ==> Model() == old(Model()) && defragPeriod == old(defragPeriod) - 1
      ensures old(defragPeriod) <= 1 ==> Model() == H.Defrag(old(Model())) && defragPeriod == 8
      ensures allocatedCount == old(allocatedCount) && free == old(free)
    {
      hide Linked, Distinct, Ordered, Nodes, FreeTree.Insert, Tiles, Starts, UnitsOf, CountOf, H.Coalesce, H.NoNeighbours;
      hide H.Merged, Elems, Linear, H.Sorted, H.InsertAll, H.Ascending, H.Allocated, H.Covers, H.CoalesceReady;
      hide Marked, LinksKept, SameSizes, H.Defrag, MARK;
      defragPeriod := defragPeriod - 1;
      if defragPeriod > 0 {
        return;
      }
      ghost var p := Model();
      ghost var fs, sz, merged := H.DefragParts(p);
      var list := FreeList(fs);
      H.DefragCorrect(p);
      H.DefragCounts(p);
      root, freeCount, tree := -1, 0, Leaf;
      var index := 0;
      ghost var l1, r1 := left[..], right[..];
      DefragStart(left[..], right[..], fs, merged, sz, size[..], Nodes(p.tree));
      while index < list.Length
        invariant index <= list.Length && list[..] == fs && freeCount <= |merged|
        invariant TreeOk() && tree == H.InsertAll(Leaf, merged[..freeCount], sz)
        invariant H.CoalesceReady(size[..], fs[index..])
        invariant H.Coalesce(size[..], fs[index..]) == (sz, merged[freeCount..])
        invariant SameSizes(merged[..freeCount], size[..], sz)
        invariant LinksKept(Nodes(p.tree), l1, r1, left[..], right[..])
        invariant allocatedCount == old(allocatedCount) && free == old(free)
      {
        var hh := list[index];
        ghost var done := freeCount;
        assert fs[index..] == [hh] + fs[index + 1..];
        HeadStep(size[..], hh, fs[index + 1..], sz, merged[done..]);
        index := index + 1;
        index := MergeRun(list, index, hh, sz, merged, done);
        HeadStep(size[..], hh, fs[index..], sz, merged[done..]);
        InsertNext(merged, done, hh, size[..], sz);
        ghost var l2, r2 := left[..], right[..];
        Insert(hh);
        KeptTrans(l1, r1, l2, r2, left[..], right[..], Nodes(p.tree), Nodes(tree));
        freeCount := freeCount + 1;
      }
      DefragEnd(p, size[..], fs[index..], sz, merged, freeCount);
      FreeApart(p);
      MarkedKept(l1, r1, left[..], right[..], H.Allocated(p), Nodes(p.tree));
      defragPeriod := H.DEFRAG_PERIOD;
    }
  }

  /** qsort with mp_heap_header_lcmp. */
  method SortByAddress(list: array<nat>)
    requires FreeTree.NoRepeats(list[..])
    modifies list
    ensures H.Ascending(list[..]) && Elems(list[..]) == Elems(old(list[..]))
  {
    H.SortedCorrect(list[..]);
    var sorted := H.Sorted(list[..]);
    forall i | 0 <= i < list.Length {
      list[i] := sorted[i];
    }
    assert list[..] == sorted;
  }

  // ---- Steps of the tree operations, on the arrays as sequences

  lemma {:induction false} InsertKeepsDistinct(t: Tree, hh: nat, sz: seq<nat>)
    requires Distinct(t) && hh !in Nodes(t)
    ensures Distinct(FreeTree.Insert(t, hh, sz)) && Nodes(FreeTree.Insert(t, hh, sz)) == Nodes(t) + {hh}
  {
    InsertNodes(t, hh, sz);
    if t.Node? {
      InsertNodes(t.left, hh, sz);
      InsertNodes(t.right, hh, sz);
      InsertKeepsDistinct(t.left, hh, sz);
      InsertKeepsDistinct(t.right, hh, sz);
    }
  }

  lemma LeafInsert(l: seq<int>, r: seq<int>, hh: nat, sz: seq<nat>)
    requires hh < |l| == |r| && l[hh] == 0 && r[hh] == 0
    ensures Linked(l, r, FreeTree.Insert(Leaf, hh, sz)) && Root(FreeTree.Insert(Leaf, hh, sz)) == hh
  {
  }

  lemma PlugTop(t: Tree)
    ensures Plug(Top, t) == t && (t.Node? ==> t.at in Nodes(t))
  {
  }

  lemma RootOfInsert(t: Tree, hh: nat, sz: seq<nat>)
    requires t.Node?
    ensures Root(FreeTree.Insert(t, hh, sz)) == Root(t)
  {
  }

  /** What is known at a node on the way down: its links, and that it is apart from hh and the rest. */
  lemma AtNode(l: seq<int>, r: seq<int>, c: Path, t: Tree)
    requires Linked(l, r, Plug(c, t)) && Distinct(Plug(c, t)) && t.Node?
    ensures Distinct(t) && Linked(l, r, t) && LinkedPath(l, r, c, t.at)
    ensures t.at < |l| == |r| && t.at in Nodes(Plug(c, t))
    ensures t.at !in Nodes(t.left) && t.at !in Nodes(t.right) && t.at !in PathNodes(c)
    ensures PathNodes(c) !! Nodes(t.left) && PathNodes(c) !! Nodes(t.right)
    ensures Nodes(t.left) <= Nodes(Plug(c, t)) && Nodes(t.right) <= Nodes(Plug(c, t)) && PathNodes(c) <= Nodes(Plug(c, t))
    ensures l[t.at] == Offset(t.at, Root(t.left)) && r[t.at] == Offset(t.at, Root(t.right))
    ensures (l[t.at] == 0 <==> t.left.Leaf?) && (r[t.at] == 0 <==> t.right.Leaf?)
    ensures t.left.Node? ==> t.left.at in Nodes(Plug(c, t)) && t.left.at < |l|
    ensures t.right.Node? ==> t.right.at in Nodes(Plug(c, t)) && t.right.at < |l|
  {
    hide Plug, LinkedPath, PathNodes;
    PlugNodes(c, t);
    PlugLinked(l, r, c, t);
    assert Distinct(t);
  }

  /** Going down keeps the whole tree, before and after the insertion. */
  lemma Descend(c: Path, t: Tree, hh: nat, sz: seq<nat>)
    requires t.Node? && hh < |sz|
    ensures Plug(InLeft(c, t.at, t.right), t.left) == Plug(c, t) == Plug(InRight(c, t.at, t.left), t.right)
    ensures sz[hh] > SizeAt(sz, t.at) ==>
              Plug(InRight(c, t.at, t.left), FreeTree.Insert(t.right, hh, sz)) == Plug(c, FreeTree.Insert(t, hh, sz))
    ensures sz[hh] < SizeAt(sz, t.at) ==>
              Plug(InLeft(c, t.at, t.right), FreeTree.Insert(t.left, hh, sz)) == Plug(c, FreeTree.Insert(t, hh, sz))
  {
  }

  /** The three ways Insert attaches the new header below t. */
  lemma Attached(l: seq<int>, r: seq<int>, c: Path, t: Tree, hh: nat, sz: seq<nat>)
    requires t.Node? && t.at < |l| == |r| && hh < |l| && |sz| == |l|
    requires Linked(l, r, t.left) && Linked(l, r, t.right) && LinkedPath(l, r, c, t.at)
    requires r[hh] == 0
    requires sz[hh] > sz[t.at] ==> t.right.Leaf? && l[hh] == 0 && l[t.at] == Offset(t.at, Root(t.left)) && r[t.at] == hh - t.at
    requires sz[hh] < sz[t.at] ==> t.left.Leaf? && l[hh] == 0 && l[t.at] == hh - t.at && r[t.at] == Offset(t.at, Root(t.right))
    requires sz[hh] == sz[t.at] ==>
               l[hh] == Offset(hh, Root(t.left)) && l[t.at] == hh - t.at && r[t.at] == Offset(t.at, Root(t.right))
    ensures Linked(l, r, Plug(c, FreeTree.Insert(t, hh, sz)))
  {
    var t' := FreeTree.Insert(t, hh, sz);
    assert Linked(l, r, Leaf);
    assert FreeTree.Insert(Leaf, hh, sz) == Node(hh, Leaf, Leaf);
    if sz[hh] > sz[t.at] {
      assert t' == Node(t.at, t.left, Node(hh, Leaf, Leaf)) && Linked(l, r, Node(hh, Leaf, Leaf));
    } else if sz[hh] < sz[t.at] {
      assert t' == Node(t.at, Node(hh, Leaf, Leaf), t.right) && Linked(l, r, Node(hh, Leaf, Leaf));
    } else {
      assert t' == Node(t.at, Node(hh, t.left, Leaf), t.right) && Linked(l, r, Node(hh, t.left, Leaf));
    }
    PlugLinked(l, r, c, t');
  }

  /** The links after one of the three: nothing else of the tree was touched. */
  lemma {:induction false} AttachedHere(l: seq<int>, r: seq<int>, l': seq<int>, r': seq<int>, c: Path, t: Tree, hh: nat, sz: seq<nat>)
    requires Linked(l, r, Plug(c, t)) && Distinct(Plug(c, t)) && t.Node? && hh !in Nodes(Plug(c, t))
    requires t.at < |l| == |r| == |sz| && hh < |l| && l[hh] == r[hh] == 0
    requires if sz[hh] > sz[t.at] then t.right.Leaf? && l' == l && r' == r[t.at := hh - t.at]
             else if sz[hh] < sz[t.at] then t.left.Leaf? && l' == l[t.at := hh - t.at] && r' == r
             else l' == l[hh := if l[t.at] == 0 then 0 else t.at + l[t.at] - hh][t.at := hh - t.at] && r' == r
    ensures Linked(l', r', Plug(c, FreeTree.Insert(t, hh, sz)))
  {
    hide FreeTree.Insert, Linked, Distinct, Nodes, Plug, LinkedPath, PathNodes;
    AtNode(l, r, c, t);
    RootRewritten(l, r, l', r', c, t, {hh, t.at});
    Attached(l', r', c, t, hh, sz);
  }

  // ---- Steps of Delete

  /** parent and direction are how the last step of the path c leads to its hole. */
  predicate Leads(c: Path, parent: int, direction: Direction) {
    match c
    case Top => parent == -1 && direction == DirN
    case InLeft(_, a, _) => parent == a && direction == DirL
    case InRight(_, a, _) => parent == a && direction == DirR
  }

  lemma ParentOfHole(l: seq<int>, r: seq<int>, c: Path, parent: int, direction: Direction, root: int)
    requires Leads(c, parent, direction) && LinkedPath(l, r, c, root) && c != Top
    ensures 0 <= parent < |l| == |r| && parent in PathNodes(c)
  {
  }

  lemma GoRight(c: Path, t: Tree)
    requires t.Node?
    ensures Plug(InRight(c, t.at, t.left), t.right) == Plug(c, t)
    ensures t.right.Node? ==> t.right.at in Nodes(t.right)
  {
  }

  lemma GoLeft(c: Path, t: Tree)
    requires t.Node? && t.left.Node?
    ensures Plug(InLeft(c, t.at, t.right), t.left) == Plug(c, t)
    ensures Plug(InLeft(c, t.at, t.right), RemoveMin(t.left)) == Plug(c, RemoveMin(t))
    ensures Min(t.left) == Min(t)
  {
  }

  lemma NoLeftChild(t: Tree)
    requires t.Node? && t.left.Leaf?
    ensures RemoveRoot(t) == t.right == RemoveMin(t) && Min(t) == t.at
  {
  }

  lemma OneChild(t: Tree)
    requires t.Node? && !(t.left.Node? && t.right.Node?)
    ensures RemoveRoot(t) == if t.left.Node? then t.left else t.right
  {
  }

  lemma RemovedTree(c: Path, t: Tree)
    requires t.Node? && Distinct(Plug(c, t))
    ensures Distinct(Plug(c, RemoveRoot(t))) && Nodes(Plug(c, RemoveRoot(t))) == Nodes(Plug(c, t)) - {t.at}
  {
    hide Plug, RemoveRoot, PathNodes;
    PlugNodes(c, t);
    RemoveRootNodes(t);
    PlugDistinct(c, t, RemoveRoot(t));
    PlugNodes(c, RemoveRoot(t));
  }

  /** The successor of t, already taken out of the tree. */
  lemma {:induction false} Successor(c: Path, t: Tree, t1: Tree)
    requires t.Node? && t.left.Node? && t.right.Node? && Distinct(Plug(c, t)) && t1 == Node(t.at, t.left, RemoveMin(t.right))
    ensures Min(t.right) in Nodes(Plug(c, t)) && Min(t.right) !in Nodes(Plug(c, t1))
    ensures Min(t.right) !in Nodes(t.left) && Min(t.right) !in Nodes(t1.right) && Min(t.right) !in PathNodes(c)
    ensures RemoveRoot(t) == Node(Min(t.right), t1.left, t1.right)
  {
    hide Plug, PathNodes;
    PlugNodes(c, t);
    RemoveMinNodes(t.right);
    PlugNodes(c, t1);
  }

  /** Only the headers in s may have changed. */
  ghost predicate LinksKept(s: set<nat>, l: seq<int>, r: seq<int>, l': seq<int>, r': seq<int>) {
    DifferOnlyIn(s, l, l') && DifferOnlyIn(s, r, r')
  }

  lemma Unaffected(l: seq<int>, r: seq<int>, l': seq<int>, r': seq<int>, t: Tree, s: set<nat>)
    requires Linked(l, r, t) && LinksKept(s, l, r, l', r') && s !! Nodes(t)
    ensures Linked(l', r', t)
  {
    hide Linked, Nodes;
    LinkedFrame(l, r, l', r', t);
  }

  /** After the parent's link is set and hh cleared, t2 hangs where t1 was. */
  lemma {:induction false} Relinked(l: seq<int>, r: seq<int>, l': seq<int>, r': seq<int>, c: Path, t1: Tree, t2: Tree,
                 parent: int, direction: Direction, tail: int, hh: nat)
    requires Linked(l, r, Plug(c, t1)) && Distinct(Plug(c, t1)) && t1.Node? && t1.at == hh && hh < |l| == |r|
    requires Leads(c, parent, direction) && (c != Top ==> 0 <= parent < |l| && parent in PathNodes(c))
    requires tail == if t2.Leaf? then parent else t2.at
    requires l' == (if direction.DirL? then l[parent := tail - parent] else l)[hh := 0]
    requires r' == (if direction.DirR? then r[parent := tail - parent] else r)[hh := 0]
    requires t2 == t1.left || t2 == t1.right
             || (t2.Node? && t2.left == t1.left && t2.right == t1.right && t2.at < |l| && t2.at !in Nodes(Plug(c, t1))
                 && l[t2.at] == Offset(t2.at, Root(t2.left)) && r[t2.at] == Offset(t2.at, Root(t2.right)))
    ensures Linked(l', r', Plug(c, t2))
  {
    hide Plug, LinkedPath, Linked, Nodes, Distinct;
    PlugNodes(c, t1);
    AtNode(l, r, c, t1);
    Replaced(l, r, l', r', c, t1, t2);
  }

  /** The subtree t2 that takes the place of t1 below the path, linked from the parent. */
  lemma {:induction false} Replaced(l: seq<int>, r: seq<int>, l': seq<int>, r': seq<int>, c: Path, t1: Tree, t2: Tree)
    requires Linked(l, r, Plug(c, t1)) && Distinct(Plug(c, t1)) && t1.Node?
    requires SameOn(Nodes(t1.left) + Nodes(t1.right), l, l') && SameOn(Nodes(t1.left) + Nodes(t1.right), r, r')
    requires Rehung(l, r, l', r', c, Root(t2))
    requires t2 == t1.left || t2 == t1.right
             || (t2.Node? && t2.left == t1.left && t2.right == t1.right && t2.at < |l'| == |r'|
                 && l'[t2.at] == Offset(t2.at, Root(t2.left)) && r'[t2.at] == Offset(t2.at, Root(t2.right)))
    ensures Linked(l', r', Plug(c, t2))
  {
    hide Plug, LinkedPath, PathNodes, Rehung;
    PlugLinked(l, r, c, t1);
    LinkedFrame(l, r, l', r', t1.left);
    LinkedFrame(l, r, l', r', t1.right);
    Rehang(l, r, l', r', c, t1, t2);
  }

  // ---- Steps of FindDelete

  function OrElse<T>(a: Option<T>, b: Option<T>): Option<T> {
    if a.Some? then a else b
  }

  /** What one look at a node says about the best fit below it. */
  lemma SearchStep(l: seq<int>, r: seq<int>, c: Path, t: Tree, units: nat, sz: seq<nat>)
    requires Linked(l, r, Plug(c, t)) && Distinct(Plug(c, t)) && t.Node? && Ordered(t, sz) && |sz| == |l|
    ensures t.at < |l| == |r| && l[t.at] == Offset(t.at, Root(t.left)) && r[t.at] == Offset(t.at, Root(t.right))
    ensures (l[t.at] == 0 <==> t.left.Leaf?) && (r[t.at] == 0 <==> t.right.Leaf?)
    ensures t.left.Node? ==> t.left.at < |l|
    ensures t.right.Node? ==> t.right.at < |l|
    ensures Plug(InLeft(c, t.at, t.right), t.left) == Plug(c, t) == Plug(InRight(c, t.at, t.left), t.right)
    ensures Ordered(t.left, sz) && Ordered(t.right, sz)
    ensures t.at in Nodes(t) && Nodes(t.right) <= Nodes(t) && Nodes(t.left) <= Nodes(t) && AtMost(Nodes(t.left), sz, sz[t.at])
    ensures Best(t, units, sz) ==
            if sz[t.at] == units then Some(t.at)
            else if sz[t.at] < units then Best(t.right, units, sz)
            else OrElse(Best(t.left, units, sz), Some(t.at))
    ensures Best(Leaf, units, sz) == None
  {
    AtNode(l, r, c, t);
  }

  lemma RemoveBelow(c: Path, t: Tree)
    requires Distinct(Plug(c, t)) && t.Node?
    ensures Plug(c, RemoveRoot(t)) == Remove(Plug(c, t), t.at)
  {
    PlugRemove(c, t, t.at);
  }

  lemma EmptyAlloc(p: H.Page, units: nat)
    requires H.Inv(p) && p.tree.Leaf? && 0 < units
    ensures H.Alloc(p, units) == (p, None)
  {
  }

  ghost predicate Marked(l: seq<int>, r: seq<int>, f: set<nat>) {
    forall a :: a in f ==> a < |l| && a < |r| && l[a] == MARK && r[a] == MARK
  }

  lemma MarkedKept(l: seq<int>, r: seq<int>, l': seq<int>, r': seq<int>, f: set<nat>, s: set<nat>)
    requires Marked(l, r, f) && LinksKept(s, l, r, l', r') && f !! s
    ensures Marked(l', r', f)
  {
  }

  lemma MarkedAdd(l: seq<int>, r: seq<int>, l': seq<int>, r': seq<int>, f: set<nat>, a: nat)
    requires Marked(l, r, f) && a < |l| && a < |r| && l' == l[a := MARK] && r' == r[a := MARK]
    ensures Marked(l', r', f + {a}) && LinksKept({a}, l, r, l', r')
  {
  }

  /** An allocation, as the steps that carry it out. */
  lemma AllocFacts(p: H.Page, units: nat)
    requires H.Inv(p) && 0 < units
    ensures H.Alloc(p, units).1 == Best(p.tree, units, p.sz) && H.Allocated(p) !! Nodes(p.tree)
    ensures H.Alloc(p, units).1.None? ==> H.Alloc(p, units).0 == p
    ensures H.Alloc(p, units).1.Some? ==>
              var (q, b) := (H.Alloc(p, units).0, H.Alloc(p, units).1.value);
              var t := Remove(p.tree, b);
              && H.Inv(q) && H.Allocated(q) == H.Allocated(p) + {b} && H.Allocated(q) !! Nodes(q.tree)
              && b < |p.sz| && units <= p.sz[b] && b + p.sz[b] <= |p.sz| && {b} !! Nodes(t)
              && (if p.sz[b] - units > H.MIN_UNITS
                  then b + units !in Nodes(t)
                       && q == H.Page(Split(p.sz, b, units), FreeTree.Insert(t, b + units, Split(p.sz, b, units)))
                  else q == H.Page(p.sz, t))
              && UnitsOf(q.sz, 0, Nodes(q.tree)) == UnitsOf(p.sz, 0, Nodes(p.tree)) - q.sz[b]
              && CountOf(p.sz, 0, Nodes(p.tree)) >= 1
              && CountOf(q.sz, 0, Nodes(q.tree))
                 == CountOf(p.sz, 0, Nodes(p.tree)) - 1 + (if p.sz[b] - units > H.MIN_UNITS then 1 else 0)
              && CountOf(q.sz, 0, H.Allocated(q)) == CountOf(p.sz, 0, H.Allocated(p)) + 1
  {
    hide FreeTree.Insert, Remove, Nodes, Ordered, Distinct, Tiles, Starts, UnitsOf, CountOf;
    H.AllocCorrect(p, units);
    if H.Alloc(p, units).1.Some? {
      var b := H.Alloc(p, units).1.value;
      H.AllocCounts(p, units);
      StartsRange(p.sz, 0);
      RemoveKeepsOrder(p.tree, b, p.sz);
      H.TakeKeepsInv(p, b, units);
    }
  }

  // ---- Steps of Defrag

  lemma {:induction false} LinearLength(t: Tree)
    ensures |Linear(t)| == TreeCount(t)
  {
    if t.Node? { LinearLength(t.left); LinearLength(t.right); }
  }

  lemma LinearCount(t: Tree, sz: seq<nat>)
    requires Tiles(sz, 0) && Distinct(t) && Nodes(t) <= Starts(sz, 0)
    ensures |Linear(t)| == CountOf(sz, 0, Nodes(t)) && FreeTree.NoRepeats(Linear(t))
  {
    LinearLength(t);
    TreeTotals(t, sz);
    LinearLists(t);
  }

  lemma {:induction false} CountZero(sz: seq<nat>, at: nat, f: set<nat>)
    requires Tiles(sz, at) && f <= Starts(sz, at)
    ensures CountOf(sz, at, f) == 0 <==> f == {}
    decreases |sz| - at
  {
    if at != |sz| {
      var n := at + sz[at];
      StartsRange(sz, n);
      UnitsSameOn(sz, n, f, f - {at});
      CountZero(sz, n, f - {at});
    }
  }

  lemma InsertNotEmpty(t: Tree, hh: nat, sz: seq<nat>)
    ensures FreeTree.Insert(t, hh, sz).Node?
  {
  }

  /** The sizes of the blocks in s are final. */
  ghost predicate SameSizes(s: seq<nat>, cur: seq<nat>, sz: seq<nat>) {
    forall a :: a in Elems(s) ==> SizeAt(cur, a) == SizeAt(sz, a)
  }

  lemma DefragStart(l: seq<int>, r: seq<int>, fs: seq<nat>, merged: seq<nat>, sz: seq<nat>, cur: seq<nat>, s: set<nat>)
    ensures SameSizes(merged[..0], cur, sz) && LinksKept(s, l, r, l, r)
    ensures fs[0..] == fs && merged[0..] == merged && merged[..0] == [] && Elems(merged[..0]) == {}
    ensures Linked(l, r, Leaf) && Distinct(Leaf) && H.InsertAll(Leaf, merged[..0], sz) == Leaf
  {
  }

  /** The next group of neighbours: merging the first two, or leaving the first as it is. */
  lemma HeadStep(cur: seq<nat>, hh: nat, rest: seq<nat>, sz: seq<nat>, m: seq<nat>)
    requires H.CoalesceReady(cur, [hh] + rest) && H.Coalesce(cur, [hh] + rest) == (sz, m)
    ensures hh < |cur| && 0 < cur[hh] && hh + cur[hh] <= |cur| && m != [] && m[0] == hh
    ensures rest != [] && hh + cur[hh] == rest[0] ==>
              && rest[0] < |cur| && rest[0] + cur[rest[0]] <= |cur|
              && H.CoalesceReady(cur[hh := cur[hh] + cur[rest[0]]], [hh] + rest[1..])
              && H.Coalesce(cur[hh := cur[hh] + cur[rest[0]]], [hh] + rest[1..]) == (sz, m)
    ensures !(rest != [] && hh + cur[hh] == rest[0]) ==>
              H.CoalesceReady(cur, rest) && H.Coalesce(cur, rest) == (sz, m[1..]) && SizeAt(sz, hh) == cur[hh]
  {
    hide Tiles, Starts, UnitsOf, CountOf, H.Covers;
    var fs := [hh] + rest;
    assert fs[1..] == rest && fs[0] in Elems(fs);
    H.CoalesceCorrect(cur, fs);
    StartsRange(cur, 0);
    if rest != [] && hh + cur[hh] == rest[0] {
      assert fs[1] in Elems(fs);
      assert fs[2..] == rest[1..];
      H.MergeFirstTwo(cur, fs);
    } else {
      H.RestReady(cur, fs);
      H.CoalesceCorrect(cur, rest);
      assert hh !in Elems(rest);
      if rest == [] { assert m == fs; } else { assert m == [hh] + H.Coalesce(cur, rest).1; }
    }
  }

  lemma {:induction false} InsertAllLast(t: Tree, fs: seq<nat>, hh: nat, sz: seq<nat>)
    ensures H.InsertAll(t, fs + [hh], sz) == FreeTree.Insert(H.InsertAll(t, fs, sz), hh, sz)
    ensures Nodes(H.InsertAll(t, fs, sz)) == Nodes(t) + Elems(fs)
    decreases |fs|
  {
    if fs == [] {
      assert fs + [hh] == [hh];
    } else {
      assert (fs + [hh])[1..] == fs[1..] + [hh];
      InsertNodes(t, fs[0], sz);
      InsertAllLast(FreeTree.Insert(t, fs[0], sz), fs[1..], hh, sz);
      assert Elems(fs) == {fs[0]} + Elems(fs[1..]) by { assert fs == [fs[0]] + fs[1..]; }
    }
  }

  /** Inserting the next merged block with the current sizes is inserting it with the final ones. */
  lemma InsertNext(merged: seq<nat>, done: nat, hh: nat, cur: seq<nat>, sz: seq<nat>)
    requires done < |merged| && merged[done] == hh && H.Ascending(merged)
    requires SameSizes(merged[..done], cur, sz) && SizeAt(cur, hh) == SizeAt(sz, hh)
    ensures var t := H.InsertAll(Leaf, merged[..done], sz);
            && hh !in Nodes(t)
            && FreeTree.Insert(t, hh, cur) == H.InsertAll(Leaf, merged[..done + 1], sz)
            && Nodes(H.InsertAll(Leaf, merged[..done + 1], sz)) <= Elems(merged)
    ensures SameSizes(merged[..done + 1], cur, sz) && merged[done..][1..] == merged[done + 1..]
  {
    hide FreeTree.Insert, H.InsertAll;
    var t := H.InsertAll(Leaf, merged[..done], sz);
    assert merged[..done + 1] == merged[..done] + [hh];
    InsertAllLast(Leaf, merged[..done], hh, sz);
    InsertAllLast(Leaf, merged[..done + 1], hh, sz);
    InsertFrame(t, hh, cur, sz);
  }

  lemma NotDone(merged: seq<nat>, done: nat, hh: nat, cur: seq<nat>, sz: seq<nat>, n: nat)
    requires done < |merged| && merged[done] == hh < |cur| && H.Ascending(merged) && SameSizes(merged[..done], cur, sz)
    ensures SameSizes(merged[..done], cur[hh := n], sz)
  {
  }

  lemma KeptTrans(l: seq<int>, r: seq<int>, l1: seq<int>, r1: seq<int>, l2: seq<int>, r2: seq<int>, s: set<nat>, s1: set<nat>)
    requires LinksKept(s, l, r, l1, r1) && LinksKept(s1, l1, r1, l2, r2) && s1 <= s
    ensures LinksKept(s, l, r, l2, r2)
  {
  }

  lemma FreeApart(p: H.Page)
    requires Tiles(p.sz, 0)
    ensures H.Allocated(p) !! Nodes(p.tree)
  {
  }

  lemma DefragEnd(p: H.Page, cur: seq<nat>, rest: seq<nat>, sz: seq<nat>, merged: seq<nat>, done: nat)
    requires done <= |merged| && rest == [] && H.Coalesce(cur, rest) == (sz, merged[done..])
    requires (sz, merged) == H.Coalesce(p.sz, H.Sorted(Linear(p.tree)))
    ensures cur == sz && done == |merged| && merged[..done] == merged
    ensures H.Defrag(p) == H.Page(cur, H.InsertAll(Leaf, merged[..done], sz))
  {
    hide H.Coalesce, H.Sorted, H.InsertAll;
    assert H.Coalesce(cur, []) == (cur, []) by { CoalesceNothing(cur); }
    assert merged[..done] == merged;
  }

  lemma CoalesceNothing(sz: seq<nat>)
    ensures H.Coalesce(sz, []) == (sz, [])
  {
  }
}
