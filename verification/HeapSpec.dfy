/** The heap operations on one page, as functions of its size fields and its free tree. */
module HeapSpec {
  import opened Options
  import opened FreeTree
  import opened PageLayout

  const UNIT_BYTES: nat := 4
  const MIN_UNITS: nat := 4
  const DEFRAG_FREE: nat := 16
  const DEFRAG_PERIOD: nat := 8

  datatype Page = Page(sz: seq<nat>, tree: Tree)

  /** The blocks tile the page, and the tree holds some of them, each once and in order. */
  ghost predicate Inv(p: Page) {
    && Tiles(p.sz, 0)
    && Nodes(p.tree) <= Starts(p.sz, 0)
    && Distinct(p.tree)
    && Ordered(p.tree, p.sz)
  }

  function Allocated(p: Page): set<nat>
    requires Tiles(p.sz, 0)
  {
    Starts(p.sz, 0) - Nodes(p.tree)
  }

  predicate InBlock(sz: seq<nat>, a: nat, u: nat) {
    a <= u < a + SizeAt(sz, a)
  }

  /** Unit u belongs to one of the blocks of f. */
  ghost predicate Covers(sz: seq<nat>, f: set<nat>, u: nat) {
    exists a :: a in f && InBlock(sz, a, u)
  }

  // ---- Allocation

  /** mp_heap_alloc: bytes rounded up, one unit of header, at least MPHEAPMINUNITS. The least number of units of 4
      bytes that hold the header and the bytes, and at least 4 of them. */
  function Units(bytes: nat): (u: nat)
    ensures u >= 4 && bytes + 4 <= 4 * u && (u == 4 || 4 * (u - 1) < bytes + 4)
  {
    var u := bytes / UNIT_BYTES + (if bytes % UNIT_BYTES != 0 then 1 else 0) + 1;
    if u < MIN_UNITS then MIN_UNITS else u
  }

  function Alloc(p: Page, units: nat): (Page, Option<nat>)
    requires Inv(p) && 0 < units
  {
    match Best(p.tree, units, p.sz)
    case None => (p, None)
    case Some(b) =>
      BestIsBestFit(p.tree, units, p.sz); StartsRange(p.sz, 0);
      (Take(p, b, units), Some(b))
  }

  /** Block a cannot hold a header of 4 bytes and the bytes, or has less than 4 units. */
  predicate TooSmall(sz: seq<nat>, a: nat, bytes: nat) {
    SizeAt(sz, a) < 4 || (SizeAt(sz, a) - 1) * 4 < bytes
  }

  /** No smaller number of units does. */
  lemma UnitsLeast(bytes: nat, u: nat)
    ensures u >= 4 && bytes + 4 <= 4 * u <==> u >= Units(bytes)
  {
  }

  /** A block of n units is large enough exactly if its bytes behind the header are. */
  lemma LargeEnough(bytes: nat, n: nat)
    ensures n >= Units(bytes) <==> n >= 4 && bytes <= (n - 1) * 4
  {
    UnitsLeast(bytes, n);
  }

  predicate Cuts(p: Page, b: nat, units: nat) {
    SizeAt(p.sz, b) > units + MIN_UNITS
  }

  /** Takes block b out of the tree, and cuts it when more than MPHEAPMINUNITS would be left over. */
  function Take(p: Page, b: nat, units: nat): Page
    requires b < |p.sz| && b + p.sz[b] <= |p.sz| && 0 < units
  {
    var t := Remove(p.tree, b);
    if Cuts(p, b, units) then
      var sz := Split(p.sz, b, units);
      Page(sz, Insert(t, b + units, sz))
    else Page(p.sz, t)
  }

  /** b is a free block of at least units, and none of those is smaller. */
  ghost predicate BestFit(p: Page, units: nat, b: nat) {
    && b in Nodes(p.tree) && SizeAt(p.sz, b) >= units
    && forall a :: a in Nodes(p.tree) && SizeAt(p.sz, a) >= units ==> SizeAt(p.sz, b) <= SizeAt(p.sz, a)
  }

  lemma TakeKeepsInv(p: Page, b: nat, units: nat)
    requires Inv(p) && 0 < units && b in Nodes(p.tree) && b < |p.sz| && b + p.sz[b] <= |p.sz|
    ensures var q := Take(p, b, units);
            && Inv(q) && |q.sz| == |p.sz|
            && Starts(q.sz, 0) == Starts(p.sz, 0) + (if Cuts(p, b, units) then {b + units} else {})
            && Nodes(q.tree) == Nodes(p.tree) - {b} + (if Cuts(p, b, units) then {b + units} else {})
            && (Cuts(p, b, units) ==> b + units !in Starts(p.sz, 0))
  {
    hide Insert, Remove, Tiles, Starts, Nodes, Ordered, Distinct, UnitsOf, CountOf;
    var t := Remove(p.tree, b);
    RemoveKeepsOrder(p.tree, b, p.sz);
    StartsRange(p.sz, 0);
    if Cuts(p, b, units) {
      var sz, c := Split(p.sz, b, units), b + units;
      SplitWalk(p.sz, 0, b, units, {});
      OrderedFrame(t, p.sz, sz);
      InsertNodes(t, c, sz);
      InsertKeepsOrder(t, c, sz);
    }
  }

  /** Allocation fails exactly when every free block is too small, and then changes nothing. Otherwise
      it moves one best-fitting block from the free to the allocated ones, cut to the request when more
      than MPHEAPMINUNITS would be left, and no other block changes place, size or state. */
  lemma AllocCorrect(p: Page, units: nat)
    requires Inv(p) && 0 < units
    ensures var (q, r) := Alloc(p, units);
            && Inv(q) && |q.sz| == |p.sz|
            && (r.None? <==> forall a :: a in Nodes(p.tree) ==> SizeAt(p.sz, a) < units)
            && (r.None? ==> q == p)
            && (r.Some? ==>
                var b := r.value;
                && BestFit(p, units, b)
                && Allocated(q) == Allocated(p) + {b}
                && SizeAt(q.sz, b) == (if SizeAt(p.sz, b) > units + 4 then units else SizeAt(p.sz, b))
                && Nodes(q.tree) == Nodes(p.tree) - {b} + (if SizeAt(p.sz, b) > units + 4 then {b + units} else {})
                && (SizeAt(p.sz, b) > units + 4 ==> SizeAt(q.sz, b + units) == SizeAt(p.sz, b) - units)
                && (forall a :: a in Starts(p.sz, 0) && a != b ==> SizeAt(q.sz, a) == SizeAt(p.sz, a)))
  {
    hide Insert, Remove, Best, Tiles, Starts, Nodes, Ordered, Distinct;
    BestIsBestFit(p.tree, units, p.sz);
    StartsRange(p.sz, 0);
    assert forall a :: a in Nodes(p.tree) ==> SizeAt(p.sz, a) == p.sz[a];
    var best := Best(p.tree, units, p.sz);
    if best.Some? {
      TakeKeepsInv(p, best.value, units);
    }
  }

  /** Taking b out of the free blocks, before any cut. */
  lemma {:induction false} TakeCounts(p: Page, b: nat)
    requires Inv(p) && b in Nodes(p.tree)
    ensures var rest, used := Nodes(p.tree) - {b}, Allocated(p);
            && UnitsOf(p.sz, 0, Nodes(p.tree)) == UnitsOf(p.sz, 0, rest) + SizeAt(p.sz, b)
            && CountOf(p.sz, 0, Nodes(p.tree)) == CountOf(p.sz, 0, rest) + 1
            && CountOf(p.sz, 0, used + {b}) == CountOf(p.sz, 0, used) + 1
  {
    hide UnitsOf, CountOf, Starts, Tiles, Ordered, Distinct, Nodes;
    var rest := Nodes(p.tree) - {b};
    UnitsAdd(p.sz, 0, rest, b);
    assert rest + {b} == Nodes(p.tree);
    UnitsAdd(p.sz, 0, Allocated(p), b);
  }

  /** Cutting b, which stays allocated, while its tail becomes free. */
  lemma {:induction false} CutCounts(p: Page, b: nat, units: nat)
    requires Inv(p) && 0 < units && b in Nodes(p.tree) && b < |p.sz| && b + p.sz[b] <= |p.sz| && Cuts(p, b, units)
    requires b + units !in Starts(p.sz, 0)
    ensures var rest, used, sz := Nodes(p.tree) - {b}, Allocated(p), Split(p.sz, b, units);
            && Tiles(sz, 0)
            && UnitsOf(sz, 0, rest + {b + units}) == UnitsOf(p.sz, 0, rest) + SizeAt(p.sz, b) - units
            && CountOf(sz, 0, rest + {b + units}) == CountOf(p.sz, 0, rest) + 1
            && CountOf(sz, 0, used + {b}) == CountOf(p.sz, 0, used) + 1
  {
    hide UnitsOf, CountOf, Starts, Tiles, Ordered, Distinct, Nodes;
    var rest, sz := Nodes(p.tree) - {b}, Split(p.sz, b, units);
    StartsRange(p.sz, 0);
    SplitWalk(p.sz, 0, b, units, rest);
    UnitsAdd(sz, 0, rest, b + units);
    SplitWalk(p.sz, 0, b, units, Allocated(p));
    UnitsAdd(sz, 0, Allocated(p), b);
  }

  /** In bytes: an allocation fails exactly if every free block is too small for the header and the bytes. */
  lemma AllocFailsExactly(p: Page, bytes: nat)
    requires Inv(p)
    ensures Alloc(p, Units(bytes)).1.None? <==> forall a :: a in Nodes(p.tree) ==> TooSmall(p.sz, a, bytes)
    ensures Alloc(p, Units(bytes)).1.Some? ==> !TooSmall(p.sz, Alloc(p, Units(bytes)).1.value, bytes)
  {
    hide Alloc, Units, Inv;
    AllocCorrect(p, Units(bytes));
    forall a ensures TooSmall(p.sz, a, bytes) <==> SizeAt(p.sz, a) < Units(bytes) { LargeEnough(bytes, SizeAt(p.sz, a)); }
  }

  /** What an allocation does to the page's counters. */
  lemma AllocCounts(p: Page, units: nat)
    requires Inv(p) && 0 < units && Alloc(p, units).1.Some?
    ensures var (q, r) := Alloc(p, units);
            && Inv(q)
            && UnitsOf(q.sz, 0, Nodes(q.tree)) == UnitsOf(p.sz, 0, Nodes(p.tree)) - SizeAt(q.sz, r.value)
            && CountOf(p.sz, 0, Nodes(p.tree)) >= 1
            && CountOf(q.sz, 0, Nodes(q.tree))
               == CountOf(p.sz, 0, Nodes(p.tree)) - 1 + (if Cuts(p, r.value, units) then 1 else 0)
            && CountOf(q.sz, 0, Allocated(q)) == CountOf(p.sz, 0, Allocated(p)) + 1
  {
    hide Insert, Remove, UnitsOf, CountOf, Starts, Tiles, Ordered, Distinct, Nodes;
    AllocCorrect(p, units);
    var (q, r) := Alloc(p, units);
    var b := r.value;
    StartsRange(p.sz, 0);
    TakeKeepsInv(p, b, units);
    TakeCounts(p, b);
    var rest := Nodes(p.tree) - {b};
    if Cuts(p, b, units) {
      CutCounts(p, b, units);
      assert Nodes(q.tree) == rest + {b + units};
    } else {
      assert Nodes(q.tree) == rest;
    }
  }

  // ---- Freeing

  /** mp_heap_free, before any defragmentation. */
  function Free(p: Page, a: nat): Page {
    Page(p.sz, Insert(p.tree, a, p.sz))
  }

  lemma FreeCorrect(p: Page, a: nat)
    requires Inv(p) && a in Allocated(p)
    ensures var q := Free(p, a);
            && Inv(q) && Nodes(q.tree) == Nodes(p.tree) + {a} && Allocated(q) == Allocated(p) - {a}
            && UnitsOf(q.sz, 0, Nodes(q.tree)) == UnitsOf(p.sz, 0, Nodes(p.tree)) + SizeAt(p.sz, a)
            && CountOf(q.sz, 0, Nodes(q.tree)) == CountOf(p.sz, 0, Nodes(p.tree)) + 1
            && CountOf(q.sz, 0, Allocated(q)) == CountOf(p.sz, 0, Allocated(p)) - 1
  {
    hide Insert;
    StartsRange(p.sz, 0);
    InsertNodes(p.tree, a, p.sz);
    InsertKeepsOrder(p.tree, a, p.sz);
    UnitsAdd(p.sz, 0, Nodes(p.tree), a);
    UnitsAdd(p.sz, 0, Allocated(p) - {a}, a);
    assert Allocated(p) - {a} + {a} == Allocated(p);
  }

  // ---- Defragmentation

  predicate Ascending(s: seq<nat>) {
    forall i, j :: 0 <= i < j < |s| ==> s[i] < s[j]
  }

  /** qsort on the linearised tree: by address. */
  function Sorted(s: seq<nat>): seq<nat> {
    if s == [] then [] else PutInOrder(s[0], Sorted(s[1..]))
  }

  function PutInOrder(a: nat, s: seq<nat>): seq<nat> {
    if s == [] || a < s[0] then [a] + s else [s[0]] + PutInOrder(a, s[1..])
  }

  lemma {:induction false} PutInOrderCorrect(a: nat, s: seq<nat>)
    requires Ascending(s) && a !in Elems(s)
    ensures Ascending(PutInOrder(a, s)) && Elems(PutInOrder(a, s)) == Elems(s) + {a} && |PutInOrder(a, s)| == |s| + 1
  {
    if s == [] || a < s[0] {
      assert Elems([a] + s) == Elems(s) + {a};
    } else {
      var r := s[1..];
      assert s == [s[0]] + r;
      assert s[0] in Elems(s) && Elems(s) == Elems(r) + {s[0]};
      PutInOrderCorrect(a, r);
      Prepend(s[0], PutInOrder(a, r), Elems(r) + {a});
    }
  }

  /** There is one way to list a set in ascending order. */
  lemma {:induction false} AscendingUnique(s: seq<nat>, t: seq<nat>)
    requires Ascending(s) && Ascending(t) && Elems(s) == Elems(t)
    ensures s == t
  {
    var m, n := |s| - 1, |t| - 1;
    if s != [] {
      assert s[m] in Elems(t);
    }
    if t != [] {
      assert t[n] in Elems(s);
    }
    if s != [] {
      assert Elems(s[..m]) == Elems(s) - {s[m]};
      assert Elems(t[..n]) == Elems(t) - {t[n]};
      AscendingUnique(s[..m], t[..n]);
      assert s == s[..m] + [s[m]] && t == t[..n] + [t[n]];
    }
  }

  lemma Prepend(a: nat, q: seq<nat>, f: set<nat>)
    requires Ascending(q) && Elems(q) == f && forall x :: x in f ==> a < x
    ensures Ascending([a] + q) && Elems([a] + q) == f + {a}
  {
    forall k | 0 <= k < |q| ensures a < q[k] { assert q[k] in Elems(q); }
  }

  lemma {:induction false} SortedCorrect(s: seq<nat>)
    requires NoRepeats(s)
    ensures Ascending(Sorted(s)) && Elems(Sorted(s)) == Elems(s) && |Sorted(s)| == |s|
  {
    if s != [] {
      var r := s[1..];
      SortedCorrect(r);
      assert s[0] !in Elems(r);
      PutInOrderCorrect(s[0], Sorted(r));
      assert s == [s[0]] + r;
    }
  }

  /** The merging loop of mp_heap_page_defrag over the free blocks in address order. */
  function Coalesce(sz: seq<nat>, fs: seq<nat>): (seq<nat>, seq<nat>)
    decreases |fs|
  {
    if |fs| < 2 then (sz, fs)
    else if fs[0] < |sz| && fs[0] + sz[fs[0]] == fs[1] then
      Coalesce(sz[fs[0] := sz[fs[0]] + SizeAt(sz, fs[1])], [fs[0]] + fs[2..])
    else
      var (sz', rest) := Coalesce(sz, fs[1..]);
      (sz', [fs[0]] + rest)
  }

  ghost predicate CoalesceReady(sz: seq<nat>, fs: seq<nat>) {
    Tiles(sz, 0) && Ascending(fs) && Elems(fs) <= Starts(sz, 0)
  }

  /** Blocks fs' of sz' are what is left after merging some neighbours among the blocks fs of sz. */
  ghost predicate Merged(sz: seq<nat>, fs: seq<nat>, sz': seq<nat>, fs': seq<nat>) {
    && |sz'| == |sz| && Tiles(sz, 0) && Tiles(sz', 0)
    && Ascending(fs') && Elems(fs') <= Elems(fs)
    && (fs != [] ==> fs' != [] && fs'[0] == fs[0])
    && Starts(sz', 0) == Starts(sz, 0) - (Elems(fs) - Elems(fs'))
    && (forall a :: a !in Elems(fs) ==> SizeAt(sz', a) == SizeAt(sz, a))
    && UnitsOf(sz', 0, Elems(fs')) == UnitsOf(sz, 0, Elems(fs))
    && (forall g: set<nat> :: g !! Elems(fs) ==> CountOf(sz', 0, g) == CountOf(sz, 0, g))
    && (forall u: nat :: Covers(sz', Elems(fs'), u) <==> Covers(sz, Elems(fs), u))
  }

  /** No block of fs starts where another of fs ends. */
  ghost predicate NoNeighbours(sz: seq<nat>, fs: seq<nat>) {
    forall a, b :: a in Elems(fs) && b in Elems(fs) ==> a + SizeAt(sz, a) != b
  }

  lemma MergeFirstTwo(sz: seq<nat>, fs: seq<nat>)
    requires CoalesceReady(sz, fs) && |fs| >= 2 && fs[0] < |sz| && fs[0] + sz[fs[0]] == fs[1] < |sz|
    ensures CoalesceReady(Merge(sz, fs[0]), [fs[0]] + fs[2..])
    ensures Merged(sz, fs, Merge(sz, fs[0]), [fs[0]] + fs[2..])
  {
    hide UnitsOf, CountOf, Tiles, Starts;
    var a, b, sz1, fs1 := fs[0], fs[1], Merge(sz, fs[0]), [fs[0]] + fs[2..];
    StartsRange(sz, 0);
    assert a in Elems(fs) && b in Elems(fs);
    MergeWalk(sz, 0, a, Elems(fs));
    assert Elems(fs1) == Elems(fs) - {b} by {
      forall x | x in Elems(fs) && x != b ensures x in Elems(fs1) {
        var k :| 0 <= k < |fs| && fs[k] == x;
        if k >= 2 { assert fs1[k - 1] == x; } else { assert fs1[0] == fs[0]; }
      }
    }
    forall u: nat ensures Covers(sz1, Elems(fs1), u) <==> Covers(sz, Elems(fs), u) {
      MergeCovers(sz, Elems(fs), a, u);
    }
  }

  lemma MergeCovers(sz: seq<nat>, f: set<nat>, a: nat, u: nat)
    requires a < |sz| && a + sz[a] < |sz| && 0 < sz[a] && a in f && a + sz[a] in f
    ensures Covers(Merge(sz, a), f - {a + sz[a]}, u) <==> Covers(sz, f, u)
  {
    var sz1, b := Merge(sz, a), a + sz[a];
    assert InBlock(sz1, a, u) <==> InBlock(sz, a, u) || InBlock(sz, b, u);
    if x :| x in f && InBlock(sz, x, u) {
      assert InBlock(sz1, if x == b then a else x, u);
    }
    if x :| x in f - {b} && InBlock(sz1, x, u) {
      assert x != a ==> InBlock(sz, x, u);
    }
  }

  lemma MergedTrans(sz: seq<nat>, fs: seq<nat>, sz1: seq<nat>, fs1: seq<nat>, sz2: seq<nat>, fs2: seq<nat>)
    requires Merged(sz, fs, sz1, fs1) && Merged(sz1, fs1, sz2, fs2)
    ensures Merged(sz, fs, sz2, fs2)
  {
    hide UnitsOf, CountOf, Tiles, Starts, Covers;
  }

  lemma KeepFirst(sz: seq<nat>, fs: seq<nat>, sz': seq<nat>, rest: seq<nat>)
    requires CoalesceReady(sz, fs) && fs != [] && Merged(sz, fs[1..], sz', rest)
    ensures Merged(sz, fs, sz', [fs[0]] + rest)
  {
    hide UnitsOf, CountOf, Tiles, Starts;
    var a, fs' := fs[0], [fs[0]] + rest;
    assert Elems(fs) == Elems(fs[1..]) + {a} by { assert fs == [a] + fs[1..]; }
    assert Elems(fs') == Elems(rest) + {a};
    assert a !in Elems(fs[1..]);
    forall k | 0 <= k < |rest| ensures a < rest[k] { assert rest[k] in Elems(rest); }
    UnitsAdd(sz, 0, Elems(fs[1..]), a);
    UnitsAdd(sz', 0, Elems(rest), a);
    forall u: nat ensures Covers(sz', Elems(fs'), u) <==> Covers(sz, Elems(fs), u) {
      CoversAdd(sz, Elems(fs[1..]), a, u);
      CoversAdd(sz', Elems(rest), a, u);
    }
  }

  lemma CoversAdd(sz: seq<nat>, f: set<nat>, a: nat, u: nat)
    ensures Covers(sz, f + {a}, u) <==> Covers(sz, f, u) || InBlock(sz, a, u)
  {
    if InBlock(sz, a, u) { assert a in f + {a}; }
    if x :| x in f && InBlock(sz, x, u) { assert x in f + {a}; }
  }

  lemma FirstHasNoNeighbour(sz: seq<nat>, fs: seq<nat>, sz': seq<nat>, rest: seq<nat>)
    requires CoalesceReady(sz, fs) && |fs| >= 2 && Merged(sz, fs[1..], sz', rest) && NoNeighbours(sz', rest)
    requires fs[0] + SizeAt(sz, fs[0]) != fs[1]
    ensures NoNeighbours(sz', [fs[0]] + rest)
  {
    hide UnitsOf, CountOf, Tiles, Starts, Covers;
    var a, fs' := fs[0], [fs[0]] + rest;
    assert a in Elems(fs) && fs[1] in Elems(fs) && a !in Elems(fs[1..]);
    BlocksDisjoint(sz, 0, a, fs[1]);
    StartsRange(sz', 0);
    forall x, y | x in Elems(fs') && y in Elems(fs')
      ensures x + SizeAt(sz', x) != y
    {
      assert forall z :: z in Elems(rest) ==> z in Elems(fs[1..]) && z >= fs[1];
      assert x == a || x in Elems(rest);
      assert y == a || y in Elems(rest);
    }
  }

  lemma FewBlocks(sz: seq<nat>, fs: seq<nat>)
    requires CoalesceReady(sz, fs) && |fs| < 2
    ensures Merged(sz, fs, sz, fs) && NoNeighbours(sz, fs)
  {
    hide UnitsOf, CountOf, Covers;
    StartsRange(sz, 0);
    assert forall a :: a in Elems(fs) ==> SizeAt(sz, a) > 0;
  }

  lemma RestReady(sz: seq<nat>, fs: seq<nat>)
    requires CoalesceReady(sz, fs) && fs != []
    ensures CoalesceReady(sz, fs[1..]) && fs[0] in Elems(fs) && (|fs| >= 2 ==> fs[1] in Elems(fs))
  {
    hide Tiles, Starts;
    assert Elems(fs[1..]) <= Elems(fs);
  }

  lemma {:induction false} CoalesceCorrect(sz: seq<nat>, fs: seq<nat>)
    requires CoalesceReady(sz, fs)
    ensures var (sz', fs') := Coalesce(sz, fs); Merged(sz, fs, sz', fs') && NoNeighbours(sz', fs')
    decreases |fs|
  {
    hide UnitsOf, CountOf, Tiles, Starts, Covers, Merged, NoNeighbours;
    StartsRange(sz, 0);
    if |fs| < 2 {
      FewBlocks(sz, fs);
    } else {
      RestReady(sz, fs);
      if fs[0] + sz[fs[0]] == fs[1] {
        var sz1, fs1 := Merge(sz, fs[0]), [fs[0]] + fs[2..];
        MergeFirstTwo(sz, fs);
        CoalesceCorrect(sz1, fs1);
        var (sz', fs') := Coalesce(sz1, fs1);
        MergedTrans(sz, fs, sz1, fs1, sz', fs');
      } else {
        CoalesceCorrect(sz, fs[1..]);
        var (sz', rest) := Coalesce(sz, fs[1..]);
        KeepFirst(sz, fs, sz', rest);
        FirstHasNoNeighbour(sz, fs, sz', rest);
      }
    }
  }

  function InsertAll(t: Tree, fs: seq<nat>, sz: seq<nat>): Tree
    decreases |fs|
  {
    if fs == [] then t else InsertAll(Insert(t, fs[0], sz), fs[1..], sz)
  }

  lemma {:induction false} InsertAllKeepsOrder(t: Tree, fs: seq<nat>, sz: seq<nat>)
    requires Ordered(t, sz) && Distinct(t) && Ascending(fs) && Within(Elems(fs), |sz|) && Nodes(t) !! Elems(fs)
    ensures Ordered(InsertAll(t, fs, sz), sz) && Distinct(InsertAll(t, fs, sz))
    ensures Nodes(InsertAll(t, fs, sz)) == Nodes(t) + Elems(fs)
    decreases |fs|
  {
    if fs != [] {
      assert fs[0] in Elems(fs);
      assert Elems(fs) == Elems(fs[1..]) + {fs[0]} by { assert fs == [fs[0]] + fs[1..]; }
      InsertNodes(t, fs[0], sz);
      InsertKeepsOrder(t, fs[0], sz);
      InsertAllKeepsOrder(Insert(t, fs[0], sz), fs[1..], sz);
    }
  }

  /** mp_heap_page_defrag: linearise, sort by address, merge neighbours, build a new tree. */
  function Defrag(p: Page): Page {
    var (sz, fs) := Coalesce(p.sz, Sorted(Linear(p.tree)));
    Page(sz, InsertAll(Leaf, fs, sz))
  }

  lemma {:induction false} AscendingCount(sz: seq<nat>, fs: seq<nat>)
    requires Tiles(sz, 0) && Ascending(fs) && Elems(fs) <= Starts(sz, 0)
    ensures CountOf(sz, 0, Elems(fs)) == |fs|
  {
    if fs == [] {
      UnitsEmpty(sz, 0);
      assert Elems(fs) == {};
    } else {
      assert fs[0] in Elems(fs) && fs[0] !in Elems(fs[1..]);
      assert Elems(fs) == Elems(fs[1..]) + {fs[0]} by { assert fs == [fs[0]] + fs[1..]; }
      AscendingCount(sz, fs[1..]);
      UnitsAdd(sz, 0, Elems(fs[1..]), fs[0]);
    }
  }

  /** The free blocks in address order, before and after merging. */
  lemma DefragParts(p: Page) returns (fs0: seq<nat>, sz: seq<nat>, fs: seq<nat>)
    requires Inv(p)
    ensures fs0 == Sorted(Linear(p.tree)) && Elems(fs0) == Nodes(p.tree) && |fs0| == |Linear(p.tree)|
    ensures Ascending(fs0) && Elems(fs0) == Elems(Linear(p.tree))
    ensures (sz, fs) == Coalesce(p.sz, fs0) && Defrag(p).sz == sz
    ensures CoalesceReady(p.sz, fs0) && Merged(p.sz, fs0, sz, fs) && NoNeighbours(sz, fs)
    ensures Ascending(fs) && Elems(fs) <= Nodes(p.tree)
    ensures Nodes(Defrag(p).tree) == Elems(fs) && Distinct(Defrag(p).tree) && Ordered(Defrag(p).tree, sz)
  {
    hide UnitsOf, CountOf, Tiles, Covers, Coalesce, Sorted, Linear;
    LinearLists(p.tree);
    SortedCorrect(Linear(p.tree));
    fs0 := Sorted(Linear(p.tree));
    CoalesceCorrect(p.sz, fs0);
    sz, fs := Coalesce(p.sz, fs0).0, Coalesce(p.sz, fs0).1;
    StartsRange(sz, 0);
    InsertAllKeepsOrder(Leaf, fs, sz);
  }

  /** Defragmentation keeps the set of free units and leaves every allocated block as it is; afterwards
      no free block ends where another begins, so there is one node per maximal free run. */
  lemma DefragCorrect(p: Page)
    requires Inv(p)
    ensures var q := Defrag(p);
            && Inv(q) && |q.sz| == |p.sz|
            && Allocated(q) == Allocated(p)
            && (forall a :: a in Allocated(p) ==> SizeAt(q.sz, a) == SizeAt(p.sz, a))
            && (forall u: nat :: Covers(q.sz, Nodes(q.tree), u) <==> Covers(p.sz, Nodes(p.tree), u))
            && (forall a, b :: a in Nodes(q.tree) && b in Nodes(q.tree) ==> a + SizeAt(q.sz, a) != b)
            && Nodes(q.tree) <= Nodes(p.tree)
  {
    hide UnitsOf, CountOf, Tiles, Starts, Covers, Defrag, Elems, Nodes, Ordered, Distinct;
    var fs0, sz, fs := DefragParts(p);
  }

  /** The counters afterwards: the same free units, one free block per node, the same allocated ones. */
  lemma DefragCounts(p: Page)
    requires Inv(p)
    ensures var q := Defrag(p);
            && Inv(q)
            && UnitsOf(q.sz, 0, Nodes(q.tree)) == UnitsOf(p.sz, 0, Nodes(p.tree))
            && CountOf(q.sz, 0, Nodes(q.tree)) == |Coalesce(p.sz, Sorted(Linear(p.tree))).1|
            && UnitsOf(q.sz, 0, Allocated(q)) == UnitsOf(p.sz, 0, Allocated(p))
            && CountOf(q.sz, 0, Allocated(q)) == CountOf(p.sz, 0, Allocated(p))
  {
    hide UnitsOf, CountOf, Tiles, Starts, Covers, Defrag, Coalesce, Elems, Nodes, Ordered, Distinct;
    DefragCorrect(p);
    var fs0, sz, fs := DefragParts(p);
    AscendingCount(sz, fs);
    UnitsConserved(p.sz, 0, Nodes(p.tree));
    UnitsConserved(sz, 0, Elems(fs));
  }

  // ---- Whole runs

  datatype Op = DoAlloc(bytes: nat) | DoFree(at: nat) | DoDefrag

  /** A free needs a block that is allocated; a free may be followed by a defragmentation. */
  ghost predicate Acts(p: Page, op: Op, q: Page)
    requires Inv(p)
  {
    match op
    case DoAlloc(bytes) => q == Alloc(p, Units(bytes)).0
    case DoFree(a) => a in Allocated(p) && q == Free(p, a)
    case DoDefrag => q == Defrag(p)
  }

  ghost predicate Run(pages: seq<Page>, ops: seq<Op>, total: nat) {
    && |pages| == |ops| + 1 && 0 < total
    && Tiles(pages[0].sz, 0) && |pages[0].sz| == total && Starts(pages[0].sz, 0) == {0} && pages[0].tree == Node(0, Leaf, Leaf)
    && forall k :: 0 <= k < |ops| ==> Inv(pages[k]) ==> Acts(pages[k], ops[k], pages[k + 1])
  }

  /** After any sequence of operations the blocks tile the page, and free and allocated units add up to it. */
  lemma {:induction false} RunKeepsInv(pages: seq<Page>, ops: seq<Op>, total: nat, k: nat)
    requires Run(pages, ops, total) && k <= |ops|
    ensures Inv(pages[k]) && |pages[k].sz| == total
    ensures UnitsOf(pages[k].sz, 0, Nodes(pages[k].tree)) + UnitsOf(pages[k].sz, 0, Allocated(pages[k])) == total
  {
    hide Alloc, Free, Defrag, Starts, UnitsOf, Covers;
    if k == 0 {
      assert Nodes(pages[0].tree) == {0};
      assert Distinct(pages[0].tree) && Ordered(pages[0].tree, pages[0].sz) by {
        assert Distinct(Leaf) && Ordered(Leaf, pages[0].sz);
      }
    } else {
      RunKeepsInv(pages, ops, total, k - 1);
      var p := pages[k - 1];
      assert Acts(p, ops[k - 1], pages[k]);
      match ops[k - 1]
      case DoAlloc(bytes) => AllocCorrect(p, Units(bytes));
      case DoFree(a) => FreeCorrect(p, a); FreeSize(p, a);
      case DoDefrag => DefragCorrect(p);
    }
    UnitsConserved(pages[k].sz, 0, Nodes(pages[k].tree));
  }

  lemma FreeSize(p: Page, a: nat)
    ensures Free(p, a).sz == p.sz
  {
  }

  /** An allocated block stays where it is, at its size, until it is itself freed. */
  lemma LiveBlockIsStable(pages: seq<Page>, ops: seq<Op>, total: nat, k: nat, a: nat)
    requires Run(pages, ops, total) && k < |ops| && Inv(pages[k])
    requires a in Allocated(pages[k]) && ops[k] != DoFree(a)
    ensures Inv(pages[k + 1]) && a in Allocated(pages[k + 1]) && SizeAt(pages[k + 1].sz, a) == SizeAt(pages[k].sz, a)
  {
    hide Alloc, Free, Defrag, Starts, UnitsOf, CountOf, Nodes, Covers, Tiles, Ordered, Distinct;
    var p := pages[k];
    assert Acts(p, ops[k], pages[k + 1]);
    match ops[k]
    case DoAlloc(bytes) => AllocCorrect(p, Units(bytes));
    case DoFree(b) => FreeCorrect(p, b); FreeSize(p, b);
    case DoDefrag => DefragCorrect(p);
  }

  /** No unit belongs to two blocks, allocated or free. */
  lemma BlocksNeverOverlap(p: Page, a: nat, b: nat, u: nat)
    requires Inv(p) && a in Starts(p.sz, 0) && b in Starts(p.sz, 0) && InBlock(p.sz, a, u) && InBlock(p.sz, b, u)
    ensures a == b
  {
    StartsRange(p.sz, 0);
    if a < b { BlocksDisjoint(p.sz, 0, a, b); }
    if b < a { BlocksDisjoint(p.sz, 0, b, a); }
  }
}
