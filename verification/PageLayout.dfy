/** The blocks of a heap page, found by walking the size fields from unit 0. */
module PageLayout {
  import opened FreeTree

  /** From at, the size fields lead from header to header and land exactly on the end of the page. */
  predicate Tiles(sz: seq<nat>, at: nat)
    decreases |sz| - at
  {
    at == |sz| || (at < |sz| && sz[at] > 0 && Tiles(sz, at + sz[at]))
  }

  /** The headers met on that walk. */
  function Starts(sz: seq<nat>, at: nat): set<nat>
    requires Tiles(sz, at)
    decreases |sz| - at
  {
    if at == |sz| then {} else {at} + Starts(sz, at + sz[at])
  }

  /** Units covered by blocks of f, and their number. */
  function UnitsOf(sz: seq<nat>, at: nat, f: set<nat>): nat
    requires Tiles(sz, at)
    decreases |sz| - at
  {
    if at == |sz| then 0 else (if at in f then sz[at] else 0) + UnitsOf(sz, at + sz[at], f)
  }

  function CountOf(sz: seq<nat>, at: nat, f: set<nat>): nat
    requires Tiles(sz, at)
    decreases |sz| - at
  {
    if at == |sz| then 0 else (if at in f then 1 else 0) + CountOf(sz, at + sz[at], f)
  }

  lemma {:induction false} StartsRange(sz: seq<nat>, at: nat)
    requires Tiles(sz, at)
    ensures forall a :: a in Starts(sz, at) ==> at <= a < |sz| && 0 < sz[a] && a + sz[a] <= |sz|
    decreases |sz| - at
  {
    if at != |sz| { StartsRange(sz, at + sz[at]); TilesBound(sz, at + sz[at]); }
  }

  lemma TilesBound(sz: seq<nat>, at: nat)
    requires Tiles(sz, at)
    ensures at <= |sz|
  {
  }

  /** Blocks do not overlap. */
  lemma {:induction false} BlocksDisjoint(sz: seq<nat>, at: nat, a: nat, b: nat)
    requires Tiles(sz, at) && a in Starts(sz, at) && b in Starts(sz, at) && a < b
    ensures a < |sz| && a + sz[a] <= b
    decreases |sz| - at
  {
    StartsRange(sz, at + sz[at]);
    if a != at { BlocksDisjoint(sz, at + sz[at], a, b); }
  }

  /** Every unit of the page is in some block. */
  lemma {:induction false} BlocksCover(sz: seq<nat>, at: nat, u: nat) returns (a: nat)
    requires Tiles(sz, at) && at <= u < |sz|
    ensures a in Starts(sz, at) && a <= u < a + sz[a]
    decreases |sz| - at
  {
    if u < at + sz[at] { a := at; } else { a := BlocksCover(sz, at + sz[at], u); }
  }

  /** Free and allocated units add up to the page. */
  lemma {:induction false} UnitsConserved(sz: seq<nat>, at: nat, f: set<nat>)
    requires Tiles(sz, at)
    ensures UnitsOf(sz, at, f) + UnitsOf(sz, at, Starts(sz, at) - f) == |sz| - at
    decreases |sz| - at
  {
    if at != |sz| {
      var n := at + sz[at];
      UnitsConserved(sz, n, f);
      StartsRange(sz, n);
      UnitsSameOn(sz, n, Starts(sz, at) - f, Starts(sz, n) - f);
    }
  }

  lemma {:induction false} UnitsSameOn(sz: seq<nat>, at: nat, f: set<nat>, g: set<nat>)
    requires Tiles(sz, at) && forall a :: a in Starts(sz, at) ==> (a in f <==> a in g)
    ensures UnitsOf(sz, at, f) == UnitsOf(sz, at, g) && CountOf(sz, at, f) == CountOf(sz, at, g)
    decreases |sz| - at
  {
    if at != |sz| { UnitsSameOn(sz, at + sz[at], f, g); }
  }

  /** Adding one block to f adds its units and one to the count. */
  lemma {:induction false} UnitsAdd(sz: seq<nat>, at: nat, f: set<nat>, a: nat)
    requires Tiles(sz, at) && a !in f
    ensures UnitsOf(sz, at, f + {a}) == UnitsOf(sz, at, f) + (if a in Starts(sz, at) then SizeAt(sz, a) else 0)
    ensures CountOf(sz, at, f + {a}) == CountOf(sz, at, f) + (if a in Starts(sz, at) then 1 else 0)
    decreases |sz| - at
  {
    if at != |sz| {
      StartsRange(sz, at + sz[at]);
      if a == at { UnitsSameOn(sz, at + sz[at], f + {a}, f); } else { UnitsAdd(sz, at + sz[at], f, a); }
    }
  }

  // ---- The tree's own totals agree with the walk

  function TreeUnits(t: Tree, sz: seq<nat>): nat {
    match t case Leaf => 0 case Node(a, l, r) => SizeAt(sz, a) + TreeUnits(l, sz) + TreeUnits(r, sz)
  }

  function TreeCount(t: Tree): nat {
    match t case Leaf => 0 case Node(a, l, r) => 1 + TreeCount(l) + TreeCount(r)
  }

  lemma {:induction false} UnitsEmpty(sz: seq<nat>, at: nat)
    requires Tiles(sz, at)
    ensures UnitsOf(sz, at, {}) == 0 && CountOf(sz, at, {}) == 0
    decreases |sz| - at
  {
    if at != |sz| { UnitsEmpty(sz, at + sz[at]); }
  }

  lemma {:induction false} UnitsUnion(sz: seq<nat>, at: nat, f: set<nat>, g: set<nat>)
    requires Tiles(sz, at) && f !! g
    ensures UnitsOf(sz, at, f + g) == UnitsOf(sz, at, f) + UnitsOf(sz, at, g)
    ensures CountOf(sz, at, f + g) == CountOf(sz, at, f) + CountOf(sz, at, g)
    decreases |sz| - at
  {
    if at != |sz| { UnitsUnion(sz, at + sz[at], f, g); }
  }

  lemma {:induction false} TreeTotals(t: Tree, sz: seq<nat>)
    requires Tiles(sz, 0) && Distinct(t) && Nodes(t) <= Starts(sz, 0)
    ensures TreeUnits(t, sz) == UnitsOf(sz, 0, Nodes(t)) && TreeCount(t) == CountOf(sz, 0, Nodes(t))
  {
    match t
    case Leaf => UnitsEmpty(sz, 0);
    case Node(a, l, r) =>
      TreeTotals(l, sz);
      TreeTotals(r, sz);
      UnitsUnion(sz, 0, Nodes(l), Nodes(r));
      UnitsAdd(sz, 0, Nodes(l) + Nodes(r), a);
      assert Nodes(t) == Nodes(l) + Nodes(r) + {a};
  }

  // ---- Splitting a block

  /** The sizes after a block a is cut to units and its rest becomes a block of its own. */
  function Split(sz: seq<nat>, a: nat, units: nat): seq<nat>
    requires a < |sz| && a + sz[a] <= |sz| && 0 < units < sz[a]
  {
    sz[a := units][a + units := sz[a] - units]
  }

  /** The walk depends on the headers it meets only. */
  lemma {:induction false} WalkFrame(sz: seq<nat>, sz': seq<nat>, at: nat, f: set<nat>)
    requires Tiles(sz, at) && |sz'| == |sz| && forall a :: a in Starts(sz, at) ==> a < |sz| && sz'[a] == sz[a]
    ensures Tiles(sz', at) && Starts(sz', at) == Starts(sz, at)
    ensures UnitsOf(sz', at, f) == UnitsOf(sz, at, f) && CountOf(sz', at, f) == CountOf(sz, at, f)
    decreases |sz| - at
  {
    if at != |sz| { assert at in Starts(sz, at); WalkFrame(sz, sz', at + sz[at], f); }
  }

  /** A split keeps the tiling, adds one block, and moves no unit. */
  lemma {:induction false} SplitWalk(sz: seq<nat>, at: nat, a: nat, units: nat, f: set<nat>)
    requires Tiles(sz, at) && a in Starts(sz, at) && a < |sz| && a + sz[a] <= |sz| && 0 < units < sz[a]
    ensures var sz' := Split(sz, a, units);
            && Tiles(sz', at) && Starts(sz', at) == Starts(sz, at) + {a + units} && a + units !in Starts(sz, at)
            && (a !in f && a + units !in f ==>
                UnitsOf(sz', at, f) == UnitsOf(sz, at, f) && CountOf(sz', at, f) == CountOf(sz, at, f))
    decreases |sz| - at
  {
    var sz' := Split(sz, a, units);
    var n := at + sz[at];
    StartsRange(sz, n);
    if a == at {
      WalkFrame(sz, sz', n, f);
      assert sz'[a + units] == sz[a] - units;
      assert Tiles(sz', a + units) && Starts(sz', a + units) == {a + units} + Starts(sz, n);
      assert UnitsOf(sz', a, f) == UnitsOf(sz', a + units, f) || a in f;
    } else {
      SplitWalk(sz, n, a, units, f);
      assert at < a;
    }
  }

  // ---- Merging a block with the one after it

  function Merge(sz: seq<nat>, a: nat): seq<nat>
    requires a < |sz| && a + sz[a] < |sz|
  {
    sz[a := sz[a] + sz[a + sz[a]]]
  }

  /** Merging two blocks of f keeps the tiling, drops the second header, and moves no unit. */
  lemma {:induction false} MergeWalk(sz: seq<nat>, at: nat, a: nat, f: set<nat>)
    requires Tiles(sz, at) && a in Starts(sz, at) && a < |sz| && a + sz[a] < |sz| && a in f && a + sz[a] in f
    ensures var sz', b := Merge(sz, a), a + sz[a];
            && Tiles(sz', at) && Starts(sz', at) == Starts(sz, at) - {b}
            && UnitsOf(sz', at, f - {b}) == UnitsOf(sz, at, f)
            && CountOf(sz', at, f - {b}) == CountOf(sz, at, f) - 1
            && (forall g: set<nat> :: g !! f ==>
                 UnitsOf(sz', at, g) == UnitsOf(sz, at, g) && CountOf(sz', at, g) == CountOf(sz, at, g))
    decreases |sz| - at
  {
    var sz', b, n := Merge(sz, a), a + sz[a], at + sz[at];
    StartsRange(sz, n);
    if a == at {
      var m := b + sz[b];
      StartsRange(sz, m);
      WalkFrame(sz, sz', m, f - {b});
      UnitsSameOn(sz, m, f - {b}, f);
      forall g: set<nat> | g !! f
        ensures UnitsOf(sz', at, g) == UnitsOf(sz, at, g) && CountOf(sz', at, g) == CountOf(sz, at, g)
      {
        WalkFrame(sz, sz', m, g);
      }
    } else {
      MergeWalk(sz, n, a, f);
      assert at < a < b && sz'[at] == sz[at];
      forall g: set<nat> | g !! f
        ensures UnitsOf(sz', at, g) == UnitsOf(sz, at, g) && CountOf(sz', at, g) == CountOf(sz, at, g)
      {
        assert UnitsOf(sz', n, g) == UnitsOf(sz, n, g);
      }
    }
  }
}
