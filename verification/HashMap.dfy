/** The chained hash map with its removing walker. */
module HashMap {
  datatype Status = MapOk | Duplicate | NotFound

  /** What a walker answers: HM_WALKER_REMOVE and HM_WALKER_STOP, in any combination. */
  datatype Answer = Answer(remove: bool, stop: bool)

  class Item<K> {
    var next: Item?<K>
    const key: K

    constructor (key: K)
      ensures this.key == key && next == null
    {
      this.key := key;
      next := null;
    }
  }

  /** The chain from head on is c. */
  ghost predicate Linked<K>(head: Item?<K>, c: seq<Item<K>>)
    reads c
  {
    && head == ItemAt(c, 0)
    && forall i :: 0 <= i < |c| ==> c[i].next == ItemAt(c, i + 1)
  }

  function ItemAt<K>(c: seq<Item<K>>, i: nat): (r: Item?<K>)
    ensures if i < |c| then r == c[i] else r == null
  {
    if i < |c| then c[i] else null
  }

  /** The chains hold the entries of the table, each once and in the bucket of its key. */
  ghost predicate Placed<K(!new)>(hash: K -> nat, chains: seq<seq<Item<K>>>, table: map<K, Item<K>>) {
    && (forall b, i :: 0 <= b < |chains| && 0 <= i < |chains[b]| ==> Entry(hash, table, b, chains[b][i]))
    && (forall b, i, j :: 0 <= b < |chains| && 0 <= i < j < |chains[b]| ==> chains[b][i] != chains[b][j])
    && (forall k :: k in table ==> table[k].key == k && InChain(chains, hash(k), table[k]))
  }

  ghost predicate Entry<K(!new)>(hash: K -> nat, table: map<K, Item<K>>, b: nat, item: Item<K>) {
    hash(item.key) == b && item.key in table && table[item.key] == item
  }

  ghost predicate InChain<K>(chains: seq<seq<Item<K>>>, b: nat, item: Item<K>) {
    b < |chains| && item in chains[b]
  }

  lemma PlacedWithItem<K(!new)>(hash: K -> nat, chains: seq<seq<Item<K>>>, table: map<K, Item<K>>, item: Item<K>)
    requires Placed(hash, chains, table) && item.key !in table && hash(item.key) < |chains|
    ensures var b := hash(item.key); Placed(hash, chains[b := chains[b] + [item]], table[item.key := item])
  {
    var b := hash(item.key);
    var chains', table' := chains[b := chains[b] + [item]], table[item.key := item];
    forall a, i | 0 <= a < |chains'| && 0 <= i < |chains'[a]| ensures Entry(hash, table', a, chains'[a][i]) {
      if !(a == b && i == |chains[b]|) { assert Entry(hash, table, a, chains[a][i]); }
    }
    forall a, i, j | 0 <= a < |chains'| && 0 <= i < j < |chains'[a]| ensures chains'[a][i] != chains'[a][j] {
      assert Entry(hash, table, a, chains[a][i]);
    }
    forall k | k in table' ensures table'[k].key == k && InChain(chains', hash(k), table'[k]) {
      if k == item.key {
        assert chains'[b][|chains[b]|] == item;
      } else {
        assert InChain(chains, hash(k), table[k]);
      }
    }
  }

  /** The chain without its i-th item. */
  function Without<K>(c: seq<Item<K>>, i: nat): seq<Item<K>> {
    if i < |c| then c[..i] + c[i + 1..] else c
  }

  lemma WithoutMiddle<K>(kept: seq<Item<K>>, c: seq<Item<K>>, p: nat)
    requires p < |c|
    ensures Without(kept + c[p..], |kept|) == kept + c[p + 1..]
    ensures kept + [c[p]] + c[p + 1..] == kept + c[p..] && (kept + c[p..])[|kept|] == c[p]
  {
  }

  lemma PlacedWithout<K(!new)>(hash: K -> nat, chains: seq<seq<Item<K>>>, table: map<K, Item<K>>, b: nat, i: nat)
    requires Placed(hash, chains, table) && b < |chains| && i < |chains[b]|
    ensures Placed(hash, chains[b := Without(chains[b], i)], table - {chains[b][i].key})
  {
    var c := chains[b];
    var item := c[i];
    var chains', table' := chains[b := Without(c, i)], table - {item.key};
    assert Entry(hash, table, b, item);
    forall a, j | 0 <= a < |chains'| && 0 <= j < |chains'[a]| ensures Entry(hash, table', a, chains'[a][j]) {
      var k := if a == b && j >= i then j + 1 else j;
      assert chains'[a][j] == chains[a][k] && Entry(hash, table, a, chains[a][k]);
      assert chains[a][k] != item;
    }
    forall a, j, k | 0 <= a < |chains'| && 0 <= j < k < |chains'[a]| ensures chains'[a][j] != chains'[a][k] {
      var j', k' := if a == b && j >= i then j + 1 else j, if a == b && k >= i then k + 1 else k;
      assert chains[a][j'] != chains[a][k'];
    }
    forall k | k in table' ensures table'[k].key == k && InChain(chains', hash(k), table'[k]) {
      assert InChain(chains, hash(k), table[k]);
      var j :| 0 <= j < |chains[hash(k)]| && chains[hash(k)][j] == table[k];
      if hash(k) == b { assert j != i && chains'[b][if j > i then j - 1 else j] == table[k]; }
    }
  }

  /** The keys of the visited items the walker wanted removed. */
  function RemovedKeys<K(==)>(answer: (nat, K) -> Answer, visited: seq<Item<K>>): set<K> {
    set m | 0 <= m < |visited| && answer(m, visited[m].key).remove :: visited[m].key
  }

  lemma OneMoreRemoved<K>(answer: (nat, K) -> Answer, visited: seq<Item<K>>, item: Item<K>)
    ensures RemovedKeys(answer, visited + [item])
            == RemovedKeys(answer, visited) + if answer(|visited|, item.key).remove then {item.key} else {}
  {
    var v := visited + [item];
    forall k
      ensures k in RemovedKeys(answer, v)
         <==> k in RemovedKeys(answer, visited) || (answer(|visited|, item.key).remove && k == item.key)
    {
      if k in RemovedKeys(answer, visited) {
        var m :| 0 <= m < |visited| && answer(m, visited[m].key).remove && visited[m].key == k;
        assert v[m] == visited[m];
      }
      assert v[|visited|] == item;
    }
  }

  ghost predicate Distinct<K>(visited: seq<Item<K>>) {
    forall m, n :: 0 <= m < n < |visited| ==> visited[m] != visited[n]
  }

  /** The walker has not answered STOP to any of these. */
  predicate NoStop<K>(answer: (nat, K) -> Answer, visited: seq<Item<K>>) {
    forall m :: 0 <= m < |visited| ==> !answer(m, visited[m].key).stop
  }

  lemma OneMoreItem<K>(answer: (nat, K) -> Answer, visited: seq<Item<K>>, item: Item<K>)
    requires Distinct(visited) && NoStop(answer, visited) && item !in visited
    ensures Distinct(visited + [item])
    ensures NoStop(answer, visited + [item]) <==> !answer(|visited|, item.key).stop
  {
    var v := visited + [item];
    assert v[|visited|] == item;
  }

  /** The walk has visited the buckets before b, and the first p items of bucket b. */
  ghost predicate WalkedTo<K>(chains: seq<seq<Item<K>>>, visited: seq<Item<K>>, b: nat, p: nat) {
    && (forall m :: 0 <= m < |visited| ==> Before(chains, visited[m], b, p))
    && (forall a, i :: 0 <= a < |chains| && 0 <= i < |chains[a]| && (a < b || (a == b && i < p)) ==> chains[a][i] in visited)
  }

  ghost predicate Before<K>(chains: seq<seq<Item<K>>>, item: Item<K>, b: nat, p: nat) {
    exists a, i :: 0 <= a < |chains| && 0 <= i < |chains[a]| && chains[a][i] == item && (a < b || (a == b && i < p))
  }

  lemma NotYetVisited<K(!new)>(hash: K -> nat, chains: seq<seq<Item<K>>>, table: map<K, Item<K>>, visited: seq<Item<K>>, b: nat, p: nat)
    requires Placed(hash, chains, table) && WalkedTo(chains, visited, b, p) && b < |chains| && p < |chains[b]|
    ensures chains[b][p] !in visited && chains[b][p] in table.Values
  {
    var item := chains[b][p];
    assert Entry(hash, table, b, item);
    forall m | 0 <= m < |visited| ensures visited[m] != item {
      assert Before(chains, visited[m], b, p);
      var a, i :| 0 <= a < |chains| && 0 <= i < |chains[a]| && chains[a][i] == visited[m] && (a < b || (a == b && i < p));
      assert Entry(hash, table, a, chains[a][i]);
    }
  }

  lemma StillWalking<K(!new)>(chains: seq<seq<Item<K>>>, visited: seq<Item<K>>, b: nat, p: nat)
    requires WalkedTo(chains, visited, b, p) && b < |chains| && p < |chains[b]|
    ensures WalkedTo(chains, visited + [chains[b][p]], b, p + 1)
  {
    var v := visited + [chains[b][p]];
    forall m | 0 <= m < |v| ensures Before(chains, v[m], b, p + 1) {
      if m < |visited| { assert Before(chains, visited[m], b, p); }
    }
  }

  lemma NextBucket<K(!new)>(chains: seq<seq<Item<K>>>, visited: seq<Item<K>>, b: nat)
    requires b < |chains| && WalkedTo(chains, visited, b, |chains[b]|)
    ensures WalkedTo(chains, visited, b + 1, 0)
  {
    forall m | 0 <= m < |visited| ensures Before(chains, visited[m], b + 1, 0) {
      assert Before(chains, visited[m], b, |chains[b]|);
    }
  }

  lemma AllVisited<K(!new)>(hash: K -> nat, chains: seq<seq<Item<K>>>, table: map<K, Item<K>>, visited: seq<Item<K>>)
    requires Placed(hash, chains, table) && WalkedTo(chains, visited, |chains|, 0)
    ensures forall k :: k in table ==> table[k] in visited
  {
    forall k | k in table ensures table[k] in visited {
      assert InChain(chains, hash(k), table[k]);
    }
  }

  lemma LinkedParts<K>(head: Item?<K>, c: seq<Item<K>>, i: nat)
    requires Linked(head, c)
    ensures head == ItemAt(c, 0) && (i < |c| ==> c[i].next == ItemAt(c, i + 1))
  {
  }

  /** How far a walk is. */
  datatype Progress<K> = Progress(visited: seq<Item<K>>, kept: seq<Item<K>>, p: nat)

  datatype Spot = Spot(bucket: nat, index: nat)

  class HashMap<K(==,!new)> {
    const hash: K -> nat
    const heads: array<Item?<K>>
    ghost var chains: seq<seq<Item<K>>>
    ghost var table: map<K, Item<K>>

    ghost predicate Valid()
      reads this, heads, table.Values
    {
      && |chains| == heads.Length > 0
      && (forall k :: hash(k) < heads.Length)
      && Placed(hash, chains, table)
      && (forall b :: 0 <= b < |chains| ==> Linked(heads[b], chains[b]))
    }

    constructor (size: nat, hash: K -> nat)
      requires size > 0 && forall k :: hash(k) < size
      ensures Valid() && table == map[] && fresh(heads) && this.hash == hash
    {
      this.hash := hash;
      heads := new Item?<K>[size](_ => null);
      chains := seq(size, _ => []);
      table := map[];
    }

    /** What Valid says about one chain. */
    lemma ChainFacts(b: nat)
      requires Valid() && b < |chains|
      ensures b < heads.Length
      ensures Linked(heads[b], chains[b])
      ensures forall i :: 0 <= i < |chains[b]| ==> Entry(hash, table, b, chains[b][i])
      ensures forall i, j :: 0 <= i < j < |chains[b]| ==> chains[b][i] != chains[b][j]
    {
    }

    lemma KeyIsInChain(key: K)
      requires Valid() && key in table
      ensures table[key] in chains[hash(key)] && table[key].key == key
    {
    }

    /** hash_map_insert: at the tail of its chain, unless an equal key is there. */
    method Insert(item: Item<K>) returns (ret: Status)
      requires Valid() && (item in table.Values || item.next == null)
      modifies this`chains, this`table, heads, table.Values
      ensures Valid()
      ensures ret == if item.key in old(table) then Duplicate else MapOk
      ensures table == if ret == MapOk then old(table)[item.key := item] else old(table)
    {
      hide Valid;
      HashInRange(item.key);
      var b := hash(item.key);
      ghost var c := chains[b];
      ChainFacts(b);
      if item.key in table { KeyIsInChain(item.key); }
      if item in table.Values { ItemIsInChain(item); }
      ret := MapOk;
      if heads[b] == null {
        heads[b] := item;
      } else {
        var iter := heads[b];
        var next := iter.next;
        ghost var i := 0;
        while true
          invariant 0 <= i < |c| && iter == c[i] && next == iter.next
          invariant forall j :: 0 <= j < i ==> c[j].key != item.key
          decreases |c| - i
        {
          if iter.key == item.key {
            return Duplicate;
          }
          if next == null {
            break;
          }
          iter, next := next, next.next;
          i := i + 1;
        }
        iter.next := item;
      }
      chains := chains[b := c + [item]];
      table := table[item.key := item];
      Inserted(item);
    }

    /** hash_map_find. */
    method Find(key: K) returns (iter: Item?<K>)
      requires Valid()
      ensures iter == if key in table then table[key] else null
    {
      hide Valid;
      HashInRange(key);
      var b := hash(key);
      ghost var c := chains[b];
      ChainFacts(b);
      if key in table { KeyIsInChain(key); }
      iter := heads[b];
      ghost var i := 0;
      while iter != null
        invariant 0 <= i <= |c| && iter == ItemAt(c, i)
        invariant forall j :: 0 <= j < i ==> c[j].key != key
        decreases |c| - i
      {
        assert Entry(hash, table, b, c[i]);
        if iter.key == key {
          break;
        }
        iter := iter.next;
        i := i + 1;
      }
    }

    /** hash_map_remove. The code asserts that the chain of the item's key is not empty. */
    method Remove(item: Item<K>) returns (ret: Status)
      requires Valid() && heads[hash(item.key)] != null
      modifies this`chains, this`table, heads, table.Values
      ensures Valid()
      ensures ret == if item in old(table.Values) then MapOk else NotFound
      ensures table == if ret == MapOk then old(table) - {item.key} else old(table)
    {
      hide Valid, Placed;
      HashInRange(item.key);
      var b := hash(item.key);
      ghost var c := chains[b];
      ChainFacts(b);
      if item in table.Values { ItemIsInChain(item); }
      ghost var i := 0;
      if heads[b] == item {
        var iter := item.next;
        heads[b] := iter;
      } else {
        var iter := heads[b];
        var next := iter.next;
        while next != item
          invariant 0 <= i < |c| && iter == c[i] && next == iter.next
          invariant forall j :: 0 <= j <= i ==> c[j] != item
          decreases |c| - i
        {
          if next == null {
            return NotFound;
          }
          iter, next := next, next.next;
          i := i + 1;
        }
        iter.next := item.next;
        i := i + 1;
      }
      chains := chains[b := Without(c, i)];
      table := table - {item.key};
      Removed(Spot(b, i));
      return MapOk;
    }

    lemma ItemIsInChain(item: Item<K>)
      requires Valid() && item in table.Values
      ensures hash(item.key) < |chains| && item in chains[hash(item.key)]
      ensures item.key in table && table[item.key] == item
    {
      var k :| k in table && table[k] == item;
      assert InChain(chains, hash(k), table[k]);
    }

    /** Unlinking the i-th item of a chain keeps the map valid. */
    twostate lemma Removed(at: Spot)
      requires old(Valid()) && at.bucket < |old(chains)| && at.index < |old(chains)[at.bucket]|
      requires var (b, i, c) := (at.bucket, at.index, old(chains)[at.bucket]);
               && chains == old(chains)[b := Without(c, i)]
               && table == old(table) - {c[i].key}
               && (forall a :: 0 <= a < heads.Length && (a != b || i > 0) ==> heads[a] == old(heads[a]))
               && (forall e :: e in old(table.Values) && (i == 0 || e != c[i - 1]) ==> e.next == old(e.next))
               && if i == 0 then heads[b] == ItemAt(c, 1) else c[i - 1].next == ItemAt(c, i + 1)
      ensures Valid()
    {
      hide Placed;
      var (b, i, c) := (at.bucket, at.index, old(chains)[at.bucket]);
      PlacedWithout(hash, old(chains), old(table), b, i);
      EntriesOf(hash, old(chains), old(table), b);
      forall a | 0 <= a < |chains| ensures Linked(heads[a], chains[a]) {
        assert old(Linked(heads[a], chains[a]));
        EntriesOf(hash, old(chains), old(table), a);
        if a == b {
          var d := Without(c, i);
          forall j | 0 <= j < |d| ensures d[j].next == ItemAt(d, j + 1) {
            var j' := if j < i then j else j + 1;
            assert d[j] == c[j'] && old(c[j'].next) == ItemAt(c, j' + 1);
          }
        }
      }
    }

    /** So far these items were visited, each once, and of the table t the ones to be removed are gone. */
    ghost predicate Visited(answer: (nat, K) -> Answer, t: map<K, Item<K>>, visited: seq<Item<K>>)
      reads this`table
    {
      && Distinct(visited)
      && (forall m :: 0 <= m < |visited| ==> visited[m] in t.Values)
      && table == t - RemovedKeys(answer, visited)
    }

    /** The walker stopped at the last of the visited items, and found is that item. */
    ghost predicate StoppedAt(answer: (nat, K) -> Answer, found: Item?<K>, visited: seq<Item<K>>) {
      && visited != []
      && found == visited[|visited| - 1]
      && answer(|visited| - 1, visited[|visited| - 1].key).stop
      && NoStop(answer, visited[..|visited| - 1])
    }

    /** hash_map_walk. The walker may answer anything for the n-th item it is shown. The result is the item
        at which it stopped, or null if it has seen them all. */
    method Walk(answer: (nat, K) -> Answer) returns (found: Item?<K>, ghost visited: seq<Item<K>>)
      requires Valid()
      modifies this`chains, this`table, heads, table.Values
      ensures Valid() && Visited(answer, old(table), visited)
      ensures found == null ==> NoStop(answer, visited) && forall k :: k in old(table) ==> old(table)[k] in visited
      ensures found != null ==> StoppedAt(answer, found, visited)
    {
      hide Valid, Placed, Linked, WalkedTo, NoStop, StoppedAt, Visited;
      visited := [];
      var shown := 0;
      InitialFacts(answer);
      for b := 0 to heads.Length
        invariant Valid() && |chains| == heads.Length && |old(chains)| == heads.Length
        invariant Placed(hash, old(chains), old(table)) && table.Values <= old(table.Values)
        invariant forall a :: b <= a < |chains| ==> chains[a] == old(chains)[a]
        invariant shown == |visited| && WalkedTo(old(chains), visited, b, 0)
        invariant Visited(answer, old(table), visited) && NoStop(answer, visited)
      {
        found, shown, visited := WalkChain(answer, b, shown, visited, old(chains), old(table));
        if found != null {
          return;
        }
        NextBucket(old(chains), visited, b);
      }
      AllVisited(hash, old(chains), old(table), visited);
      found := null;
    }

    /** The walk is at iter in bucket b of the map that was chains0 and table0 when it began: it has visited
        the first p items of the bucket and kept some of them, of which prev is the last. */
    ghost predicate At(answer: (nat, K) -> Answer, chains0: seq<seq<Item<K>>>, table0: map<K, Item<K>>, b: nat,
                       w: Progress<K>, prev: Item?<K>, iter: Item?<K>)
      reads this, heads, table.Values
    {
      && Valid() && Placed(hash, chains0, table0)
      && b < heads.Length == |chains| == |chains0|
      && w.p <= |chains0[b]| && chains[b] == w.kept + chains0[b][w.p..]
      && prev == (if w.kept == [] then null else w.kept[|w.kept| - 1])
      && iter == ItemAt(chains0[b], w.p)
      && WalkedTo(chains0, w.visited, b, w.p)
      && Visited(answer, table0, w.visited) && NoStop(answer, w.visited)
    }

    /** The walk over one bucket. */
    method WalkChain(answer: (nat, K) -> Answer, b: nat, shown0: nat, ghost visited0: seq<Item<K>>,
                     ghost chains0: seq<seq<Item<K>>>, ghost table0: map<K, Item<K>>)
      returns (found: Item?<K>, shown: nat, ghost visited: seq<Item<K>>)
      requires Valid() && Placed(hash, chains0, table0)
      requires b < heads.Length == |chains| == |chains0| && chains[b] == chains0[b]
      requires shown0 == |visited0| && WalkedTo(chains0, visited0, b, 0)
      requires Visited(answer, table0, visited0) && NoStop(answer, visited0)
      modifies this`chains, this`table, heads, table.Values
      ensures Valid() && Visited(answer, table0, visited) && table.Values <= old(table.Values)
      ensures |chains| == |chains0| && forall a :: b < a < |chains| ==> chains[a] == old(chains)[a]
      ensures found == null ==> shown == |visited| && WalkedTo(chains0, visited, b, |chains0[b]|) && NoStop(answer, visited)
      ensures found != null ==> StoppedAt(answer, found, visited)
    {
      hide Valid, Placed, Linked, RemovedKeys, WalkedTo, Distinct, NoStop, Without, Visited, StoppedAt, At;
      shown := shown0;
      ghost var w := Progress(visited0, [], 0);
      var prev: Item?<K> := null;
      WalkBegins(answer, chains0, table0, b, w);
      var iter := heads[b];
      while iter != null
        invariant At(answer, chains0, table0, b, w, prev, iter)
        invariant shown == |w.visited| && table.Values <= old(table.Values)
        invariant |chains| == |chains0| == heads.Length && forall a :: b < a < |chains| ==> chains[a] == old(chains)[a]
        invariant w.p <= |chains0[b]|
        decreases |chains0[b]| - w.p
      {
        var stop, next;
        stop, prev, next, w := VisitOne(answer, b, shown, prev, iter, chains0, table0, w);
        shown := shown + 1;
        if stop {
          return iter, shown, w.visited;
        }
        iter := next;
      }
      WalkEnds(answer, chains0, table0, b, w, prev);
      if prev == null {
        ClearHead(b);
      }
      return null, shown, w.visited;
    }

    lemma WalkBegins(answer: (nat, K) -> Answer, chains0: seq<seq<Item<K>>>, table0: map<K, Item<K>>, b: nat, w: Progress<K>)
      requires Valid() && Placed(hash, chains0, table0)
      requires b < heads.Length == |chains| == |chains0| && chains[b] == chains0[b]
      requires WalkedTo(chains0, w.visited, b, 0) && w.kept == [] && w.p == 0
      requires Visited(answer, table0, w.visited) && NoStop(answer, w.visited)
      ensures At(answer, chains0, table0, b, w, null, heads[b])
    {
      hide Valid, Placed, Linked, WalkedTo, NoStop, Visited;
      ChainFacts(b);
      LinkedParts(heads[b], chains[b], 0);
      assert [] + chains0[b][0..] == chains0[b];
    }

    lemma WalkEnds(answer: (nat, K) -> Answer, chains0: seq<seq<Item<K>>>, table0: map<K, Item<K>>, b: nat, w: Progress<K>, prev: Item?<K>)
      requires At(answer, chains0, table0, b, w, prev, null)
      ensures Valid() && Visited(answer, table0, w.visited) && NoStop(answer, w.visited)
      ensures b < |chains0| && WalkedTo(chains0, w.visited, b, |chains0[b]|)
      ensures b < |chains| && (prev == null ==> chains[b] == [])
    {
      hide Valid, Placed, WalkedTo, NoStop, Visited;
      assert chains0[b][w.p..] == [];
    }

    /** One item: func is called, and the item removed or kept as it answers. */
    method VisitOne(answer: (nat, K) -> Answer, b: nat, shown: nat, prev0: Item?<K>, iter: Item<K>,
                    ghost chains0: seq<seq<Item<K>>>, ghost table0: map<K, Item<K>>, ghost w: Progress<K>)
      returns (stop: bool, prev: Item?<K>, next: Item?<K>, ghost w': Progress<K>)
      requires At(answer, chains0, table0, b, w, prev0, iter) && shown == |w.visited|
      modifies this`chains, this`table, heads, table.Values
      ensures w'.visited == w.visited + [iter] && w'.p == w.p + 1 <= |chains0[b]|
      ensures Valid() && |chains| == |old(chains)| && forall a :: b < a < |chains| ==> chains[a] == old(chains)[a]
      ensures table.Values <= old(table.Values)
      ensures Visited(answer, table0, w'.visited)
      ensures if stop then StoppedAt(answer, iter, w'.visited) else At(answer, chains0, table0, b, w', prev, next)
    {
      hide Valid, Placed, Linked, RemovedKeys, WalkedTo, Distinct, NoStop, Without, Visited, StoppedAt;
      ghost var c := chains0[b];
      ChainFacts(b);
      WithoutMiddle(w.kept, c, w.p);
      LinkedParts(heads[b], chains[b], |w.kept|);
      next := iter.next;
      assert next == ItemAt(c, w.p + 1) by { NextInRest(w.kept, c, w.p); }
      NotYetVisited(hash, chains0, table0, w.visited, b, w.p);
      StillWalking(chains0, w.visited, b, w.p);
      ghost var before := table;
      VisitedParts(answer, table0, w.visited, iter);
      var ret := answer(shown, iter.key);
      w' := Progress(w.visited + [iter], w.kept + if ret.remove then [] else [iter], w.p + 1);
      if ret.remove {
        Unlink(b, iter, prev0, next, |w.kept|);
        prev := prev0;
      } else {
        prev := iter;
      }
      stop := ret.stop;
      OneMoreVisited(answer, table0, w.visited, iter, before);
    }

    lemma NextInRest(kept: seq<Item<K>>, c: seq<Item<K>>, p: nat)
      requires p < |c|
      ensures ItemAt(kept + c[p..], |kept| + 1) == ItemAt(c, p + 1)
    {
    }

    /** After a chain of which nothing is left. */
    method ClearHead(b: nat)
      requires Valid() && b < heads.Length == |chains| && chains[b] == []
      modifies heads
      ensures Valid()
    {
      ChainFacts(b);
      heads[b] := null;
    }

    lemma VisitedParts(answer: (nat, K) -> Answer, t: map<K, Item<K>>, visited: seq<Item<K>>, iter: Item<K>)
      requires Visited(answer, t, visited)
      ensures table == t - RemovedKeys(answer, visited) && Distinct(visited)
      ensures forall m :: 0 <= m < |visited| ==> visited[m] in t.Values
    {
    }

    /** The next item was visited, and is gone from the table if that was the answer. */
    lemma OneMoreVisited(answer: (nat, K) -> Answer, t: map<K, Item<K>>, visited: seq<Item<K>>, iter: Item<K>, before: map<K, Item<K>>)
      requires before == t - RemovedKeys(answer, visited) && Distinct(visited) && NoStop(answer, visited)
      requires forall m :: 0 <= m < |visited| ==> visited[m] in t.Values
      requires iter !in visited && iter in t.Values
      requires table == if answer(|visited|, iter.key).remove then before - {iter.key} else before
      ensures Visited(answer, t, visited + [iter])
      ensures NoStop(answer, visited + [iter]) <==> !answer(|visited|, iter.key).stop
      ensures answer(|visited|, iter.key).stop ==> StoppedAt(answer, iter, visited + [iter])
    {
      OneMoreRemoved(answer, visited, iter);
      OneMoreItem(answer, visited, iter);
      assert (visited + [iter])[..|visited|] == visited;
    }

    /** How the walker removes iter, the i-th item of its chain, behind prev. */
    method Unlink(b: nat, iter: Item<K>, prev: Item?<K>, next: Item?<K>, ghost i: nat)
      requires Valid() && b < heads.Length && b < |chains| && i < |chains[b]| && chains[b][i] == iter && next == iter.next
      requires prev == if i == 0 then null else chains[b][i - 1]
      modifies this`chains, this`table, heads, table.Values
      ensures Valid() && chains == old(chains)[b := Without(old(chains)[b], i)] && table == old(table) - {iter.key}
      ensures table.Values <= old(table.Values)
    {
      hide Valid, Placed, Linked;
      ChainFacts(b);
      LinkedParts(heads[b], chains[b], i);
      if prev == null {
        heads[b] := next;
      } else {
        ItemIsInTable(b, i - 1);
        prev.next := next;
      }
      chains := chains[b := Without(chains[b], i)];
      table := table - {iter.key};
      Removed(Spot(b, i));
    }

    lemma ItemIsInTable(b: nat, i: nat)
      requires Valid() && b < |chains| && i < |chains[b]|
      ensures chains[b][i] in table.Values
    {
      assert Entry(hash, table, b, chains[b][i]);
    }

    lemma InitialFacts(answer: (nat, K) -> Answer)
      requires Valid()
      ensures Visited(answer, table, []) && NoStop(answer, [])
      ensures |chains| == heads.Length && Placed(hash, chains, table)
      ensures WalkedTo(chains, [], 0, 0)
    {
    }

    lemma HashInRange(key: K)
      requires Valid()
      ensures hash(key) < heads.Length == |chains|
    {
    }

    /** Linking item behind its chain keeps the map valid. */
    twostate lemma Inserted(item: Item<K>)
      requires old(Valid()) && item !in old(table.Values) && old(item.next) == null && item.key !in old(table)
      requires hash(item.key) < |old(chains)|
      requires chains == old(chains)[hash(item.key) := old(chains)[hash(item.key)] + [item]]
      requires table == old(table)[item.key := item]
      requires forall b :: 0 <= b < heads.Length && b != hash(item.key) ==> heads[b] == old(heads[b])
      requires var c := old(chains)[hash(item.key)];
               && (if c == [] then heads[hash(item.key)] == item
                   else heads[hash(item.key)] == c[0] && c[|c| - 1].next == item)
               && forall e :: e in table.Values && (c == [] || e != c[|c| - 1]) ==> e.next == old(e.next)
      ensures Valid()
    {
      hide Placed;
      PlacedWithItem(hash, old(chains), old(table), item);
      var home := hash(item.key);
      forall b | 0 <= b < |chains| ensures Linked(heads[b], chains[b]) {
        assert old(Linked(heads[b], chains[b]));
        EntriesOf(hash, old(chains), old(table), b);
        EntriesOf(hash, old(chains), old(table), home);
        EntriesOf(hash, chains, table, b);
      }
    }
  }

  lemma EntriesOf<K(!new)>(hash: K -> nat, chains: seq<seq<Item<K>>>, table: map<K, Item<K>>, b: nat)
    requires Placed(hash, chains, table) && b < |chains|
    ensures forall i :: 0 <= i < |chains[b]| ==> hash(chains[b][i].key) == b && chains[b][i] in table.Values
    ensures forall i, j :: 0 <= i < j < |chains[b]| ==> chains[b][i] != chains[b][j]
  {
    forall i | 0 <= i < |chains[b]| ensures hash(chains[b][i].key) == b && chains[b][i] in table.Values {
      assert Entry(hash, table, b, chains[b][i]);
    }
  }
}
