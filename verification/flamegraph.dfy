/** Flame graphs: trees of sizes that cache the total below each node. */
module FlameGraph {
  type Key = string

  datatype FlameGraph = FlameGraph(children: map<Key, FlameGraph>, childrenSize: nat, nodeSize: nat)

  function TotalSize(g: FlameGraph): nat {
    g.nodeSize + g.childrenSize
  }

  // ---------- sums over a map, in no particular order ----------

  ghost function SumOf(sizes: map<Key, nat>): nat
    decreases |sizes|
  {
    if sizes == map[] then
      0
    else
      SomeKey(sizes);
      var k :| k in sizes;
      SmallerMap(sizes, k);
      sizes[k] + SumOf(sizes - {k})
  }

  lemma SomeKey<T>(m: map<Key, T>)
    requires m != map[]
    ensures exists k :: k in m
  {
    assert (forall k :: k !in m) ==> m == map[];
  }

  lemma SmallerMap<T>(m: map<Key, T>, k: Key)
    requires k in m
    ensures |m - {k}| == |m| - 1
  {
    assert (m - {k}).Keys == m.Keys - {k};
    assert |(m - {k}).Keys| == |m.Keys| - 1;
  }

  /** Any key may be taken out first. */
  lemma {:induction false} SumWithout(sizes: map<Key, nat>, k: Key)
    requires k in sizes
    ensures SumOf(sizes) == sizes[k] + SumOf(sizes - {k})
    decreases |sizes|
  {
    SomeKey(sizes);
    var first :| first in sizes && SumOf(sizes) == sizes[first] + SumOf(sizes - {first});
    if first != k {
      SmallerMap(sizes, first);
      SumWithout(sizes - {first}, k);
      SmallerMap(sizes, k);
      SumWithout(sizes - {k}, first);
      assert sizes - {first} - {k} == sizes - {k} - {first};
    }
  }

  function SizeOr0(sizes: map<Key, nat>, k: Key): nat {
    if k in sizes then sizes[k] else 0
  }

  /** The third map holds the sums of the first two, key by key. */
  ghost predicate AddUp(a: map<Key, nat>, b: map<Key, nat>, both: map<Key, nat>) {
    both.Keys == a.Keys + b.Keys && forall k | k in both :: both[k] == SizeOr0(a, k) + SizeOr0(b, k)
  }

  lemma AddUpWithout(a: map<Key, nat>, b: map<Key, nat>, both: map<Key, nat>, k: Key)
    requires AddUp(a, b, both)
    ensures AddUp(a - {k}, b - {k}, both - {k})
  {
  }

  /** Sums add when sizes add key by key. */
  lemma {:induction false} SumsAdd(a: map<Key, nat>, b: map<Key, nat>, both: map<Key, nat>)
    requires AddUp(a, b, both)
    ensures SumOf(both) == SumOf(a) + SumOf(b)
    decreases |both|
  {
    if both == map[] {
      assert a.Keys == {} && b.Keys == {};
      assert a == map[] && b == map[];
    } else {
      SomeKey(both);
      var k :| k in both;
      AddUpWithout(a, b, both, k);
      SmallerMap(both, k);
      SumsAdd(a - {k}, b - {k}, both - {k});
      TakeOut(a, k);
      TakeOut(b, k);
      TakeOut(both, k);
    }
  }

  lemma TakeOut(sizes: map<Key, nat>, k: Key)
    ensures SumOf(sizes) == SizeOr0(sizes, k) + SumOf(sizes - {k})
  {
    if k in sizes {
      SumWithout(sizes, k);
    } else {
      assert sizes - {k} == sizes;
    }
  }

  // ---------- merging ----------

  ghost function Totals(children: map<Key, FlameGraph>): map<Key, nat> {
    map k | k in children :: TotalSize(children[k])
  }

  /** Every cached children size is the sum of the children's totals. */
  ghost predicate Exact(g: FlameGraph) {
    g.childrenSize == SumOf(Totals(g.children)) && forall k | k in g.children :: Exact(g.children[k])
  }

  /** The graphs laid over each other, child by child. */
  ghost function Merged(a: FlameGraph, b: FlameGraph): FlameGraph
    decreases b
  {
    FlameGraph(
      map k | k in a.children.Keys + b.children.Keys ::
        if k !in b.children then a.children[k]
        else if k !in a.children then b.children[k]
        else Merged(a.children[k], b.children[k]),
      a.childrenSize + SumOf(Totals(b.children)),
      a.nodeSize + b.nodeSize)
  }

  ghost function ChildAdded(g: FlameGraph, key: Key, child: FlameGraph): FlameGraph {
    FlameGraph(
      g.children[key := if key in g.children then Merged(g.children[key], child) else child],
      g.childrenSize + TotalSize(child),
      g.nodeSize)
  }

  /** Adding one of the children first and the others after comes to adding them all. */
  lemma OneChildFirst(g: FlameGraph, left: map<Key, FlameGraph>, k: Key)
    requires k in left
    ensures Merged(ChildAdded(g, k, left[k]), FlameGraph(left - {k}, 0, 0)) == Merged(g, FlameGraph(left, 0, 0))
  {
    var first := ChildAdded(g, k, left[k]);
    var whole, rest := FlameGraph(left, 0, 0), FlameGraph(left - {k}, 0, 0);
    SumWithout(Totals(left), k);
    assert Totals(left) - {k} == Totals(left - {k});
    assert Merged(first, rest).children == Merged(g, whole).children;
  }

  lemma NodeSizeFirst(a: FlameGraph, b: FlameGraph)
    ensures Merged(a, b) == Merged(a.(nodeSize := a.nodeSize + b.nodeSize), FlameGraph(b.children, 0, 0))
  {
    var sized := a.(nodeSize := a.nodeSize + b.nodeSize);
    assert Merged(a, b).children == Merged(sized, FlameGraph(b.children, 0, 0)).children;
  }

  lemma NothingLeft(g: FlameGraph)
    ensures Merged(g, FlameGraph(map[], 0, 0)) == g
  {
    assert Merged(g, FlameGraph(map[], 0, 0)).children == g.children;
    assert Totals(map[]) == map[];
  }

  /** Adds another flame graph to this one. */
  method Add(self: FlameGraph, other: FlameGraph) returns (r: FlameGraph)
    ensures r == Merged(self, other)
    decreases other, 0
  {
    r := self.(nodeSize := self.nodeSize + other.nodeSize);
    var left := other.children;
    NodeSizeFirst(self, other);
    while left != map[]
      invariant left.Keys <= other.children.Keys && forall k | k in left :: left[k] == other.children[k]
      invariant Merged(self, other) == Merged(r, FlameGraph(left, 0, 0))
      decreases |left|
    {
      SomeKey(left);
      var k :| k in left;
      OneChildFirst(r, left, k);
      SmallerMap(left, k);
      r := AddChild(r, k, left[k]);
      left := left - {k};
    }
    NothingLeft(r);
  }

  /** Adds a child, merging it into the one of that name if there is one. */
  method AddChild(self: FlameGraph, key: Key, child: FlameGraph) returns (r: FlameGraph)
    ensures r == ChildAdded(self, key, child)
    decreases child, 1
  {
    r := self.(childrenSize := self.childrenSize + TotalSize(child));
    if key in r.children {
      var merged := Add(r.children[key], child);
      r := r.(children := r.children[key := merged]);
    } else {
      r := r.(children := r.children[key := child]);
    }
  }

  /** Merging keeps cached child sizes exact and adds total sizes. */
  lemma {:induction false} MergeIsExact(a: FlameGraph, b: FlameGraph)
    requires Exact(a) && Exact(b)
    ensures Exact(Merged(a, b)) && TotalSize(Merged(a, b)) == TotalSize(a) + TotalSize(b)
    decreases b
  {
    var m := Merged(a, b);
    forall k | k in m.children
      ensures Exact(m.children[k])
      ensures TotalSize(m.children[k]) == SizeOr0(Totals(a.children), k) + SizeOr0(Totals(b.children), k)
    {
      if k in a.children && k in b.children {
        MergeIsExact(a.children[k], b.children[k]);
      }
    }
    SumsAdd(Totals(a.children), Totals(b.children), Totals(m.children));
  }

  lemma AddingChildIsExact(g: FlameGraph, key: Key, child: FlameGraph)
    requires Exact(g) && Exact(child)
    ensures Exact(ChildAdded(g, key, child))
    ensures TotalSize(ChildAdded(g, key, child)) == TotalSize(g) + TotalSize(child)
  {
    var r := ChildAdded(g, key, child);
    if key in g.children {
      MergeIsExact(g.children[key], child);
    }
    TotalsWithChild(g.children, key, r.children[key]);
  }

  /** Putting a child in a map changes the sum of totals by the difference it makes. */
  lemma TotalsWithChild(children: map<Key, FlameGraph>, key: Key, child: FlameGraph)
    ensures SumOf(Totals(children[key := child])) + SizeOr0(Totals(children), key)
         == SumOf(Totals(children)) + TotalSize(child)
  {
    var after := children[key := child];
    TakeOut(Totals(children), key);
    TakeOut(Totals(after), key);
    assert Totals(after) - {key} == Totals(children) - {key};
  }

  /** The size of the node at a path of names, 0 where there is none. */
  function SizeAt(g: FlameGraph, path: seq<Key>): nat
    decreases |path|
  {
    if path == [] then g.nodeSize
    else if path[0] in g.children then SizeAt(g.children[path[0]], path[1..])
    else 0
  }

  /** Merging adds sizes path by path. */
  lemma {:induction false} MergeAddsPaths(a: FlameGraph, b: FlameGraph, path: seq<Key>)
    ensures SizeAt(Merged(a, b), path) == SizeAt(a, path) + SizeAt(b, path)
    decreases |path|
  {
    if path != [] && path[0] in a.children && path[0] in b.children {
      MergeAddsPaths(a.children[path[0]], b.children[path[0]], path[1..]);
    }
  }

  /** Flame graphs may be merged in either order. */
  lemma {:induction false} MergeCommutes(a: FlameGraph, b: FlameGraph)
    requires Exact(a) && Exact(b)
    ensures Merged(a, b) == Merged(b, a)
    decreases b
  {
    var ab, ba := Merged(a, b), Merged(b, a);
    forall k | k in ab.children
      ensures ab.children[k] == ba.children[k]
    {
      if k in a.children && k in b.children {
        MergeCommutes(a.children[k], b.children[k]);
      }
    }
    assert ab.children == ba.children;
  }
}
