/** The size left to each arena node once its children's are taken off, and the flame graph that gives. */
module ArenaSizes {
  import opened Wrappers
  import opened FlameGraph
  import opened Arena

  ghost function ChildSizes(trees: Trees, id: TreeId): map<Key, nat>
    requires WellFormed(trees) && id < |trees|
  {
    map k | k in trees[id].children :: SizeOfNode(trees, trees[id].children[k])
  }

  function SizeOfNode(trees: Trees, id: TreeId): nat {
    if id < |trees| then trees[id].size else 0
  }

  /** What a node keeps of its size: all of it if it points to its children rather than holding them. */
  ghost function Remainder(trees: Trees, id: TreeId): int
    requires WellFormed(trees) && id < |trees|
  {
    trees[id].size - if trees[id].isUnique then 0 else SumOf(ChildSizes(trees, id))
  }

  ghost predicate Settled(base: Trees, trees: Trees, i: TreeId)
    requires WellFormed(base)
  {
    i < |base| == |trees| && trees[i] == base[i].(remSize := Remainder(base, i))
  }

  /** Some nodes have their remainder filled in, and nothing else has changed. */
  ghost predicate PartlySettled(base: Trees, trees: Trees)
    requires WellFormed(base)
  {
    |trees| == |base| && forall i: TreeId | i < |base| :: trees[i] == base[i] || Settled(base, trees, i)
  }

  lemma PartlySettledWellFormed(base: Trees, trees: Trees)
    requires WellFormed(base) && PartlySettled(base, trees)
    ensures WellFormed(trees)
  {
    SameChildrenWellFormed(base, trees);
  }

  /** A node at or under another. */
  ghost predicate Below(trees: Trees, top: TreeId, i: TreeId)
    decreases i
  {
    i == top || exists parent: TreeId, k :: parent < i && HasChild(trees, parent, k, i) && Below(trees, top, parent)
  }

  /** What is under a node is under one of its children. */
  lemma {:induction false} BelowAChild(trees: Trees, top: TreeId, i: TreeId)
    requires WellFormed(trees) && Below(trees, top, i) && i != top
    ensures exists k, child: TreeId :: HasChild(trees, top, k, child) && Below(trees, child, i)
    decreases i
  {
    var parent: TreeId, l :| parent < i && HasChild(trees, parent, l, i) && Below(trees, top, parent);
    if parent == top {
      assert Below(trees, i, i);
    } else {
      BelowAChild(trees, top, parent);
      var k, child: TreeId :| HasChild(trees, top, k, child) && Below(trees, child, parent);
      assert Below(trees, child, i);
    }
  }

  lemma {:induction false} AllBelowRoot(trees: Trees, i: TreeId)
    requires WellFormed(trees) && i < |trees|
    ensures Below(trees, 0, i)
    decreases i
  {
    if i != 0 {
      assert HasParent(trees, i);
      var parent: TreeId, k :| HasChild(trees, parent, k, i);
      AllBelowRoot(trees, parent);
    }
  }

  /** Adds up the sizes of a node's children. */
  method SumChildSizes(trees: Trees, id: TreeId) returns (sum: nat)
    requires WellFormed(trees) && id < |trees|
    ensures sum == SumOf(ChildSizes(trees, id))
  {
    sum := 0;
    var left := map k | k in trees[id].children :: SizeOfNode(trees, trees[id].children[k]);
    while left != map[]
      invariant sum + SumOf(left) == SumOf(ChildSizes(trees, id))
      decreases |left|
    {
      SomeKey(left);
      var k :| k in left;
      SumWithout(left, k);
      SmallerMap(left, k);
      sum := sum + left[k];
      left := left - {k};
    }
  }

  // ---------- the flame graph of an arena ----------

  function Shown(remainder: int, top: bool): nat {
    if top || remainder < 0 then 0 else remainder
  }

  ghost function Graph(trees: Trees, id: TreeId, top: bool): FlameGraph
    requires WellFormed(trees) && id < |trees|
    decreases |trees| - id
  {
    var children := ChildGraphs(trees, id);
    FlameGraph(children, SumOf(Totals(children)), Shown(trees[id].remSize, top))
  }

  ghost function ChildGraphs(trees: Trees, id: TreeId): map<Key, FlameGraph>
    requires WellFormed(trees) && id < |trees|
    decreases |trees| - id, 0
  {
    map k | k in trees[id].children ::
      (assert HasChild(trees, id, k, trees[id].children[k]); Graph(trees, trees[id].children[k], false))
  }

  /** Turns a node and what is under it into a flame graph; the root shows no size of its own. */
  method WriteFlameGraph(trees: Trees, id: TreeId, top: bool) returns (g: FlameGraph)
    requires WellFormed(trees) && id < |trees|
    ensures g == Graph(trees, id, top)
    decreases |trees| - id
  {
    g := FlameGraph(map[], 0, Shown(trees[id].remSize, top));
    var left := trees[id].children;
    ghost var graphs := ChildGraphs(trees, id);
    GraphFromNothing(graphs, g.nodeSize);
    while left != map[]
      invariant left.Keys <= trees[id].children.Keys && forall k | k in left :: left[k] == trees[id].children[k]
      invariant graphs.Keys == left.Keys && forall k | k in graphs :: graphs[k] == ChildGraphs(trees, id)[k]
      invariant Merged(g, FlameGraph(graphs, 0, 0)) == Graph(trees, id, top)
      decreases |left|
    {
      SomeKey(left);
      var k :| k in left;
      assert HasChild(trees, id, k, left[k]);
      var child := WriteFlameGraph(trees, left[k], false);
      OneChildFirst(g, graphs, k);
      SmallerMap(left, k);
      g := AddChild(g, k, child);
      left, graphs := left - {k}, graphs - {k};
    }
    assert graphs == map[];
    NothingLeft(g);
  }

  lemma GraphFromNothing(graphs: map<Key, FlameGraph>, size: nat)
    ensures Merged(FlameGraph(map[], 0, size), FlameGraph(graphs, 0, 0))
         == FlameGraph(graphs, SumOf(Totals(graphs)), size)
  {
    assert Merged(FlameGraph(map[], 0, size), FlameGraph(graphs, 0, 0)).children == graphs;
  }

  lemma {:induction false} GraphIsExact(trees: Trees, id: TreeId, top: bool)
    requires WellFormed(trees) && id < |trees|
    ensures Exact(Graph(trees, id, top))
    decreases |trees| - id
  {
    forall k | k in trees[id].children
      ensures Exact(ChildGraphs(trees, id)[k])
    {
      assert HasChild(trees, id, k, trees[id].children[k]);
      GraphIsExact(trees, trees[id].children[k], false);
    }
  }

  /** The graph shows at each path the remainder of the node there. */
  lemma {:induction false} GraphShows(trees: Trees, id: TreeId, top: bool, path: seq<Key>)
    requires WellFormed(trees) && id < |trees|
    ensures SizeAt(Graph(trees, id, top), path) ==
      var node := WalkFrom(trees, id, path);
      if node.Some? && node.value < |trees| then Shown(trees[node.value].remSize, top && path == []) else 0
    decreases |path|
  {
    if path != [] && path[0] in trees[id].children {
      assert HasChild(trees, id, path[0], trees[id].children[path[0]]);
      GraphShows(trees, trees[id].children[path[0]], false, path[1..]);
    }
  }
}
