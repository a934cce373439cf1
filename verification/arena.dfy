/** The arena a flame graph is built in: nodes that name their children by position. */
module Arena {
  import opened Wrappers
  import opened FlameGraph

  type TreeId = nat

  datatype TreeData = TreeData(size: nat, remSize: int, isUnique: bool, children: map<Key, TreeId>)

  const NEW_TREE: TreeData := TreeData(0, 0, false, map[])

  type Trees = seq<TreeData>

  /** The nodes from the root down to, but not including, the current one. */
  datatype TreeStack = TreeStack(stack: seq<TreeId>, tree: TreeId)

  const AT_ROOT: TreeStack := TreeStack([], 0)

  ghost predicate HasChild(trees: Trees, id: TreeId, k: Key, child: TreeId) {
    id < |trees| && k in trees[id].children && trees[id].children[k] == child
  }

  ghost predicate ChildrenComeLater(trees: Trees) {
    forall id: TreeId, k, child: TreeId | HasChild(trees, id, k, child) :: id < child < |trees|
  }

  ghost predicate OneParent(trees: Trees) {
    forall i: TreeId, k, j: TreeId, l, child: TreeId | HasChild(trees, i, k, child) && HasChild(trees, j, l, child) ::
      i == j && k == l
  }

  ghost predicate HasParent(trees: Trees, child: TreeId) {
    exists id: TreeId, k :: HasChild(trees, id, k, child)
  }

  /** Child ids exceed their parent's, and each node but the root has exactly one parent. */
  ghost predicate WellFormed(trees: Trees) {
    && |trees| > 0
    && ChildrenComeLater(trees)
    && OneParent(trees)
    && forall id: TreeId | 0 < id < |trees| :: HasParent(trees, id)
  }

  /** The node a path of names leads to from a node. */
  function WalkFrom(trees: Trees, id: TreeId, path: seq<Key>): Option<TreeId>
    decreases |path|
  {
    if path == [] then Some(id)
    else if id < |trees| && path[0] in trees[id].children
    then WalkFrom(trees, trees[id].children[path[0]], path[1..])
    else None
  }

  /** The node a path of names leads to from the root. */
  function NodeAt(trees: Trees, path: seq<Key>): Option<TreeId> {
    WalkFrom(trees, 0, path)
  }

  /** One name farther. */
  function ChildAt(trees: Trees, parent: Option<TreeId>, k: Key): Option<TreeId> {
    if parent.Some? && parent.value < |trees| && k in trees[parent.value].children
    then Some(trees[parent.value].children[k])
    else None
  }

  lemma {:induction false} WalkFromBack(trees: Trees, id: TreeId, path: seq<Key>, k: Key)
    ensures WalkFrom(trees, id, path + [k]) == ChildAt(trees, WalkFrom(trees, id, path), k)
    decreases |path|
  {
    if path == [] {
      assert path + [k] == [k];
    } else {
      assert (path + [k])[1..] == path[1..] + [k];
      if id < |trees| && path[0] in trees[id].children {
        WalkFromBack(trees, trees[id].children[path[0]], path[1..], k);
      }
    }
  }

  /** A path leads where its last name does from the node before. */
  lemma LastName(trees: Trees, path: seq<Key>)
    requires path != []
    ensures NodeAt(trees, path) == ChildAt(trees, NodeAt(trees, path[..|path| - 1]), path[|path| - 1])
  {
    assert path == path[..|path| - 1] + [path[|path| - 1]];
    WalkFromBack(trees, 0, path[..|path| - 1], path[|path| - 1]);
  }

  lemma {:induction false} NodeStaysInside(trees: Trees, path: seq<Key>)
    requires WellFormed(trees)
    ensures NodeAt(trees, path).Some? ==> NodeAt(trees, path).value < |trees|
    ensures NodeAt(trees, path) == Some(0) <==> path == []
    decreases |path|
  {
    if path != [] {
      var front, k := path[..|path| - 1], path[|path| - 1];
      LastName(trees, path);
      NodeStaysInside(trees, front);
      if NodeAt(trees, path).Some? {
        assert HasChild(trees, NodeAt(trees, front).value, k, NodeAt(trees, path).value);
      }
    }
  }

  /** A node is at one path only. */
  lemma {:induction false} NodeHasOnePath(trees: Trees, p: seq<Key>, q: seq<Key>)
    requires WellFormed(trees) && NodeAt(trees, p).Some? && NodeAt(trees, p) == NodeAt(trees, q)
    ensures p == q
    decreases |p|
  {
    NodeStaysInside(trees, p);
    NodeStaysInside(trees, q);
    if p != [] {
      var pFront, qFront := p[..|p| - 1], q[..|q| - 1];
      var k, l := p[|p| - 1], q[|q| - 1];
      LastName(trees, p);
      LastName(trees, q);
      NodeStaysInside(trees, pFront);
      NodeStaysInside(trees, qFront);
      var child := NodeAt(trees, p).value;
      assert HasChild(trees, NodeAt(trees, pFront).value, k, child);
      assert HasChild(trees, NodeAt(trees, qFront).value, l, child);
      NodeHasOnePath(trees, pFront, qFront);
      assert p == pFront + [k] && q == qFront + [l];
    }
  }

  /** What is recorded at a path: the sizes entered there, and whether it was entered as unique. */
  datatype Mark = Mark(size: nat, isUnique: bool)

  function MarkAt(trees: Trees, path: seq<Key>): Option<Mark> {
    var id := NodeAt(trees, path);
    if id.Some? && id.value < |trees| then Some(Mark(trees[id.value].size, trees[id.value].isUnique)) else None
  }

  /** The stack holds the nodes along a path, and the current node is the one at its end. */
  ghost predicate StackAt(trees: Trees, s: TreeStack, path: seq<Key>) {
    && |s.stack| == |path|
    && NodeAt(trees, path) == Some(s.tree)
    && forall i | 0 <= i < |path| :: NodeAt(trees, path[..i]) == Some(s.stack[i])
  }

  // ---------- growing the arena ----------

  /** The arena with a new node under a name that was free. */
  function Grown(trees: Trees, id: TreeId, k: Key): Trees
    requires id < |trees|
  {
    trees[id := trees[id].(children := trees[id].children[k := |trees|])] + [NEW_TREE]
  }

  lemma GrownChildren(trees: Trees, id: TreeId, k: Key)
    requires WellFormed(trees) && id < |trees| && k !in trees[id].children
    ensures forall i: TreeId, l, child: TreeId :: HasChild(Grown(trees, id, k), i, l, child) <==>
      HasChild(trees, i, l, child) || (i == id && l == k && child == |trees|)
  {
  }

  lemma GrownIsWellFormed(trees: Trees, id: TreeId, k: Key)
    requires WellFormed(trees) && id < |trees| && k !in trees[id].children
    ensures WellFormed(Grown(trees, id, k))
  {
    var after := Grown(trees, id, k);
    GrownChildren(trees, id, k);
    forall child: TreeId | 0 < child < |after|
      ensures HasParent(after, child)
    {
      if child == |trees| {
        assert HasChild(after, id, k, child);
      } else {
        assert HasParent(trees, child);
        var i: TreeId, l :| HasChild(trees, i, l, child);
        assert HasChild(after, i, l, child);
      }
    }
  }

  /** Growing adds one path, and leaves every other as it was. */
  lemma {:induction false} GrownNodes(trees: Trees, path: seq<Key>, k: Key, q: seq<Key>)
    requires WellFormed(trees) && NodeAt(trees, path).Some? && NodeAt(trees, path).value < |trees|
    requires k !in trees[NodeAt(trees, path).value].children
    ensures NodeAt(Grown(trees, NodeAt(trees, path).value, k), q)
         == if q == path + [k] then Some(|trees|) else NodeAt(trees, q)
    decreases |q|
  {
    var id := NodeAt(trees, path).value;
    if q == [] {
      assert q != path + [k];
    } else {
      var front := q[..|q| - 1];
      GrownNodes(trees, path, k, front);
      LastName(trees, q);
      LastName(Grown(trees, id, k), q);
      NodeStaysInside(trees, front);
      if NodeAt(trees, front) == Some(id) {
        NodeHasOnePath(trees, front, path);
      }
      if front == path + [k] {
        WalkFromBack(trees, 0, path, k);
      }
      assert q == front + [q[|q| - 1]];
    }
  }

  /** Changing a node's own data, not its children, moves no path. */
  lemma {:induction false} SameChildrenSameNodes(a: Trees, b: Trees, id: TreeId, path: seq<Key>)
    requires |a| == |b| && forall i | 0 <= i < |a| :: a[i].children == b[i].children
    ensures WalkFrom(a, id, path) == WalkFrom(b, id, path)
    decreases |path|
  {
    if path != [] && id < |a| && path[0] in a[id].children {
      SameChildrenSameNodes(a, b, a[id].children[path[0]], path[1..]);
    }
  }

  lemma SameChildrenWellFormed(a: Trees, b: Trees)
    requires WellFormed(a) && |a| == |b| && forall i | 0 <= i < |a| :: a[i].children == b[i].children
    ensures WellFormed(b)
  {
    assert forall i: TreeId, k, child: TreeId :: HasChild(a, i, k, child) <==> HasChild(b, i, k, child);
    forall id: TreeId | 0 < id < |b|
      ensures HasParent(b, id)
    {
      assert HasParent(a, id);
      var i: TreeId, k :| HasChild(a, i, k, id);
      assert HasChild(b, i, k, id);
    }
  }

  // ---------- entering a node ----------

  /** Every path of one arena leads to the same node in the other. */
  ghost predicate Extends(a: Trees, b: Trees) {
    forall p | NodeAt(a, p).Some? :: NodeAt(b, p) == NodeAt(a, p)
  }

  /** The arena once a name has been entered below a node: a new node under it only if it was free. */
  function Descended(trees: Trees, id: TreeId, k: Key): Trees
    requires id < |trees|
  {
    if k in trees[id].children then trees else Grown(trees, id, k)
  }

  function ChildOrNew(trees: Trees, id: TreeId, k: Key): TreeId
    requires id < |trees|
  {
    if k in trees[id].children then trees[id].children[k] else |trees|
  }

  function Sized(trees: Trees, id: TreeId, size: nat, isUnique: bool): Trees
    requires id < |trees|
  {
    trees[id := trees[id].(size := trees[id].size + size, isUnique := trees[id].isUnique || isUnique)]
  }

  function SizeOf(mark: Option<Mark>): nat {
    if mark.Some? then mark.value.size else 0
  }

  function Accrued(mark: Option<Mark>, size: nat, isUnique: bool): Mark {
    Mark(SizeOf(mark) + size, (mark.Some? && mark.value.isUnique) || isUnique)
  }

  /** One path, and no other, now has this recorded. */
  ghost predicate MarkedAt(a: Trees, b: Trees, path: seq<Key>, mark: Mark) {
    MarkAt(b, path) == Some(mark) && forall q | q != path :: MarkAt(b, q) == MarkAt(a, q)
  }

  /** One path, and no other, now leads to this node. */
  ghost predicate LeadsTo(a: Trees, b: Trees, path: seq<Key>, id: TreeId) {
    NodeAt(b, path) == Some(id) && forall q | q != path :: NodeAt(b, q) == NodeAt(a, q)
  }

  lemma DescendedNodes(trees: Trees, path: seq<Key>, k: Key)
    requires WellFormed(trees) && NodeAt(trees, path).Some? && NodeAt(trees, path).value < |trees|
    ensures var id := NodeAt(trees, path).value; var after := Descended(trees, id, k);
      && WellFormed(after) && ChildOrNew(trees, id, k) < |after|
      && LeadsTo(trees, after, path + [k], ChildOrNew(trees, id, k))
      && Extends(trees, after)
  {
    var id := NodeAt(trees, path).value;
    WalkFromBack(trees, 0, path, k);
    if k in trees[id].children {
      assert HasChild(trees, id, k, trees[id].children[k]);
    } else {
      GrownIsWellFormed(trees, id, k);
      forall q
        ensures NodeAt(Grown(trees, id, k), q) == if q == path + [k] then Some(|trees|) else NodeAt(trees, q)
      {
        GrownNodes(trees, path, k, q);
      }
    }
  }

  lemma SizedNodes(trees: Trees, id: TreeId, size: nat, isUnique: bool)
    requires WellFormed(trees) && id < |trees|
    ensures var after := Sized(trees, id, size, isUnique);
      WellFormed(after) && forall q :: NodeAt(after, q) == NodeAt(trees, q)
  {
    var after := Sized(trees, id, size, isUnique);
    SameChildrenWellFormed(trees, after);
    forall q
      ensures NodeAt(after, q) == NodeAt(trees, q)
    {
      SameChildrenSameNodes(trees, after, 0, q);
    }
  }

  lemma SizedMarks(trees: Trees, path: seq<Key>, size: nat, isUnique: bool)
    requires WellFormed(trees) && NodeAt(trees, path).Some? && NodeAt(trees, path).value < |trees|
    ensures MarkedAt(trees, Sized(trees, NodeAt(trees, path).value, size, isUnique), path,
                     Accrued(MarkAt(trees, path), size, isUnique))
  {
    var id := NodeAt(trees, path).value;
    var after := Sized(trees, id, size, isUnique);
    SizedNodes(trees, id, size, isUnique);
    forall q | q != path
      ensures MarkAt(after, q) == MarkAt(trees, q)
    {
      if NodeAt(trees, q) == Some(id) {
        NodeHasOnePath(trees, q, path);
      }
    }
  }

  /** A node that entering created has nothing recorded yet. */
  lemma DescendedMarks(trees: Trees, path: seq<Key>, k: Key)
    requires WellFormed(trees) && NodeAt(trees, path).Some? && NodeAt(trees, path).value < |trees|
    ensures MarkedAt(trees, Descended(trees, NodeAt(trees, path).value, k), path + [k],
                     Accrued(MarkAt(trees, path + [k]), 0, false))
  {
    var id := NodeAt(trees, path).value;
    var after := Descended(trees, id, k);
    DescendedNodes(trees, path, k);
    forall q | q != path + [k]
      ensures MarkAt(after, q) == MarkAt(trees, q)
    {
      NodeStaysInside(trees, q);
    }
    WalkFromBack(trees, 0, path, k);
    NodeStaysInside(trees, path + [k]);
  }

  lemma MarkedTwice(a: Trees, b: Trees, c: Trees, path: seq<Key>, first: Mark, second: Mark)
    requires MarkedAt(a, b, path, first) && MarkedAt(b, c, path, second)
    ensures MarkedAt(a, c, path, second)
  {
  }

  /** Entering a name accrues its size at one path, and touches no other. */
  lemma EnteringMarks(trees: Trees, path: seq<Key>, k: Key, size: nat, isUnique: bool)
    requires WellFormed(trees) && NodeAt(trees, path).Some? && NodeAt(trees, path).value < |trees|
    ensures var id := NodeAt(trees, path).value; var child := ChildOrNew(trees, id, k);
      var grown := Descended(trees, id, k);
      && child < |grown|
      && var after := Sized(grown, child, size, isUnique);
      && WellFormed(after) && Extends(trees, after) && NodeAt(after, path + [k]) == Some(child)
      && MarkedAt(trees, after, path + [k], Accrued(MarkAt(trees, path + [k]), size, isUnique))
  {
    var id := NodeAt(trees, path).value;
    var child := ChildOrNew(trees, id, k);
    var grown := Descended(trees, id, k);
    DescendedNodes(trees, path, k);
    DescendedMarks(trees, path, k);
    SizedNodes(grown, child, size, isUnique);
    SizedMarks(grown, path + [k], size, isUnique);
    var first := Accrued(MarkAt(trees, path + [k]), 0, false);
    var after := Sized(grown, child, size, isUnique);
    MarkedTwice(trees, grown, after, path + [k], first, Accrued(Some(first), size, isUnique));
  }
}
