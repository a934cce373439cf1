/** Building a flame graph from a visit: names entered and exited, with detours through shared pointers. */
module FlameGraphBuilder {
  import opened Wrappers
  import opened FlameGraph
  import opened Arena
  import opened ArenaSizes

  /** One node of a visit: what is entered, what is visited while inside, and the exit that matches it. */
  datatype Visit =
    | Inline(name: Key, size: nat, body: seq<Visit>)
    | Unique(name: Key, size: nat, body: seq<Visit>)
    | Shared(name: Key, size: nat, pointer: nat, body: seq<Visit>)

  // ---------- what a visit comes to, without an arena ----------

  /** A size entered at a path of names. */
  datatype Entry = Entry(path: seq<Key>, size: nat, isUnique: bool)

  /**
   * The entries of a sequence of visits below a path, and the shared pointers visited after them. What a
   * shared pointer points to is entered once only, and at the top.
   */
  function Entries(visits: seq<Visit>, path: seq<Key>, visited: set<nat>): (seq<Entry>, set<nat>)
    decreases visits
  {
    if visits == [] then
      ([], visited)
    else
      var (first, between) := EntriesOf(visits[0], path, visited);
      var (rest, after) := Entries(visits[1..], path, between);
      (first + rest, after)
  }

  function EntriesOf(visit: Visit, path: seq<Key>, visited: set<nat>): (seq<Entry>, set<nat>)
    decreases visit
  {
    var inside := path + [visit.name];
    match visit
    case Inline(_, size, body) =>
      var (entries, after) := Entries(body, inside, visited);
      ([Entry(inside, size, false)] + entries, after)
    case Unique(_, size, body) =>
      var (entries, after) := Entries(body, inside, visited);
      ([Entry(inside, size, true)] + entries, after)
    case Shared(_, size, pointer, body) =>
      if pointer in visited then
        ([Entry(inside, size, false)], visited)
      else
        var (entries, after) := Entries(body, [], visited + {pointer});
        ([Entry(inside, size, false)] + entries, after)
  }

  function RootsEntries(roots: seq<seq<Visit>>, visited: set<nat>): (seq<Entry>, set<nat>)
    decreases |roots|
  {
    if roots == [] then
      ([], visited)
    else
      var (first, between) := Entries(roots[0], [], visited);
      var (rest, after) := RootsEntries(roots[1..], between);
      (first + rest, after)
  }

  /** What a path has recorded after some entries. */
  function After(mark: Option<Mark>, entries: seq<Entry>, path: seq<Key>): Option<Mark>
    decreases |entries|
  {
    if entries == [] then
      mark
    else
      var next := if entries[0].path == path
        then Some(Accrued(mark, entries[0].size, entries[0].isUnique)) else mark;
      After(next, entries[1..], path)
  }

  lemma {:induction false} AfterJoins(mark: Option<Mark>, a: seq<Entry>, b: seq<Entry>, path: seq<Key>)
    ensures After(mark, a + b, path) == After(After(mark, a, path), b, path)
    decreases |a|
  {
    if a == [] {
      assert a + b == b;
    } else {
      assert (a + b)[1..] == a[1..] + b;
      var next := if a[0].path == path then Some(Accrued(mark, a[0].size, a[0].isUnique)) else mark;
      AfterJoins(next, a[1..], b, path);
    }
  }

  /** The arena now records what it recorded before, plus the entries, at every path. */
  ghost predicate Records(before: Trees, after: Trees, entries: seq<Entry>) {
    forall p :: MarkAt(after, p) == After(MarkAt(before, p), entries, p)
  }

  lemma RecordsJoin(a: Trees, b: Trees, c: Trees, first: seq<Entry>, second: seq<Entry>)
    requires Records(a, b, first) && Records(b, c, second)
    ensures Records(a, c, first + second)
  {
    forall p
      ensures MarkAt(c, p) == After(MarkAt(a, p), first + second, p)
    {
      AfterJoins(MarkAt(a, p), first, second, p);
    }
  }

  // ---------- the builder ----------

  /** The current position and the suspended ones stand at these paths. */
  ghost predicate Positioned(
    trees: Trees, current: TreeStack, path: seq<Key>, shared: seq<TreeStack>, detours: seq<seq<Key>>)
  {
    && StackAt(trees, current, path)
    && |shared| == |detours|
    && forall i | 0 <= i < |shared| :: StackAt(trees, shared[i], detours[i]) && detours[i] != []
  }

  class FlameGraphBuilder {
    var visitedShared: set<nat>
    var trees: Trees
    var current: TreeStack
    var shared: seq<TreeStack>
    var enteredRootVisitor: bool
    ghost var path: seq<Key>
    ghost var detours: seq<seq<Key>>

    ghost predicate Valid()
      reads this
    {
      && WellFormed(trees)
      && Positioned(trees, current, path, shared, detours)
      && (!enteredRootVisitor ==> path == [] && detours == [])
    }

    constructor ()
      ensures Valid() && !enteredRootVisitor && visitedShared == {} && trees == [NEW_TREE]
    {
      visitedShared, trees, current, shared := {}, [NEW_TREE], AT_ROOT, [];
      enteredRootVisitor := false;
      path, detours := [], [];
    }

    /** Moves to the child of that name, making it if there is none. */
    method Down(key: Key)
      requires Valid() && enteredRootVisitor && current.tree < |trees|
      modifies `trees, `current, `path
      ensures Valid()
      ensures trees == Descended(old(trees), old(current).tree, key)
      ensures path == old(path) + [key]
      ensures current == TreeStack(old(current).stack + [old(current).tree],
                                   ChildOrNew(old(trees), old(current).tree, key))
    {
      NodeStaysInside(trees, path);
      DescendedNodes(trees, path, key);
      DescendedPosition(trees, current, path, shared, detours, key);
      var parent := current.tree;
      var stack := current.stack + [parent];
      var next := |trees|;
      if key in trees[parent].children {
        current := TreeStack(stack, trees[parent].children[key]);
      } else {
        trees := trees[parent := trees[parent].(children := trees[parent].children[key := next])];
        trees := trees + [NEW_TREE];
        current := TreeStack(stack, next);
      }
      path := path + [key];
    }

    /** Moves back to the parent; false at the start of a stack. */
    method Up() returns (moved: bool)
      modifies `current
      ensures moved <==> old(current).stack != []
      ensures current == if moved
        then TreeStack(old(current).stack[..|old(current).stack| - 1], old(current).stack[|old(current).stack| - 1])
        else old(current)
    {
      if current.stack == [] {
        return false;
      }
      var last := |current.stack| - 1;
      current := TreeStack(current.stack[..last], current.stack[last]);
      return true;
    }

    /** Leaves a node, the target of a shared pointer together with the pointer, or the root. */
    method Exit()
      requires Valid() && enteredRootVisitor
      modifies `current, `shared, `enteredRootVisitor, `path, `detours
      ensures Valid()
      ensures old(path) != [] ==>
        && enteredRootVisitor && shared == old(shared) && detours == old(detours)
        && path == old(path)[..|old(path)| - 1]
        && current == TreeStack(old(current).stack[..|path|], old(current).stack[|path|])
      ensures old(path) == [] && old(shared) != [] ==>
        var n := |old(shared)| - 1; var suspended := old(shared)[n]; var m := |old(detours)[n]| - 1;
        && enteredRootVisitor && shared == old(shared)[..n] && detours == old(detours)[..n]
        && path == old(detours)[n][..m] && |suspended.stack| == m + 1
        && current == TreeStack(suspended.stack[..m], suspended.stack[m])
      ensures old(path) == [] && old(shared) == [] ==> !enteredRootVisitor && shared == [] && current == old(current)
    {
      var up := Up();
      if up {
        UpPosition(trees, old(current), path);
        path := path[..|path| - 1];
      } else if shared != [] {
        var last := |shared| - 1;
        current := shared[last];
        shared := shared[..last];
        path, detours := detours[last], detours[..last];
        UpPosition(trees, current, path);
        up := Up();
        assert up;
        path := path[..|path| - 1];
      } else {
        enteredRootVisitor := false;
      }
    }

    /** Enters a name and accrues a size there. */
    method Enter(name: Key, size: nat, isUnique: bool)
      requires Valid() && enteredRootVisitor
      modifies `trees, `current, `path
      ensures Valid() && Extends(old(trees), trees)
      ensures Records(old(trees), trees, [Entry(old(path) + [name], size, isUnique)])
      ensures path == old(path) + [name]
      ensures |current.stack| == |path| && current.stack == old(current).stack + [old(current).tree]
    {
      NodeStaysInside(trees, path);
      EnteringMarks(trees, path, name, size, isUnique);
      Down(name);
      var id := current.tree;
      trees := trees[id := trees[id].(size := trees[id].size + size)];
      if isUnique {
        trees := trees[id := trees[id].(isUnique := true)];
      }
      assert trees == Sized(Descended(old(trees), old(current).tree, name), id, size, isUnique);
      PositionExtends(old(trees), trees, old(current), old(path), shared, detours);
      EnteredPosition(old(trees), trees, old(current), current, old(path), name);
    }

    /** Enters a shared pointer; false, and left again, if what it points to was visited. */
    method EnterShared(name: Key, size: nat, pointer: nat) returns (first: bool)
      requires Valid() && enteredRootVisitor
      modifies this
      ensures Valid() && enteredRootVisitor && Extends(old(trees), trees)
      ensures Records(old(trees), trees, [Entry(old(path) + [name], size, false)])
      ensures first <==> pointer !in old(visitedShared)
      ensures visitedShared == old(visitedShared) + {pointer}
      ensures !first ==>
        path == old(path) && detours == old(detours) && current == old(current) && shared == old(shared)
      ensures first ==>
        && path == [] && detours == old(detours) + [old(path) + [name]] && current == AT_ROOT
        && |shared| == |old(shared)| + 1 && shared[..|old(shared)|] == old(shared)
        && shared[|old(shared)|].stack == old(current).stack + [old(current).tree]
    {
      Enter(name, size, false);
      if pointer in visitedShared {
        Exit();
        assert path == old(path);
        return false;
      }
      visitedShared := visitedShared + {pointer};
      shared, detours := shared + [current], detours + [path];
      current, path := AT_ROOT, [];
      return true;
    }

    /** Visits in order; every visit ends where it began. */
    method VisitAll(visits: seq<Visit>)
      requires Valid() && enteredRootVisitor
      modifies this
      ensures Valid() && enteredRootVisitor && Extends(old(trees), trees)
      ensures path == old(path) && detours == old(detours) && current == old(current) && shared == old(shared)
      ensures visitedShared == Entries(visits, old(path), old(visitedShared)).1
      ensures Records(old(trees), trees, Entries(visits, old(path), old(visitedShared)).0)
      decreases visits
    {
      if visits != [] {
        VisitOne(visits[0]);
        ghost var between, middle := trees, visitedShared;
        VisitAll(visits[1..]);
        RecordsJoin(old(trees), between, trees, EntriesOf(visits[0], path, old(visitedShared)).0,
                    Entries(visits[1..], path, middle).0);
      }
    }

    method VisitOne(visit: Visit)
      requires Valid() && enteredRootVisitor
      modifies this
      ensures Valid() && enteredRootVisitor && Extends(old(trees), trees)
      ensures path == old(path) && detours == old(detours) && current == old(current) && shared == old(shared)
      ensures visitedShared == EntriesOf(visit, old(path), old(visitedShared)).1
      ensures Records(old(trees), trees, EntriesOf(visit, old(path), old(visitedShared)).0)
      decreases visit
    {
      ghost var inside := path + [visit.name];
      if visit.Shared? {
        var first := EnterShared(visit.name, visit.size, visit.pointer);
        if first {
          VisitInside(visit, [Entry(inside, visit.size, false)], old(trees));
        } else {
          assert visitedShared == old(visitedShared);
        }
      } else {
        Enter(visit.name, visit.size, visit.Unique?);
        VisitInside(visit, [Entry(inside, visit.size, visit.Unique?)], old(trees));
      }
    }

    /** The rest of a visit once entered: its body, then the exit that matches the entry. */
    method VisitInside(visit: Visit, ghost entered: seq<Entry>, ghost before: Trees)
      requires Valid() && enteredRootVisitor && (path != [] || shared != [])
      requires Extends(before, trees) && Records(before, trees, entered)
      modifies this
      ensures Valid() && enteredRootVisitor && Extends(before, trees)
      ensures visitedShared == Entries(visit.body, old(path), old(visitedShared)).1
      ensures Records(before, trees, entered + Entries(visit.body, old(path), old(visitedShared)).0)
      ensures old(path) != [] ==>
        && shared == old(shared) && detours == old(detours) && path == old(path)[..|old(path)| - 1]
        && |old(current).stack| == |old(path)|
        && current == TreeStack(old(current).stack[..|path|], old(current).stack[|path|])
      ensures old(path) == [] ==>
        var n := |old(shared)| - 1; var suspended := old(shared)[n];
        && |old(detours)| == n + 1 && |suspended.stack| == |old(detours)[n]| > 0
        && var m := |suspended.stack| - 1;
        && shared == old(shared)[..n] && detours == old(detours)[..n] && path == old(detours)[n][..m]
        && current == TreeStack(suspended.stack[..m], suspended.stack[m])
      decreases visit, 0
    {
      ghost var start := trees;
      VisitAll(visit.body);
      RecordsJoin(before, start, trees, entered, Entries(visit.body, path, old(visitedShared)).0);
      Exit();
    }

    /** Visits one root. */
    method VisitRoot(visits: seq<Visit>)
      requires Valid() && !enteredRootVisitor
      modifies this
      ensures Valid() && !enteredRootVisitor
      ensures visitedShared == Entries(visits, [], old(visitedShared)).1
      ensures Records(old(trees), trees, Entries(visits, [], old(visitedShared)).0)
    {
      enteredRootVisitor := true;
      VisitAll(visits);
      Exit();
    }

    /** Visits every root, one after the other. */
    method VisitRoots(roots: seq<seq<Visit>>)
      requires Valid() && !enteredRootVisitor
      modifies this
      ensures Valid() && !enteredRootVisitor
      ensures visitedShared == RootsEntries(roots, old(visitedShared)).1
      ensures Records(old(trees), trees, RootsEntries(roots, old(visitedShared)).0)
    {
      ghost var done: seq<Entry> := [];
      assert roots[0..] == roots && done + RootsEntries(roots, visitedShared).0 == RootsEntries(roots, visitedShared).0;
      for i := 0 to |roots|
        invariant Valid() && !enteredRootVisitor
        invariant Records(old(trees), trees, done)
        invariant var rest := RootsEntries(roots[i..], visitedShared);
          RootsEntries(roots, old(visitedShared)) == (done + rest.0, rest.1)
      {
        assert roots[i..][1..] == roots[i + 1..];
        ghost var before, visited := trees, visitedShared;
        VisitRoot(roots[i]);
        ghost var entries := Entries(roots[i], [], visited).0;
        RecordsJoin(old(trees), before, trees, done, entries);
        assert done + (entries + RootsEntries(roots[i + 1..], visitedShared).0)
            == done + entries + RootsEntries(roots[i + 1..], visitedShared).0;
        done := done + entries;
      }
      assert done + [] == done;
    }

    /** Fills in the remainder of a node and of every node under it. */
    method UpdateSizes(id: TreeId, ghost base: Trees)
      requires WellFormed(base) && PartlySettled(base, trees) && id < |base|
      modifies `trees
      ensures PartlySettled(base, trees)
      ensures forall i | Settled(base, old(trees), i) :: Settled(base, trees, i)
      ensures forall i: TreeId | i < |base| && Below(base, id, i) :: Settled(base, trees, i)
      decreases |base| - id
    {
      var left := trees[id].children;
      while left != map[]
        invariant left.Keys <= base[id].children.Keys && forall k | k in left :: left[k] == base[id].children[k]
        invariant PartlySettled(base, trees)
        invariant forall i | Settled(base, old(trees), i) :: Settled(base, trees, i)
        invariant forall k, i: TreeId | k in base[id].children && k !in left && i < |base| &&
          Below(base, base[id].children[k], i) :: Settled(base, trees, i)
        decreases |left|
      {
        SomeKey(left);
        var k :| k in left;
        assert HasChild(base, id, k, left[k]);
        UpdateSizes(left[k], base);
        SmallerMap(left, k);
        left := left - {k};
      }
      SettleOne(id, base);
      forall i: TreeId | i < |base| && Below(base, id, i)
        ensures Settled(base, trees, i)
      {
        if i != id {
          BelowAChild(base, id, i);
          var k, child: TreeId :| HasChild(base, id, k, child) && Below(base, child, i);
          assert Settled(base, trees, i);
        }
      }
    }

    /** Fills in the remainder of one node. */
    method SettleOne(id: TreeId, ghost base: Trees)
      requires WellFormed(base) && PartlySettled(base, trees) && id < |base|
      modifies `trees
      ensures PartlySettled(base, trees) && Settled(base, trees, id)
      ensures forall i | Settled(base, old(trees), i) :: Settled(base, trees, i)
    {
      PartlySettledWellFormed(base, trees);
      assert ChildSizes(trees, id) == ChildSizes(base, id);
      var childrenSize := 0;
      if !trees[id].isUnique {
        childrenSize := SumChildSizes(trees, id);
      }
      trees := trees[id := trees[id].(remSize := trees[id].size - childrenSize)];
    }

    /** Settles the sizes and writes the flame graph. */
    method Finish() returns (g: FlameGraph)
      requires Valid() && !enteredRootVisitor
      modifies `trees
      ensures Exact(g) && forall p :: SizeAt(g, p) == ReportedAt(old(trees), p)
    {
      assert shared == [] && current.stack == [];
      ghost var base := trees;
      UpdateSizes(0, base);
      PartlySettledWellFormed(base, trees);
      forall i: TreeId | i < |base|
        ensures Settled(base, trees, i)
      {
        AllBelowRoot(base, i);
      }
      g := WriteFlameGraph(trees, 0, true);
      GraphIsExact(trees, 0, true);
      forall p
        ensures SizeAt(g, p) == ReportedAt(base, p)
      {
        SettledShows(base, trees, p);
      }
    }
  }

  /** Builds the flame graph of some roots. */
  method Profile(roots: seq<seq<Visit>>) returns (g: FlameGraph)
    ensures Exact(g)
    ensures forall p :: SizeAt(g, p) == Reported(RootsEntries(roots, {}).0, p)
  {
    var builder := new FlameGraphBuilder();
    builder.VisitRoots(roots);
    ghost var trees := builder.trees;
    g := builder.Finish();
    forall p
      ensures SizeAt(g, p) == Reported(RootsEntries(roots, {}).0, p)
    {
      ReportOfEntries(trees, RootsEntries(roots, {}).0, p);
    }
  }

  // ---------- what the flame graph reports ----------

  /** The remainder of the node at a path, as shown. */
  ghost function ReportedAt(trees: Trees, path: seq<Key>): nat
    requires WellFormed(trees)
  {
    var node := NodeAt(trees, path);
    if node.Some? && node.value < |trees| then Shown(Remainder(trees, node.value), path == []) else 0
  }

  lemma SettledShows(base: Trees, trees: Trees, path: seq<Key>)
    requires WellFormed(base) && PartlySettled(base, trees) && WellFormed(trees)
    requires forall i: TreeId | i < |base| :: Settled(base, trees, i)
    ensures SizeAt(Graph(trees, 0, true), path) == ReportedAt(base, path)
  {
    GraphShows(trees, 0, true, path);
    SameChildrenSameNodes(base, trees, 0, path);
    var node := NodeAt(base, path);
    assert node.Some? && node.value < |base| ==> Settled(base, trees, node.value);
  }

  /** The names entered directly under a path. */
  function NamesUnder(entries: seq<Entry>, path: seq<Key>): set<Key> {
    set e | e in entries && |e.path| == |path| + 1 && e.path[..|path|] == path :: e.path[|path|]
  }

  /** The sizes entered directly under a path, by name. */
  function SizesUnder(entries: seq<Entry>, path: seq<Key>): map<Key, nat> {
    map k | k in NamesUnder(entries, path) :: SizeOf(After(None, entries, path + [k]))
  }

  /**
   * What a flame graph should show at a path: the sizes entered there, less those entered directly under
   * it unless it was entered as unique, and nothing for the root or where that would be negative.
   */
  ghost function Reported(entries: seq<Entry>, path: seq<Key>): nat {
    match After(None, entries, path)
    case None => 0
    case Some(mark) => Shown(mark.size - if mark.isUnique then 0 else SumOf(SizesUnder(entries, path)), path == [])
  }

  lemma {:induction false} MarkedIffEntered(entries: seq<Entry>, mark: Option<Mark>, path: seq<Key>)
    ensures After(mark, entries, path).Some? <==> mark.Some? || exists e :: e in entries && e.path == path
    decreases |entries|
  {
    if entries != [] {
      var next := if entries[0].path == path
        then Some(Accrued(mark, entries[0].size, entries[0].isUnique)) else mark;
      MarkedIffEntered(entries[1..], next, path);
      assert entries == [entries[0]] + entries[1..];
    }
  }

  /** The size recorded at a path is the sum of those entered there. */
  function SumAt(entries: seq<Entry>, path: seq<Key>): nat
    decreases |entries|
  {
    if entries == [] then 0
    else (if entries[0].path == path then entries[0].size else 0) + SumAt(entries[1..], path)
  }

  lemma {:induction false} RecordedSizeIsSum(entries: seq<Entry>, mark: Option<Mark>, path: seq<Key>)
    ensures SizeOf(After(mark, entries, path)) == SizeOf(mark) + SumAt(entries, path)
    decreases |entries|
  {
    if entries != [] {
      var next := if entries[0].path == path
        then Some(Accrued(mark, entries[0].size, entries[0].isUnique)) else mark;
      RecordedSizeIsSum(entries[1..], next, path);
    }
  }

  lemma FreshMarks(path: seq<Key>)
    ensures path != [] ==> MarkAt([NEW_TREE], path).None?
  {
    if path != [] {
      LastName([NEW_TREE], path);
      var parent := NodeAt([NEW_TREE], path[..|path| - 1]);
      assert parent.Some? && parent.value < |[NEW_TREE]| ==> [NEW_TREE][parent.value] == NEW_TREE;
    }
  }

  lemma NodesUnder(trees: Trees, entries: seq<Entry>, path: seq<Key>)
    requires WellFormed(trees) && Records([NEW_TREE], trees, entries)
    requires NodeAt(trees, path).Some? && NodeAt(trees, path).value < |trees|
    ensures ChildSizes(trees, NodeAt(trees, path).value) == SizesUnder(entries, path)
  {
    var id := NodeAt(trees, path).value;
    forall k
      ensures k in trees[id].children <==> k in NamesUnder(entries, path)
      ensures k in trees[id].children ==>
        SizeOfNode(trees, trees[id].children[k]) == SizeOf(After(None, entries, path + [k]))
    {
      var q := path + [k];
      assert q[..|path|] == path;
      WalkFromBack(trees, 0, path, k);
      NodeStaysInside(trees, q);
      FreshMarks(q);
      MarkedIffEntered(entries, None, q);
      assert MarkAt(trees, q) == After(None, entries, q);
      NamedUnder(entries, path, k);
    }
  }

  lemma NamedUnder(entries: seq<Entry>, path: seq<Key>, k: Key)
    ensures k in NamesUnder(entries, path) <==> exists e :: e in entries && e.path == path + [k]
  {
    if k in NamesUnder(entries, path) {
      var e :| e in entries && |e.path| == |path| + 1 && e.path[..|path|] == path && e.path[|path|] == k;
      assert e.path == path + [k];
    }
    if e :| e in entries && e.path == path + [k] {
      assert e.path[..|path|] == path;
    }
  }

  /** An arena built from nothing by some entries reports what they should show. */
  lemma ReportOfEntries(trees: Trees, entries: seq<Entry>, path: seq<Key>)
    requires WellFormed(trees) && Records([NEW_TREE], trees, entries)
    ensures ReportedAt(trees, path) == Reported(entries, path)
  {
    if path != [] {
      FreshMarks(path);
      NodeStaysInside(trees, path);
      assert MarkAt(trees, path) == After(None, entries, path);
      if NodeAt(trees, path).Some? {
        NodesUnder(trees, entries, path);
      }
    }
  }

  // ---------- positions ----------

  lemma PositionExtends(
    a: Trees, b: Trees, current: TreeStack, path: seq<Key>, shared: seq<TreeStack>, detours: seq<seq<Key>>)
    requires Positioned(a, current, path, shared, detours) && Extends(a, b)
    ensures Positioned(b, current, path, shared, detours)
  {
    StackExtends(a, b, current, path);
    forall i | 0 <= i < |shared|
      ensures StackAt(b, shared[i], detours[i])
    {
      StackExtends(a, b, shared[i], detours[i]);
    }
  }

  lemma StackExtends(a: Trees, b: Trees, s: TreeStack, path: seq<Key>)
    requires StackAt(a, s, path) && Extends(a, b)
    ensures StackAt(b, s, path)
  {
  }

  lemma DescendedPosition(
    trees: Trees, current: TreeStack, path: seq<Key>, shared: seq<TreeStack>, detours: seq<seq<Key>>, key: Key)
    requires WellFormed(trees) && Positioned(trees, current, path, shared, detours) && current.tree < |trees|
    ensures var after := Descended(trees, current.tree, key);
      Positioned(after, TreeStack(current.stack + [current.tree], ChildOrNew(trees, current.tree, key)),
                 path + [key], shared, detours)
  {
    var after := Descended(trees, current.tree, key);
    DescendedNodes(trees, path, key);
    assert (path + [key])[..|path|] == path;
    assert Extends(trees, after);
    PositionExtends(trees, after, current, path, shared, detours);
    var next := TreeStack(current.stack + [current.tree], ChildOrNew(trees, current.tree, key));
    EnteredPosition(trees, after, current, next, path, key);
  }

  lemma EnteredPosition(a: Trees, b: Trees, before: TreeStack, after: TreeStack, path: seq<Key>, key: Key)
    requires StackAt(a, before, path) && Extends(a, b)
    requires after.stack == before.stack + [before.tree] && NodeAt(b, path + [key]) == Some(after.tree)
    ensures StackAt(b, after, path + [key])
  {
    forall i | 0 <= i < |path + [key]|
      ensures NodeAt(b, (path + [key])[..i]) == Some(after.stack[i])
    {
      if i < |path| {
        assert (path + [key])[..i] == path[..i];
      } else {
        assert (path + [key])[..i] == path;
      }
    }
  }

  lemma UpPosition(trees: Trees, s: TreeStack, path: seq<Key>)
    requires StackAt(trees, s, path) && path != []
    ensures var n := |path| - 1; StackAt(trees, TreeStack(s.stack[..n], s.stack[n]), path[..n])
  {
    var n := |path| - 1;
    forall i | 0 <= i < n
      ensures NodeAt(trees, path[..n][..i]) == Some(s.stack[i])
    {
      assert path[..n][..i] == path[..i];
    }
  }
}
