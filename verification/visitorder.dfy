/** A flame graph does not depend on the order in which its roots are visited. */
module VisitOrder {
  import opened Wrappers
  import opened FlameGraph
  import opened Arena
  import opened ArenaSizes
  import opened FlameGraphBuilder
  import opened VisitShape

  // ---------- forests in another order ----------

  function Without<T>(s: seq<T>, i: nat): seq<T>
    requires i < |s|
  {
    s[..i] + s[i + 1..]
  }

  lemma WithoutMembers<T>(s: seq<T>, i: nat)
    requires i < |s|
    ensures multiset(s) == multiset{s[i]} + multiset(Without(s, i))
    ensures multiset(Without(s, i)) == multiset(s) - multiset{s[i]}
  {
    assert s == s[..i] + [s[i]] + s[i + 1..];
  }

  lemma CombineSwaps(a: Option<Mark>, b: Option<Mark>, c: Option<Mark>)
    ensures Combined(a, Combined(b, c)) == Combined(b, Combined(a, c))
    ensures Combined(Combined(a, b), c) == Combined(a, Combined(b, c))
  {
  }

  lemma {:induction false} StandingWithout(forest: seq<seq<Visit>>, i: nat, path: seq<Key>)
    requires i < |forest|
    ensures StandingIn(forest, path) == Combined(Standing(forest[i], path), StandingIn(Without(forest, i), path))
  {
    var tail := forest[i..];
    assert forest == forest[..i] + tail && tail[1..] == forest[i + 1..];
    ForestsCombine(forest[..i], tail, path);
    ForestsCombine(forest[..i], forest[i + 1..], path);
    CombineSwaps(StandingIn(forest[..i], path), Standing(forest[i], path), StandingIn(forest[i + 1..], path));
  }

  lemma {:induction false} PermutedForests(a: seq<seq<Visit>>, b: seq<seq<Visit>>, path: seq<Key>)
    requires multiset(a) == multiset(b)
    ensures StandingIn(a, path) == StandingIn(b, path)
    decreases |a|
  {
    if a == [] {
      assert |b| == |multiset(b)| == 0;
    } else {
      assert a[0] in multiset(b);
      var i :| 0 <= i < |b| && b[i] == a[0];
      assert Without(a, 0) == a[1..];
      WithoutMembers(a, 0);
      WithoutMembers(b, i);
      PermutedForests(a[1..], Without(b, i), path);
      StandingWithout(b, i, path);
    }
  }

  lemma {:induction false} HeldBySome(forest: seq<seq<Visit>>, shared: Visit)
    ensures HeldIn(forest, shared) <==> exists visits :: visits in forest && Holds(visits, shared)
  {
    if forest != [] {
      HeldBySome(forest[1..], shared);
      if HeldIn(forest[1..], shared) {
        var visits :| visits in forest[1..] && Holds(visits, shared);
        assert visits in forest;
      }
      if visits :| visits in forest && Holds(visits, shared) {
        assert visits == forest[0] || visits in forest[1..];
      }
    }
  }

  lemma {:induction false} BodiesIn(targets: seq<Visit>, body: seq<Visit>)
    ensures body in Bodies(targets) <==> exists t :: t in targets && t.body == body
  {
    if targets != [] {
      BodiesIn(targets[1..], body);
      assert targets == [targets[0]] + targets[1..];
    }
  }

  // ---------- a heap ----------

  /** What every shared pointer standing in the forest points to is what the heap says. */
  ghost predicate PointsInto(heap: map<nat, seq<Visit>>, forest: seq<seq<Visit>>) {
    forall shared | HeldIn(forest, shared) :: OnHeap(heap, shared)
  }

  predicate OnHeap(heap: map<nat, seq<Visit>>, shared: Visit) {
    shared.Shared? && shared.pointer in heap && shared.body == heap[shared.pointer]
  }

  /** And so on, in what they point to. */
  ghost predicate ClosedHeap(heap: map<nat, seq<Visit>>) {
    forall pointer | pointer in heap :: PointsInto(heap, [heap[pointer]])
  }

  lemma {:induction false} TargetsAreOnHeap(
    heap: map<nat, seq<Visit>>, sources: seq<seq<Visit>>, targets: seq<Visit>, n: nat)
    requires ClosedHeap(heap) && PointsInto(heap, sources) && AllHeld(sources, targets) && n <= |targets|
    ensures forall i | 0 <= i < n :: OnHeap(heap, targets[i])
  {
    if n > 0 {
      var t := targets[n - 1];
      TargetsAreOnHeap(heap, sources, targets, n - 1);
      if !HeldIn(sources, t) {
        HeldInTarget(heap, targets[..n - 1], t);
      }
    }
  }

  lemma HeldInTarget(heap: map<nat, seq<Visit>>, targets: seq<Visit>, shared: Visit)
    requires ClosedHeap(heap) && HeldIn(Bodies(targets), shared)
    requires forall t | t in targets :: OnHeap(heap, t)
    ensures exists t :: t in targets && Holds(t.body, shared)
    ensures OnHeap(heap, shared)
  {
    HeldBySome(Bodies(targets), shared);
    var body :| body in Bodies(targets) && Holds(body, shared);
    BodiesIn(targets, body);
    var t :| t in targets && t.body == body;
    HeldAlone(t, body, shared);
    assert HeldIn([heap[t.pointer]], shared);
  }

  lemma HeldInSameTarget(heap: map<nat, seq<Visit>>, targets: seq<Visit>, t: Visit, shared: Visit)
    requires OnHeap(heap, t) && t.pointer in Pointers(targets) && Holds(t.body, shared)
    requires forall s | s in targets :: OnHeap(heap, s)
    ensures HeldIn(Bodies(targets), shared)
  {
    var s :| s in targets && s.Shared? && s.pointer == t.pointer;
    BodiesIn(targets, s.body);
    HeldBySome(Bodies(targets), shared);
  }

  /** With what they point to fixed, sources that hold the same pointers lead to the same ones. */
  lemma {:induction false} SamePointers(
    heap: map<nat, seq<Visit>>, a: seq<seq<Visit>>, b: seq<seq<Visit>>, x: seq<Visit>, y: seq<Visit>, n: nat)
    requires ClosedHeap(heap) && PointsInto(heap, a) && n <= |y|
    requires forall shared :: HeldIn(a, shared) <==> HeldIn(b, shared)
    requires FirstVisits(a, {}, x, Pointers(x)) && FirstVisits(b, {}, y, Pointers(y))
    ensures forall i | 0 <= i < n :: y[i].pointer in Pointers(x)
  {
    if n > 0 {
      var shared := y[n - 1];
      SamePointers(heap, a, b, x, y, n - 1);
      TargetsAreOnHeap(heap, a, x, |x|);
      TargetsAreOnHeap(heap, b, y, |y|);
      if !HeldIn(b, shared) {
        HeldInTarget(heap, y[..n - 1], shared);
        var t :| t in y[..n - 1] && Holds(t.body, shared);
        HeldInSameTarget(heap, x, t, shared);
      }
    }
  }

  ghost predicate Distinct(targets: seq<Visit>) {
    && (forall i | 0 <= i < |targets| :: targets[i].Shared?)
    && (forall i, j | 0 <= i < j < |targets| :: targets[i].pointer != targets[j].pointer)
  }

  lemma {:induction false} BodiesWithout(targets: seq<Visit>, i: nat)
    requires i < |targets|
    ensures multiset(Bodies(targets)) == multiset{targets[i].body} + multiset(Bodies(Without(targets, i)))
  {
    var tail := targets[i..];
    assert targets == targets[..i] + tail && tail[1..] == targets[i + 1..];
    BodiesJoin(targets[..i], tail);
    BodiesJoin(targets[..i], targets[i + 1..]);
  }

  /** Targets of the same pointers have the same bodies, in some order. */
  lemma {:induction false} SameBodies(heap: map<nat, seq<Visit>>, x: seq<Visit>, y: seq<Visit>)
    requires Distinct(x) && Distinct(y) && Pointers(x) == Pointers(y)
    requires forall t | t in x || t in y :: OnHeap(heap, t)
    ensures multiset(Bodies(x)) == multiset(Bodies(y))
    decreases |x|
  {
    assert y != [] ==> y[0].pointer in Pointers(y);
    if x != [] {
      var rest := x[1..];
      assert x == [x[0]] + rest && x[0].pointer in Pointers(x);
      var i :| 0 <= i < |y| && y[i].pointer == x[0].pointer;
      var others := Without(y, i);
      PointersWithout(x, 0);
      PointersWithout(y, i);
      assert Without(x, 0) == rest;
      SameBodies(heap, rest, others);
      BodiesWithout(x, 0);
      BodiesWithout(y, i);
    }
  }

  lemma PointersWithout(targets: seq<Visit>, i: nat)
    requires Distinct(targets) && i < |targets|
    ensures Distinct(Without(targets, i))
    ensures Pointers(Without(targets, i)) == Pointers(targets) - {targets[i].pointer}
    ensures forall t | t in Without(targets, i) :: t in targets
  {
    var rest := Without(targets, i);
    forall p
      ensures p in Pointers(rest) <==> p in Pointers(targets) && p != targets[i].pointer
    {
      if p in Pointers(targets) && p != targets[i].pointer {
        var t :| t in targets && t.Shared? && t.pointer == p;
        var j :| 0 <= j < |targets| && targets[j] == t;
        assert rest[if j < i then j else j - 1] == t;
      }
    }
  }

  lemma PermutedHold(a: seq<seq<Visit>>, b: seq<seq<Visit>>)
    requires multiset(a) == multiset(b)
    ensures forall shared :: HeldIn(a, shared) <==> HeldIn(b, shared)
  {
    assert forall visits :: visits in a <==> visits in multiset(b);
    forall shared
      ensures HeldIn(a, shared) <==> HeldIn(b, shared)
    {
      HeldBySome(a, shared);
      HeldBySome(b, shared);
    }
  }

  lemma SameTargets(
    heap: map<nat, seq<Visit>>, a: seq<seq<Visit>>, b: seq<seq<Visit>>, x: seq<Visit>, y: seq<Visit>)
    requires ClosedHeap(heap) && PointsInto(heap, a)
    requires forall shared :: HeldIn(a, shared) <==> HeldIn(b, shared)
    requires FirstVisits(a, {}, x, Pointers(x)) && FirstVisits(b, {}, y, Pointers(y))
    ensures multiset(Bodies(x)) == multiset(Bodies(y))
  {
    SamePointers(heap, a, b, x, y, |y|);
    SamePointers(heap, b, a, y, x, |x|);
    TargetsAreOnHeap(heap, a, x, |x|);
    TargetsAreOnHeap(heap, b, y, |y|);
    SameBodies(heap, x, y);
  }

  // ---------- the flame graph ----------

  lemma SameForestSameReport(a: seq<seq<Visit>>, b: seq<seq<Visit>>, path: seq<Key>)
    requires forall p :: StandingIn(Forest(a), p) == StandingIn(Forest(b), p)
    ensures Reported(RootsEntries(a, {}).0, path) == Reported(RootsEntries(b, {}).0, path)
  {
    var under := SizesUnder(RootsEntries(a, {}).0, path);
    ReportIsShape(a, path);
    ReportIsShape(b, path);
    assert SizesStandingUnder(Forest(b), path, under);
  }

  /**
   * With what every shared pointer points to fixed, whichever visit finds it first, the flame graph is the
   * same for any order of the roots, although what a pointer points to is charged to the first to find it.
   */
  lemma RootOrderDoesNotMatter(
    heap: map<nat, seq<Visit>>, a: seq<seq<Visit>>, b: seq<seq<Visit>>, path: seq<Key>)
    requires ClosedHeap(heap) && PointsInto(heap, a) && multiset(a) == multiset(b)
    ensures Reported(RootsEntries(a, {}).0, path) == Reported(RootsEntries(b, {}).0, path)
  {
    var x, y := RootsTargets(a, {}).0, RootsTargets(b, {}).0;
    RootsTargetsAreFirstVisits(a, {});
    RootsTargetsAreFirstVisits(b, {});
    PermutedHold(a, b);
    SameTargets(heap, a, b, x, y);
    PermutedReport(a, b, path);
  }

  lemma PermutedReport(a: seq<seq<Visit>>, b: seq<seq<Visit>>, path: seq<Key>)
    requires multiset(Forest(a)) == multiset(Forest(b))
    ensures Reported(RootsEntries(a, {}).0, path) == Reported(RootsEntries(b, {}).0, path)
  {
    forall p
      ensures StandingIn(Forest(a), p) == StandingIn(Forest(b), p)
    {
      PermutedForests(Forest(a), Forest(b), p);
    }
    SameForestSameReport(a, b, path);
  }
}
