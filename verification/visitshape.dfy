/** What a flame graph shows, read off the shape of the visits rather than off what was entered. */
module VisitShape {
  import opened Wrappers
  import opened FlameGraph
  import opened Arena
  import opened ArenaSizes
  import opened FlameGraphBuilder

  // ---------- tallies ----------

  /** What two parts of a visit come to at one path. */
  function Combined(a: Option<Mark>, b: Option<Mark>): Option<Mark> {
    if a.None? then b
    else if b.None? then a
    else Some(Mark(a.value.size + b.value.size, a.value.isUnique || b.value.isUnique))
  }

  lemma CombineSwapsInner(a: Option<Mark>, b: Option<Mark>, c: Option<Mark>, d: Option<Mark>)
    ensures Combined(Combined(a, b), Combined(c, d)) == Combined(Combined(a, c), Combined(b, d))
  {
  }

  lemma {:induction false} AfterCombines(mark: Option<Mark>, entries: seq<Entry>, path: seq<Key>)
    ensures After(mark, entries, path) == Combined(mark, After(None, entries, path))
    decreases |entries|
  {
    if entries != [] && entries[0].path == path {
      var size, isUnique := entries[0].size, entries[0].isUnique;
      AfterCombines(Some(Accrued(mark, size, isUnique)), entries[1..], path);
      AfterCombines(Some(Accrued(None, size, isUnique)), entries[1..], path);
    } else if entries != [] {
      AfterCombines(mark, entries[1..], path);
    }
  }

  lemma EntriesCombine(a: seq<Entry>, b: seq<Entry>, path: seq<Key>)
    ensures After(None, a + b, path) == Combined(After(None, a, path), After(None, b, path))
  {
    AfterJoins(None, a, b, path);
    AfterCombines(After(None, a, path), b, path);
  }

  /**
   * What stands at a path below some visits: the sizes of the nodes whose names lead there, and whether
   * one of them is a unique pointer. Under a shared pointer stands nothing.
   */
  function Standing(visits: seq<Visit>, path: seq<Key>): Option<Mark>
    decreases visits
  {
    if visits == [] || path == [] then None
    else Combined(StandingAt(visits[0], path), Standing(visits[1..], path))
  }

  function StandingAt(visit: Visit, path: seq<Key>): Option<Mark>
    requires path != []
    decreases visit
  {
    if visit.name != path[0] then None
    else if |path| == 1 then Some(Mark(visit.size, visit.Unique?))
    else if visit.Shared? then None
    else Standing(visit.body, path[1..])
  }

  /** What stands at a path in a whole forest. */
  function StandingIn(forest: seq<seq<Visit>>, path: seq<Key>): Option<Mark> {
    if forest == [] then None else Combined(Standing(forest[0], path), StandingIn(forest[1..], path))
  }

  lemma {:induction false} ForestsCombine(a: seq<seq<Visit>>, b: seq<seq<Visit>>, path: seq<Key>)
    ensures StandingIn(a + b, path) == Combined(StandingIn(a, path), StandingIn(b, path))
  {
    if a == [] {
      assert a + b == b;
    } else {
      assert (a + b)[1..] == a[1..] + b;
      ForestsCombine(a[1..], b, path);
    }
  }

  // ---------- targets ----------

  /** The shared pointers visited for the first time, in order, and all those visited after. */
  function Targets(visits: seq<Visit>, visited: set<nat>): (seq<Visit>, set<nat>)
    decreases visits
  {
    if visits == [] then
      ([], visited)
    else
      var (first, between) := TargetsOf(visits[0], visited);
      var (rest, after) := Targets(visits[1..], between);
      (first + rest, after)
  }

  function TargetsOf(visit: Visit, visited: set<nat>): (seq<Visit>, set<nat>)
    decreases visit
  {
    if !visit.Shared? then
      Targets(visit.body, visited)
    else if visit.pointer in visited then
      ([], visited)
    else
      var (inside, after) := Targets(visit.body, visited + {visit.pointer});
      ([visit] + inside, after)
  }

  function Bodies(targets: seq<Visit>): seq<seq<Visit>> {
    if targets == [] then [] else [targets[0].body] + Bodies(targets[1..])
  }

  lemma {:induction false} BodiesJoin(a: seq<Visit>, b: seq<Visit>)
    ensures Bodies(a + b) == Bodies(a) + Bodies(b)
  {
    if a == [] {
      assert a + b == b;
    } else {
      assert (a + b)[1..] == a[1..] + b;
      BodiesJoin(a[1..], b);
    }
  }

  /** What visits below a path come to at another one. */
  function Below(visits: seq<Visit>, prefix: seq<Key>, path: seq<Key>): Option<Mark> {
    if prefix <= path then Standing(visits, path[|prefix|..]) else None
  }

  function BelowOne(visit: Visit, prefix: seq<Key>, path: seq<Key>): Option<Mark> {
    if prefix < path then StandingAt(visit, path[|prefix|..]) else None
  }

  /** One node, and what is visited inside it. */
  lemma EnteredInside(visit: Visit, prefix: seq<Key>, path: seq<Key>)
    ensures var inside := prefix + [visit.name];
      BelowOne(visit, prefix, path) == Combined(
        if inside == path then Some(Mark(visit.size, visit.Unique?)) else None,
        if visit.Shared? then None else Below(visit.body, inside, path))
  {
    var inside := prefix + [visit.name];
    if prefix < path {
      var rest := path[|prefix|..];
      assert path == prefix + rest;
      assert rest[1..] == path[|inside|..];
      if rest[0] == visit.name {
        assert inside <= path;
      } else {
        assert path[|prefix|] != inside[|prefix|];
      }
    }
  }

  lemma FirstBelow(visits: seq<Visit>, prefix: seq<Key>, path: seq<Key>)
    requires visits != []
    ensures Below(visits, prefix, path)
         == Combined(BelowOne(visits[0], prefix, path), Below(visits[1..], prefix, path))
  {
    if prefix <= path && path != prefix {
      assert path[|prefix|..] != [];
    }
  }

  /**
   * What is entered at a path is what stands there in the visits and in the targets of the shared pointers
   * first visited, which are visited at the top.
   */
  lemma {:induction false} EntriesStand(visits: seq<Visit>, prefix: seq<Key>, visited: set<nat>, path: seq<Key>)
    ensures var (entries, after) := Entries(visits, prefix, visited);
      var (targets, also) := Targets(visits, visited);
      && after == also
      && After(None, entries, path) == Combined(Below(visits, prefix, path), StandingIn(Bodies(targets), path))
    decreases visits
  {
    if visits != [] {
      var (first, between) := EntriesOf(visits[0], prefix, visited);
      var (rest, after) := Entries(visits[1..], prefix, between);
      var (targets, _) := TargetsOf(visits[0], visited);
      var (others, _) := Targets(visits[1..], between);
      EntriesOfStand(visits[0], prefix, visited, path);
      EntriesStand(visits[1..], prefix, between, path);
      EntriesCombine(first, rest, path);
      BodiesJoin(targets, others);
      ForestsCombine(Bodies(targets), Bodies(others), path);
      FirstBelow(visits, prefix, path);
      CombineSwapsInner(BelowOne(visits[0], prefix, path), StandingIn(Bodies(targets), path),
                        Below(visits[1..], prefix, path), StandingIn(Bodies(others), path));
    }
  }

  lemma {:induction false} EntriesOfStand(visit: Visit, prefix: seq<Key>, visited: set<nat>, path: seq<Key>)
    ensures var (entries, after) := EntriesOf(visit, prefix, visited);
      var (targets, also) := TargetsOf(visit, visited);
      && after == also
      && After(None, entries, path) == Combined(BelowOne(visit, prefix, path), StandingIn(Bodies(targets), path))
    decreases visit
  {
    var inside := prefix + [visit.name];
    var own := [Entry(inside, visit.size, visit.Unique?)];
    EnteredInside(visit, prefix, path);
    if !visit.Shared? {
      EntriesStand(visit.body, inside, visited, path);
      EntriesCombine(own, Entries(visit.body, inside, visited).0, path);
    } else if visit.pointer !in visited {
      EntriesStand(visit.body, [], visited + {visit.pointer}, path);
      EntriesCombine(own, Entries(visit.body, [], visited + {visit.pointer}).0, path);
      assert path[0..] == path;
      var inner := Targets(visit.body, visited + {visit.pointer}).0;
      assert ([visit] + inner)[1..] == inner;
    }
  }

  // ---------- roots ----------

  /** The targets of roots visited one after the other. */
  function RootsTargets(roots: seq<seq<Visit>>, visited: set<nat>): (seq<Visit>, set<nat>)
    decreases |roots|
  {
    if roots == [] then
      ([], visited)
    else
      var (first, between) := Targets(roots[0], visited);
      var (rest, after) := RootsTargets(roots[1..], between);
      (first + rest, after)
  }

  /** All that is visited at the top: the roots, and whatever a shared pointer points to, once each. */
  function Forest(roots: seq<seq<Visit>>): seq<seq<Visit>> {
    roots + Bodies(RootsTargets(roots, {}).0)
  }

  lemma {:induction false} RootsEntriesStand(roots: seq<seq<Visit>>, visited: set<nat>, path: seq<Key>)
    ensures RootsEntries(roots, visited).1 == RootsTargets(roots, visited).1
    ensures After(None, RootsEntries(roots, visited).0, path)
         == Combined(StandingIn(roots, path), StandingIn(Bodies(RootsTargets(roots, visited).0), path))
    decreases |roots|
  {
    if roots != [] {
      var (first, between) := Entries(roots[0], [], visited);
      var (targets, _) := Targets(roots[0], visited);
      EntriesStand(roots[0], [], visited, path);
      RootsEntriesStand(roots[1..], between, path);
      EntriesCombine(first, RootsEntries(roots[1..], between).0, path);
      BodiesJoin(targets, RootsTargets(roots[1..], between).0);
      ForestsCombine(Bodies(targets), Bodies(RootsTargets(roots[1..], between).0), path);
      assert path[0..] == path;
      CombineSwapsInner(Standing(roots[0], path), StandingIn(Bodies(targets), path), StandingIn(roots[1..], path),
                        StandingIn(Bodies(RootsTargets(roots[1..], between).0), path));
    }
  }

  /** What is recorded at a path is what stands there in the forest. */
  lemma RecordedStands(roots: seq<seq<Visit>>, path: seq<Key>)
    ensures After(None, RootsEntries(roots, {}).0, path) == StandingIn(Forest(roots), path)
  {
    RootsEntriesStand(roots, {}, path);
    ForestsCombine(roots, Bodies(RootsTargets(roots, {}).0), path);
  }

  /** The sizes standing directly under a path, by name. */
  ghost predicate SizesStandingUnder(forest: seq<seq<Visit>>, path: seq<Key>, under: map<Key, nat>) {
    && (forall k :: k in under <==> StandingIn(forest, path + [k]).Some?)
    && (forall k | k in under :: under[k] == StandingIn(forest, path + [k]).value.size)
  }

  /** What a flame graph should show of a forest at a path. */
  ghost function Shows(forest: seq<seq<Visit>>, path: seq<Key>, under: map<Key, nat>): nat {
    match StandingIn(forest, path)
    case None => 0
    case Some(mark) => Shown(mark.size - if mark.isUnique then 0 else SumOf(under), path == [])
  }

  /**
   * The flame graph of some roots shows at each path the sizes that stand there in the forest, less those
   * that stand directly under it unless a unique pointer stands there.
   */
  lemma ReportIsShape(roots: seq<seq<Visit>>, path: seq<Key>)
    ensures SizesStandingUnder(Forest(roots), path, SizesUnder(RootsEntries(roots, {}).0, path))
    ensures forall under | SizesStandingUnder(Forest(roots), path, under) ::
      Reported(RootsEntries(roots, {}).0, path) == Shows(Forest(roots), path, under)
  {
    var entries := RootsEntries(roots, {}).0;
    RecordedStands(roots, path);
    forall k
      ensures After(None, entries, path + [k]) == StandingIn(Forest(roots), path + [k])
      ensures k in NamesUnder(entries, path) <==> After(None, entries, path + [k]).Some?
    {
      RecordedStands(roots, path + [k]);
      NamedUnder(entries, path, k);
      MarkedIffEntered(entries, None, path + [k]);
    }
    forall under | SizesStandingUnder(Forest(roots), path, under)
      ensures under == SizesUnder(entries, path)
    {
    }
  }

  // ---------- one pointer of each kind ----------

  /** A unique pointer shows all sizes that stand at its path, however much is visited inside it. */
  lemma UniqueShowsItself(name: Key, size: nat, body: seq<Visit>)
    ensures Reported(RootsEntries([[Unique(name, size, body)]], {}).0, [name])
         == SumAt(RootsEntries([[Unique(name, size, body)]], {}).0, [name]) >= size
  {
    var roots := [[Unique(name, size, body)]];
    var entries := RootsEntries(roots, {}).0;
    var rest := Bodies(RootsTargets(roots, {}).0);
    RecordedStands(roots, [name]);
    RecordedSizeIsSum(entries, None, [name]);
    ForestsCombine(roots, rest, [name]);
    assert Standing(roots[0], [name]) == Some(Mark(size, true)) by {
      assert Standing(roots[0][1..], [name]).None?;
    }
    assert StandingIn(roots, [name]) == Some(Mark(size, true)) by {
      assert StandingIn(roots[1..], [name]).None?;
    }
  }

  // ---------- which shared pointers are followed ----------

  /** A shared pointer stands in the visits, under no other shared pointer. */
  ghost predicate Holds(visits: seq<Visit>, shared: Visit)
    decreases visits
  {
    visits != [] && (HoldsIn(visits[0], shared) || Holds(visits[1..], shared))
  }

  ghost predicate HoldsIn(visit: Visit, shared: Visit)
    decreases visit
  {
    if visit.Shared? then visit == shared else Holds(visit.body, shared)
  }

  ghost predicate HeldIn(forest: seq<seq<Visit>>, shared: Visit) {
    forest != [] && (Holds(forest[0], shared) || HeldIn(forest[1..], shared))
  }

  lemma {:induction false} HeldInEither(a: seq<seq<Visit>>, b: seq<seq<Visit>>, shared: Visit)
    ensures HeldIn(a + b, shared) <==> HeldIn(a, shared) || HeldIn(b, shared)
  {
    if a == [] {
      assert a + b == b;
    } else {
      assert (a + b)[1..] == a[1..] + b;
      HeldInEither(a[1..], b, shared);
    }
  }

  /** What one visit holds, and what one sequence of visits does. */
  lemma HeldAlone(visit: Visit, visits: seq<Visit>, shared: Visit)
    ensures HeldIn([[visit]], shared) <==> HoldsIn(visit, shared)
    ensures HeldIn([visits], shared) <==> Holds(visits, shared)
    ensures visits != [] ==> (Holds(visits, shared) <==> HoldsIn(visits[0], shared) || Holds(visits[1..], shared))
    ensures HoldsIn(visit, shared) <==> if visit.Shared? then visit == shared else Holds(visit.body, shared)
  {
    assert [[visit]][1..] == [] && [visit][1..] == [] && [visits][1..] == [];
    assert Holds([visit], shared) <==> HoldsIn(visit, shared);
  }

  function Pointers(targets: seq<Visit>): set<nat> {
    set v | v in targets && v.Shared? :: v.pointer
  }

  /** Every shared pointer standing in the forest was visited. */
  ghost predicate AllVisited(forest: seq<seq<Visit>>, visited: set<nat>) {
    forall shared | HeldIn(forest, shared) :: shared.Shared? && shared.pointer in visited
  }

  /** Every target stands in the sources or in an earlier target. */
  ghost predicate AllHeld(sources: seq<seq<Visit>>, targets: seq<Visit>) {
    forall i | 0 <= i < |targets| :: HeldIn(sources, targets[i]) || HeldIn(Bodies(targets[..i]), targets[i])
  }

  /**
   * The targets of some sources: shared pointers not visited before, each once, each found in the sources
   * or in an earlier target; and every shared pointer found in either is visited after.
   */
  ghost predicate FirstVisits(sources: seq<seq<Visit>>, visited: set<nat>, targets: seq<Visit>, after: set<nat>) {
    && (forall i | 0 <= i < |targets| :: targets[i].Shared? && targets[i].pointer !in visited)
    && (forall i, j | 0 <= i < j < |targets| :: targets[i].pointer != targets[j].pointer)
    && after == visited + Pointers(targets)
    && AllVisited(sources, after) && AllVisited(Bodies(targets), after)
    && AllHeld(sources, targets)
  }

  lemma AllHeldJoin(a: seq<seq<Visit>>, b: seq<seq<Visit>>, first: seq<Visit>, second: seq<Visit>)
    requires AllHeld(a, first) && AllHeld(b, second)
    ensures AllHeld(a + b, first + second)
  {
    var all := first + second;
    forall i | 0 <= i < |all|
      ensures HeldIn(a + b, all[i]) || HeldIn(Bodies(all[..i]), all[i])
    {
      HeldInEither(a, b, all[i]);
      if i < |first| {
        assert all[..i] == first[..i];
      } else {
        var j := i - |first|;
        assert all[..i] == first + second[..j];
        BodiesJoin(first, second[..j]);
        HeldInEither(Bodies(first), Bodies(second[..j]), all[i]);
      }
    }
  }

  lemma AllVisitedJoin(a: seq<seq<Visit>>, b: seq<seq<Visit>>, visited: set<nat>, more: set<nat>)
    requires AllVisited(a, visited) && AllVisited(b, more) && visited <= more
    ensures AllVisited(a + b, more)
  {
    forall shared | HeldIn(a + b, shared)
      ensures shared.Shared? && shared.pointer in more
    {
      HeldInEither(a, b, shared);
    }
  }

  lemma FirstVisitsJoin(a: seq<seq<Visit>>, b: seq<seq<Visit>>, visited: set<nat>,
                        first: seq<Visit>, between: set<nat>, second: seq<Visit>, after: set<nat>)
    requires FirstVisits(a, visited, first, between) && FirstVisits(b, between, second, after)
    ensures FirstVisits(a + b, visited, first + second, after)
  {
    AllHeldJoin(a, b, first, second);
    AllVisitedJoin(a, b, between, after);
    BodiesJoin(first, second);
    AllVisitedJoin(Bodies(first), Bodies(second), between, after);
    forall i, j | 0 <= i < j < |first + second|
      ensures (first + second)[i].pointer != (first + second)[j].pointer
    {
      if i < |first| <= j {
        assert first[i] in first && first[i].pointer in Pointers(first);
      }
    }
    assert Pointers(first + second) == Pointers(first) + Pointers(second);
  }

  /** Sources that hold the same shared pointers have the same targets. */
  lemma SameSources(a: seq<seq<Visit>>, b: seq<seq<Visit>>, visited: set<nat>, targets: seq<Visit>, after: set<nat>)
    requires FirstVisits(a, visited, targets, after)
    requires forall shared :: HeldIn(a, shared) <==> HeldIn(b, shared)
    ensures FirstVisits(b, visited, targets, after)
  {
  }

  lemma NoTargets(sources: seq<seq<Visit>>, visited: set<nat>)
    requires AllVisited(sources, visited)
    ensures FirstVisits(sources, visited, [], visited)
  {
    assert Pointers([]) == {};
  }

  /** Following a shared pointer: itself, then what is found inside it. */
  lemma TargetAndInner(visit: Visit, visited: set<nat>, inner: seq<Visit>, after: set<nat>)
    requires visit.Shared? && visit.pointer !in visited
    requires FirstVisits([visit.body], visited + {visit.pointer}, inner, after)
    ensures FirstVisits([[visit]], visited, [visit] + inner, after)
  {
    var targets := [visit] + inner;
    assert targets[1..] == inner && Bodies(targets) == [visit.body] + Bodies(inner);
    AllVisitedJoin([visit.body], Bodies(inner), after, after);
    assert Pointers(targets) == {visit.pointer} + Pointers(inner);
    forall i | 0 <= i < |targets|
      ensures HeldIn([[visit]], targets[i]) || HeldIn(Bodies(targets[..i]), targets[i])
    {
      if i == 0 {
        assert Holds([visit], visit);
      } else {
        assert targets[i] == inner[i - 1] && targets[..i] == [visit] + inner[..i - 1];
        assert Bodies(targets[..i]) == [visit.body] + Bodies(inner[..i - 1]) by {
          assert targets[..i][1..] == inner[..i - 1];
        }
        HeldInEither([visit.body], Bodies(inner[..i - 1]), targets[i]);
      }
    }
    forall shared | HeldIn([[visit]], shared)
      ensures shared.Shared? && shared.pointer in after
    {
      HeldAlone(visit, [], shared);
    }
  }

  lemma {:induction false} TargetsAreFirstVisits(visits: seq<Visit>, visited: set<nat>)
    ensures FirstVisits([visits], visited, Targets(visits, visited).0, Targets(visits, visited).1)
    decreases visits
  {
    if visits == [] {
      NoTargets([visits], visited);
    } else {
      var (first, between) := TargetsOf(visits[0], visited);
      var (rest, after) := Targets(visits[1..], between);
      TargetsOfAreFirstVisits(visits[0], visited);
      TargetsAreFirstVisits(visits[1..], between);
      FirstVisitsJoin([[visits[0]]], [visits[1..]], visited, first, between, rest, after);
      forall shared
        ensures HeldIn([[visits[0]]] + [visits[1..]], shared) <==> HeldIn([visits], shared)
      {
        HeldInEither([[visits[0]]], [visits[1..]], shared);
        HeldAlone(visits[0], visits[1..], shared);
        HeldAlone(visits[0], visits, shared);
      }
      SameSources([[visits[0]]] + [visits[1..]], [visits], visited, first + rest, after);
    }
  }

  lemma {:induction false} TargetsOfAreFirstVisits(visit: Visit, visited: set<nat>)
    ensures FirstVisits([[visit]], visited, TargetsOf(visit, visited).0, TargetsOf(visit, visited).1)
    decreases visit
  {
    forall shared
      ensures HeldIn([[visit]], shared) <==> if visit.Shared? then visit == shared else HeldIn([visit.body], shared)
    {
      HeldAlone(visit, visit.body, shared);
    }
    if !visit.Shared? {
      TargetsAreFirstVisits(visit.body, visited);
      SameSources([visit.body], [[visit]], visited, Targets(visit.body, visited).0, Targets(visit.body, visited).1);
    } else if visit.pointer in visited {
      NoTargets([[visit]], visited);
    } else {
      TargetsAreFirstVisits(visit.body, visited + {visit.pointer});
      var (inner, after) := Targets(visit.body, visited + {visit.pointer});
      TargetAndInner(visit, visited, inner, after);
    }
  }

  /**
   * Over all roots: what a shared pointer points to is visited once for each pointer that stands in the
   * roots or in what another visited one points to, and for no other.
   */
  lemma {:induction false} RootsTargetsAreFirstVisits(roots: seq<seq<Visit>>, visited: set<nat>)
    ensures FirstVisits(roots, visited, RootsTargets(roots, visited).0, RootsTargets(roots, visited).1)
    decreases |roots|
  {
    if roots == [] {
      NoTargets(roots, visited);
    } else {
      var (first, between) := Targets(roots[0], visited);
      var (rest, after) := RootsTargets(roots[1..], between);
      TargetsAreFirstVisits(roots[0], visited);
      RootsTargetsAreFirstVisits(roots[1..], between);
      FirstVisitsJoin([roots[0]], roots[1..], visited, first, between, rest, after);
      assert [roots[0]] + roots[1..] == roots;
    }
  }
}
