/** What a successfully built tick index is, and what its lookups find. */
module TickIndexProperties {
  import opened Wrappers
  import opened Checked
  import opened TickMath
  import opened TickIndex
  import Swap

  // ---------- what an acceptable set of nodes is ----------

  /** The key encodes the tick, the tick is on the grid, and the stored price is the tick's within tolerance. */
  predicate SoundNode(n: TickNode) {
    && IsTick(n.index)
    && n.score == n.index + CETUS_TICK_BIAS
    && WithinTolerance(n.sqrtPrice, n.index)
  }

  /** Two nodes of one tick are one node, present once. */
  ghost predicate DistinctTicks(ms: multiset<TickNode>) {
    && (forall n | n in ms :: ms[n] == 1)
    && (forall n, m | n in ms && m in ms && n.index == m.index :: n == m)
  }

  /** m is the target of n's first link, strictly above it. */
  predicate LinksUpTo(n: TickNode, m: TickNode) {
    n.nexts != [] && m.score == n.nexts[0] && m.index > n.index
  }

  /** A node is sound and its first link, if any, resolves to a higher tick among the others. */
  ghost predicate Accepted(ms: multiset<TickNode>, n: TickNode) {
    SoundNode(n) && (n.nexts != [] ==> exists m :: m in ms && LinksUpTo(n, m))
  }

  /** A condition on the nodes as a multiset: it cannot depend on the order they were read in. */
  ghost predicate Acceptable(ms: multiset<TickNode>) {
    DistinctTicks(ms) && forall n | n in ms :: Accepted(ms, n)
  }

  predicate StrictlyOrdered(nodes: seq<TickNode>) {
    forall i, j | 0 <= i < j < |nodes| :: nodes[i].index < nodes[j].index
  }

  function Deviations(nodes: seq<TickNode>): seq<int>
    requires forall i | 0 <= i < |nodes| :: IsTick(nodes[i].index)
  {
    seq(|nodes|, i requires 0 <= i < |nodes| => nodes[i].sqrtPrice - Price(nodes[i].index))
  }

  /** A map takes exactly the ticks of the nodes, each to its position. */
  ghost predicate InvertsTicks(byTick: map<int, nat>, nodes: seq<TickNode>) {
    && (forall t | t in byTick :: byTick[t] < |nodes| && nodes[byTick[t]].index == t)
    && (forall i | 0 <= i < |nodes| :: nodes[i].index in byTick && byTick[nodes[i].index] == i)
  }

  ghost predicate InvertsScores(byScore: map<int, nat>, nodes: seq<TickNode>) {
    && (forall s | s in byScore :: byScore[s] < |nodes| && nodes[byScore[s]].score == s)
    && (forall i | 0 <= i < |nodes| :: nodes[i].score in byScore && byScore[nodes[i].score] == i)
  }

  /** First links resolve to later positions. */
  ghost predicate LinksAscend(byScore: map<int, nat>, nodes: seq<TickNode>) {
    forall i | 0 <= i < |nodes| && nodes[i].nexts != [] ::
      nodes[i].nexts[0] in byScore && byScore[nodes[i].nexts[0]] > i
  }

  ghost predicate SoundNodes(nodes: seq<TickNode>) {
    forall i | 0 <= i < |nodes| :: SoundNode(nodes[i])
  }

  /** The histogram counts every node once, under its deviation. */
  ghost predicate CountsDeviations(histogram: map<int, nat>, nodes: seq<TickNode>)
    requires SoundNodes(nodes)
  {
    forall d :: Count(histogram, d) == multiset(Deviations(nodes))[d]
  }

  /** A strictly tick-ordered array, its two inverse maps, upward links, and the histogram of its deviations. */
  ghost predicate WellBuilt(ix: Index) {
    && StrictlyOrdered(ix.nodes)
    && SoundNodes(ix.nodes)
    && InvertsTicks(ix.byTick, ix.nodes)
    && InvertsScores(ix.byScore, ix.nodes)
    && LinksAscend(ix.byScore, ix.nodes)
    && CountsDeviations(ix.priceDeviations, ix.nodes)
  }

  function Count(histogram: map<int, nat>, d: int): nat {
    if d in histogram then histogram[d] else 0
  }

  // ---------- sorting ----------

  predicate Ordered(nodes: seq<TickNode>) {
    forall i, j | 0 <= i < j < |nodes| :: nodes[i].index <= nodes[j].index
  }

  lemma {:induction false} PlacePermutes(node: TickNode, nodes: seq<TickNode>)
    ensures multiset(Place(node, nodes)) == multiset(nodes) + multiset{node}
  {
    if nodes == [] || node.index <= nodes[0].index {
    } else {
      PlacePermutes(node, nodes[1..]);
      assert nodes == [nodes[0]] + nodes[1..];
    }
  }

  lemma PrependKeepsOrder(node: TickNode, nodes: seq<TickNode>)
    requires Ordered(nodes) && forall i | 0 <= i < |nodes| :: node.index <= nodes[i].index
    ensures Ordered([node] + nodes)
  {
  }

  lemma {:induction false} PlaceKeepsOrder(node: TickNode, nodes: seq<TickNode>, floor: int)
    requires Ordered(nodes) && floor <= node.index
    requires forall i | 0 <= i < |nodes| :: floor <= nodes[i].index
    ensures Ordered(Place(node, nodes))
    ensures forall i | 0 <= i < |Place(node, nodes)| :: floor <= Place(node, nodes)[i].index
  {
    if nodes == [] || node.index <= nodes[0].index {
      PrependKeepsOrder(node, nodes);
    } else {
      PlaceKeepsOrder(node, nodes[1..], nodes[0].index);
      PrependKeepsOrder(nodes[0], Place(node, nodes[1..]));
    }
  }

  lemma {:induction false} SortOrders(nodes: seq<TickNode>)
    ensures Ordered(SortByTick(nodes))
  {
    if nodes != [] {
      var rest := SortByTick(nodes[1..]);
      SortOrders(nodes[1..]);
      var floor := if rest == [] || nodes[0].index <= rest[0].index then nodes[0].index else rest[0].index;
      PlaceKeepsOrder(nodes[0], rest, floor);
    }
  }

  lemma {:induction false} SortPermutes(nodes: seq<TickNode>)
    ensures multiset(SortByTick(nodes)) == multiset(nodes)
  {
    if nodes != [] {
      SortPermutes(nodes[1..]);
      PlacePermutes(nodes[0], SortByTick(nodes[1..]));
      assert nodes == [nodes[0]] + nodes[1..];
    }
  }

  lemma OrderedIsStrict(nodes: seq<TickNode>)
    requires Ordered(nodes)
    ensures StrictlyOrdered(nodes) <==> DistinctTicks(multiset(nodes))
  {
    if StrictlyOrdered(nodes) {
      StrictIsDistinct(nodes);
    } else {
      var i, j :| 0 <= i < j < |nodes| && nodes[i].index >= nodes[j].index;
      assert nodes[i].index == nodes[j].index;
      TwoPlaces(nodes, i, j);
      assert nodes[i] in multiset(nodes) && nodes[j] in multiset(nodes);
    }
  }

  /** A node at two places is counted twice. */
  lemma TwoPlaces(nodes: seq<TickNode>, i: nat, j: nat)
    requires i < j < |nodes|
    ensures nodes[i] == nodes[j] ==> multiset(nodes)[nodes[i]] >= 2
  {
    assert nodes == nodes[..j] + [nodes[j]] + nodes[j + 1..];
    assert nodes[..j][i] in multiset(nodes[..j]);
  }

  lemma MultisetOfTail(nodes: seq<TickNode>)
    requires nodes != []
    ensures multiset(nodes) == multiset{nodes[0]} + multiset(nodes[1..])
  {
    assert nodes == [nodes[0]] + nodes[1..];
  }

  lemma SameTails(a: seq<TickNode>, b: seq<TickNode>)
    requires a != [] && b != [] && a[0] == b[0] && multiset(a) == multiset(b)
    ensures multiset(a[1..]) == multiset(b[1..])
  {
    assert a == [a[0]] + a[1..] && b == [b[0]] + b[1..];
    assert multiset(a[1..]) == multiset(a) - multiset{a[0]};
  }

  lemma TailIsStrict(nodes: seq<TickNode>)
    requires StrictlyOrdered(nodes) && nodes != []
    ensures StrictlyOrdered(nodes[1..])
  {
  }

  lemma TailIsHigher(nodes: seq<TickNode>)
    requires StrictlyOrdered(nodes) && nodes != []
    ensures forall n | n in multiset(nodes[1..]) :: nodes[0].index < n.index
  {
  }

  lemma {:induction false} StrictIsDistinct(nodes: seq<TickNode>)
    requires StrictlyOrdered(nodes)
    ensures DistinctTicks(multiset(nodes))
  {
    if nodes != [] {
      TailIsStrict(nodes);
      StrictIsDistinct(nodes[1..]);
      TailIsHigher(nodes);
      AddOneBelow(nodes[0], multiset(nodes[1..]));
      MultisetOfTail(nodes);
    }
  }

  lemma AddOneBelow(first: TickNode, rest: multiset<TickNode>)
    requires DistinctTicks(rest) && forall n | n in rest :: first.index < n.index
    ensures DistinctTicks(multiset{first} + rest)
  {
    assert first !in rest;
  }

  /** The first node of a strictly ordered array is the lowest of its nodes. */
  lemma FirstIsLowest(nodes: seq<TickNode>, n: TickNode)
    requires StrictlyOrdered(nodes) && n in multiset(nodes)
    ensures nodes != [] && nodes[0].index <= n.index && (nodes[0].index == n.index ==> nodes[0] == n)
  {
    var i :| 0 <= i < |nodes| && nodes[i] == n;
  }

  lemma SameFirst(a: seq<TickNode>, b: seq<TickNode>)
    requires StrictlyOrdered(a) && StrictlyOrdered(b) && multiset(a) == multiset(b) && a != []
    ensures b != [] && a[0] == b[0]
  {
    assert a[0] in multiset(a);
    FirstIsLowest(b, a[0]);
    assert b[0] in multiset(b);
    FirstIsLowest(a, b[0]);
  }

  /** A strictly ordered array is determined by its multiset of nodes. */
  lemma {:induction false} StrictOrderIsUnique(a: seq<TickNode>, b: seq<TickNode>)
    requires StrictlyOrdered(a) && StrictlyOrdered(b) && multiset(a) == multiset(b)
    ensures a == b
  {
    assert |multiset(a)| == |a| && |multiset(b)| == |b|;
    if a != [] {
      SameFirst(a, b);
      SameTails(a, b);
      TailIsStrict(a);
      TailIsStrict(b);
      StrictOrderIsUnique(a[1..], b[1..]);
      assert a == [a[0]] + a[1..] && b == [b[0]] + b[1..];
    }
  }

  // ---------- inserting ----------

  predicate GoodKey(n: TickNode) {
    0 <= n.index + CETUS_TICK_BIAS <= I32_MAX && n.score == n.index + CETUS_TICK_BIAS
  }

  function Scores(nodes: seq<TickNode>): set<int> {
    set i | 0 <= i < |nodes| :: nodes[i].score
  }

  predicate DistinctScores(nodes: seq<TickNode>) {
    forall i, j | 0 <= i < j < |nodes| :: nodes[i].score != nodes[j].score
  }

  /** Filling keeps the nodes in reading order; it fails exactly on a wrong key or a repeated one. */
  lemma {:induction false} InsertedAllExact(ix: Index, nodes: seq<TickNode>)
    requires ix.byScore.Keys == Scores(ix.nodes)
    ensures InsertedAll(ix, nodes).Ok? <==>
      && (forall i | 0 <= i < |nodes| :: GoodKey(nodes[i]))
      && DistinctScores(nodes)
      && (forall i | 0 <= i < |nodes| :: nodes[i].score !in ix.byScore)
    ensures InsertedAll(ix, nodes).Ok? ==> InsertedAll(ix, nodes).value.nodes == ix.nodes + nodes
    decreases |nodes|
  {
    if nodes != [] {
      var first, rest := nodes[0], nodes[1..];
      var step := Inserted(ix, first);
      assert nodes == [first] + rest;
      if step.Ok? {
        assert step.value.nodes == ix.nodes + [first];
        ScoresOfAppend(ix.nodes, first);
        InsertedAllExact(step.value, rest);
        assert ix.nodes + [first] + rest == ix.nodes + nodes;
        assert forall i | 0 <= i < |rest| :: rest[i] == nodes[i + 1];
        if InsertedAll(ix, nodes).Ok? {
          assert forall i | 0 < i < |nodes| :: nodes[i] == rest[i - 1];
        }
      }
    }
  }

  lemma ScoresOfAppend(nodes: seq<TickNode>, node: TickNode)
    ensures Scores(nodes + [node]) == Scores(nodes) + {node.score}
  {
    var all := nodes + [node];
    forall s | s in Scores(nodes) + {node.score}
      ensures s in Scores(all)
    {
      if s == node.score {
        assert all[|nodes|].score == s;
      } else {
        var i :| 0 <= i < |nodes| && nodes[i].score == s;
        assert all[i].score == s;
      }
    }
  }

  // ---------- the maps ----------

  lemma {:induction false} MapsAreInverse(nodes: seq<TickNode>)
    requires StrictlyOrdered(nodes)
    requires forall i | 0 <= i < |nodes| :: nodes[i].score == nodes[i].index + CETUS_TICK_BIAS
    ensures InvertsTicks(ByTick(nodes), nodes)
    ensures InvertsScores(ByScore(nodes), nodes)
  {
    if nodes != [] {
      var init := nodes[..|nodes| - 1];
      assert forall i | 0 <= i < |init| :: init[i] == nodes[i];
      MapsAreInverse(init);
    }
  }

  // ---------- checking ----------

  /** One unit, or one part in 2^48. */
  predicate IsClose(distance: nat, computed: nat) {
    distance <= 1 || distance * 0x1_0000_0000_0000 <= computed
  }

  /**
   * A price is accepted exactly within tolerance, one unit or one part in 2^48 of the computed price, and
   * the saturation of its deviation then never bites.
   */
  lemma CheckPriceExact(n: TickNode)
    ensures CheckPrice(n).Ok? <==> IsTick(n.index) && WithinTolerance(n.sqrtPrice, n.index)
    ensures CheckPrice(n).Ok? <==> IsTick(n.index) && IsClose(Magnitude(n.sqrtPrice - Price(n.index)), Price(n.index))
    ensures CheckPrice(n).Ok? ==> CheckPrice(n).value == n.sqrtPrice - Price(n.index)
  {
    if IsTick(n.index) {
      SqrtPriceIsPrice(n.index);
      ToleranceExact(Magnitude(n.sqrtPrice - Price(n.index)), Price(n.index));
    }
  }

  lemma {:induction false} CheckFromSucceeds(
    nodes: seq<TickNode>, byScore: map<int, nat>, position: nat, deviations: map<int, nat>)
    requires position <= |nodes|
    requires forall s | s in byScore :: byScore[s] < |nodes|
    ensures CheckFrom(nodes, byScore, position, deviations).Ok? <==>
      forall i | position <= i < |nodes| :: CheckLink(nodes, byScore, i).None? && CheckPrice(nodes[i]).Ok?
    decreases |nodes| - position
  {
    if position < |nodes| {
      if CheckLink(nodes, byScore, position).None? && CheckPrice(nodes[position]).Ok? {
        CheckFromSucceeds(nodes, byScore, position + 1, Tally(deviations, CheckPrice(nodes[position]).value));
      }
    }
  }

  lemma {:induction false} CheckFromTallies(
    nodes: seq<TickNode>, byScore: map<int, nat>, position: nat, deviations: map<int, nat>, d: int)
    requires position <= |nodes|
    requires forall s | s in byScore :: byScore[s] < |nodes|
    requires CheckFrom(nodes, byScore, position, deviations).Ok?
    requires forall i | 0 <= i < |nodes| :: IsTick(nodes[i].index)
    ensures Count(CheckFrom(nodes, byScore, position, deviations).value, d)
         == Count(deviations, d) + multiset(Deviations(nodes)[position..])[d]
    decreases |nodes| - position
  {
    if position < |nodes| {
      var all, x := Deviations(nodes), nodes[position].sqrtPrice - Price(nodes[position].index);
      assert all[position] == x;
      CheckPriceExact(nodes[position]);
      CheckFromTallies(nodes, byScore, position + 1, Tally(deviations, x), d);
      assert all[position..] == [x] + all[position + 1..];
      TallyCounts(deviations, x, all[position + 1..], d);
    }
  }

  lemma TallyCounts(deviations: map<int, nat>, x: int, rest: seq<int>, d: int)
    ensures Count(Tally(deviations, x), d) + multiset(rest)[d] == Count(deviations, d) + multiset([x] + rest)[d]
  {
  }

  lemma CheckLinkExact(nodes: seq<TickNode>, position: nat)
    requires position < |nodes| && StrictlyOrdered(nodes)
    requires forall i | 0 <= i < |nodes| :: nodes[i].score == nodes[i].index + CETUS_TICK_BIAS
    requires forall s | s in ByScore(nodes) :: ByScore(nodes)[s] < |nodes|
    ensures CheckLink(nodes, ByScore(nodes), position).None? <==>
      nodes[position].nexts != [] ==> exists m :: m in multiset(nodes) && LinksUpTo(nodes[position], m)
    ensures CheckLink(nodes, ByScore(nodes), position).None? && nodes[position].nexts != [] ==>
      nodes[position].nexts[0] in ByScore(nodes) && ByScore(nodes)[nodes[position].nexts[0]] > position
  {
    MapsAreInverse(nodes);
    var node := nodes[position];
    if node.nexts != [] {
      if CheckLink(nodes, ByScore(nodes), position).None? {
        var m := nodes[ByScore(nodes)[node.nexts[0]]];
        assert m in multiset(nodes) && LinksUpTo(node, m);
      }
      if m :| m in multiset(nodes) && LinksUpTo(node, m) {
        var j :| 0 <= j < |nodes| && nodes[j] == m;
        assert ByScore(nodes)[node.nexts[0]] == j;
      }
    }
  }

  // ---------- building ----------

  /** Keys and ticks encode each other: each conversion undoes the other wherever it is defined. */
  lemma ScoresRoundTrip(tick: I32, score: U64)
    ensures CheckedScoreFromTick(tick) == Some(score) <==> CheckedTickFromScore(score) == Some(tick)
  {
  }

  lemma MembersOf(nodes: seq<TickNode>)
    ensures forall n :: n in multiset(nodes) <==> exists i :: 0 <= i < |nodes| && nodes[i] == n
  {
  }

  /** With good keys, repeating no key is repeating no tick. */
  lemma DistinctScoresAreDistinctTicks(input: seq<TickNode>, nodes: seq<TickNode>)
    requires nodes == SortByTick(input)
    requires forall n | n in multiset(input) :: GoodKey(n)
    ensures DistinctScores(input) <==> StrictlyOrdered(nodes)
  {
    SortOrders(input);
    SortPermutes(input);
    OrderedIsStrict(nodes);
    if DistinctScores(input) {
      ScoresDistinctTicks(input);
    } else {
      RepeatedKeyRepeatsTick(input);
    }
  }

  lemma RepeatedKeyRepeatsTick(input: seq<TickNode>)
    requires forall n | n in multiset(input) :: GoodKey(n)
    requires !DistinctScores(input)
    ensures !DistinctTicks(multiset(input))
  {
    var i, j :| 0 <= i < j < |input| && input[i].score == input[j].score;
    assert input == input[..i] + [input[i]] + input[i + 1..j] + [input[j]] + input[j + 1..];
    assert input[i] in multiset(input) && input[j] in multiset(input);
    assert GoodKey(input[i]) && GoodKey(input[j]);
    if input[i] == input[j] {
      assert multiset(input)[input[i]] >= 2;
    }
  }

  lemma {:induction false} ScoresDistinctTicks(nodes: seq<TickNode>)
    requires DistinctScores(nodes) && forall n | n in multiset(nodes) :: GoodKey(n)
    ensures DistinctTicks(multiset(nodes))
  {
    if nodes != [] {
      var first, rest := nodes[0], nodes[1..];
      assert nodes == [first] + rest;
      assert first in multiset(nodes);
      forall n | n in multiset(rest)
        ensures GoodKey(n) && n.index != first.index
      {
        assert n in multiset(nodes);
        var i :| 0 <= i < |rest| && rest[i] == n;
        assert nodes[i + 1] == n;
      }
      ScoresDistinctTicks(rest);
    }
  }

  predicate Checks(nodes: seq<TickNode>, position: nat)
    requires position < |nodes|
    requires forall s | s in ByScore(nodes) :: ByScore(nodes)[s] < |nodes|
  {
    CheckLink(nodes, ByScore(nodes), position).None? && CheckPrice(nodes[position]).Ok?
  }

  lemma ChecksIsAccepted(nodes: seq<TickNode>, position: nat)
    requires position < |nodes| && StrictlyOrdered(nodes)
    requires forall i | 0 <= i < |nodes| :: GoodKey(nodes[i])
    requires forall s | s in ByScore(nodes) :: ByScore(nodes)[s] < |nodes|
    ensures Checks(nodes, position) <==> Accepted(multiset(nodes), nodes[position])
    ensures Checks(nodes, position) && nodes[position].nexts != [] ==>
      nodes[position].nexts[0] in ByScore(nodes) && ByScore(nodes)[nodes[position].nexts[0]] > position
  {
    CheckPriceExact(nodes[position]);
    CheckLinkExact(nodes, position);
  }

  /** The checks of a strictly ordered array pass exactly when its nodes are acceptable. */
  lemma ChecksAreAcceptance(nodes: seq<TickNode>)
    requires StrictlyOrdered(nodes)
    requires forall i | 0 <= i < |nodes| :: GoodKey(nodes[i])
    requires forall s | s in ByScore(nodes) :: ByScore(nodes)[s] < |nodes|
    ensures (forall i | 0 <= i < |nodes| :: Checks(nodes, i)) <==> Acceptable(multiset(nodes))
  {
    StrictIsDistinct(nodes);
    forall i | 0 <= i < |nodes|
      ensures Checks(nodes, i) <==> Accepted(multiset(nodes), nodes[i])
    {
      ChecksIsAccepted(nodes, i);
    }
    MembersAccepted(nodes);
  }

  lemma MembersAccepted(nodes: seq<TickNode>)
    ensures (forall i | 0 <= i < |nodes| :: Accepted(multiset(nodes), nodes[i]))
      <==> (forall n | n in multiset(nodes) :: Accepted(multiset(nodes), n))
  {
    MembersOf(nodes);
  }

  /** Filling succeeds exactly when the keys encode the ticks and no tick repeats. */
  lemma FilledExact(input: seq<TickNode>)
    ensures InsertedAll(EMPTY, input).Ok? <==>
      (forall n | n in multiset(input) :: GoodKey(n)) && StrictlyOrdered(SortByTick(input))
    ensures InsertedAll(EMPTY, input).Ok? ==> InsertedAll(EMPTY, input).value.nodes == input
  {
    InsertedAllExact(EMPTY, input);
    MembersOf(input);
    assert EMPTY.nodes + input == input;
    if forall n | n in multiset(input) :: GoodKey(n) {
      DistinctScoresAreDistinctTicks(input, SortByTick(input));
    }
  }

  /**
   * Building succeeds exactly on an acceptable set of nodes whose size does not disagree with the
   * declared one, and what it builds is well built and holds exactly the nodes it was given.
   */
  lemma BuiltExact(declaredSize: Option<U64>, strictSize: bool, input: seq<TickNode>)
    ensures Built(declaredSize, strictSize, input).Ok? <==>
      Acceptable(multiset(input)) && !SizeDisagrees(declaredSize, strictSize, |input|)
    ensures Built(declaredSize, strictSize, input).Ok? ==>
      var ix := Built(declaredSize, strictSize, input).value;
      && WellBuilt(ix) && multiset(ix.nodes) == multiset(input)
      && ix.nodes == SortByTick(input)
  {
    var nodes := SortByTick(input);
    SortPermutes(input);
    FilledExact(input);
    BuiltCases(declaredSize, strictSize, input);
    assert |multiset(nodes)| == |nodes| && |multiset(input)| == |input|;
    if InsertedAll(EMPTY, input).Ok? {
      SortedKeysAreGood(input);
      PositionsInRange(nodes);
      ChecksAreAcceptance(nodes);
      if Built(declaredSize, strictSize, input).Ok? {
        MapsAreInverse(nodes);
        ChecksMakeSoundNodes(nodes);
        HistogramIsExact(nodes);
      }
    } else if Acceptable(multiset(input)) {
      AcceptableFills(input);
    }
  }

  lemma SortedKeysAreGood(input: seq<TickNode>)
    requires forall n | n in multiset(input) :: GoodKey(n)
    ensures forall i | 0 <= i < |SortByTick(input)| :: GoodKey(SortByTick(input)[i])
  {
    SortPermutes(input);
    MembersOf(SortByTick(input));
  }

  lemma AcceptableFills(input: seq<TickNode>)
    requires Acceptable(multiset(input))
    ensures InsertedAll(EMPTY, input).Ok?
  {
    SortPermutes(input);
    SortOrders(input);
    OrderedIsStrict(SortByTick(input));
    FilledExact(input);
  }

  /** Building is filling, the size check, and the checks of the sorted nodes. */
  lemma BuiltCases(declaredSize: Option<U64>, strictSize: bool, input: seq<TickNode>)
    ensures var nodes := SortByTick(input);
      && (Built(declaredSize, strictSize, input).Ok? <==>
            && InsertedAll(EMPTY, input).Ok? && !SizeDisagrees(declaredSize, strictSize, |nodes|)
            && (PositionsInRange(nodes); forall i | 0 <= i < |nodes| :: Checks(nodes, i)))
      && (Built(declaredSize, strictSize, input).Ok? ==>
            && (PositionsInRange(nodes); CheckFrom(nodes, ByScore(nodes), 0, map[]).Ok?)
            && Built(declaredSize, strictSize, input).value
               == Index(nodes, ByTick(nodes), ByScore(nodes), CheckFrom(nodes, ByScore(nodes), 0, map[]).value))
  {
    var nodes := SortByTick(input);
    FilledExact(input);
    PositionsInRange(nodes);
    CheckFromSucceeds(nodes, ByScore(nodes), 0, map[]);
    if forall i | 0 <= i < |nodes| :: Checks(nodes, i) {
      forall i | 0 <= i < |nodes|
        ensures CheckLink(nodes, ByScore(nodes), i).None? && CheckPrice(nodes[i]).Ok?
      {
        assert Checks(nodes, i);
      }
    }
  }

  lemma ChecksMakeSoundNodes(nodes: seq<TickNode>)
    requires StrictlyOrdered(nodes) && forall i | 0 <= i < |nodes| :: GoodKey(nodes[i])
    requires forall s | s in ByScore(nodes) :: ByScore(nodes)[s] < |nodes|
    requires forall i | 0 <= i < |nodes| :: Checks(nodes, i)
    ensures SoundNodes(nodes) && LinksAscend(ByScore(nodes), nodes)
  {
    forall i | 0 <= i < |nodes|
      ensures SoundNode(nodes[i])
      ensures nodes[i].nexts != [] ==>
        nodes[i].nexts[0] in ByScore(nodes) && ByScore(nodes)[nodes[i].nexts[0]] > i
    {
      assert Checks(nodes, i);
      ChecksIsAccepted(nodes, i);
    }
  }

  lemma HistogramIsExact(nodes: seq<TickNode>)
    requires SoundNodes(nodes)
    requires forall s | s in ByScore(nodes) :: ByScore(nodes)[s] < |nodes|
    requires CheckFrom(nodes, ByScore(nodes), 0, map[]).Ok?
    ensures CountsDeviations(CheckFrom(nodes, ByScore(nodes), 0, map[]).value, nodes)
  {
    var histogram := CheckFrom(nodes, ByScore(nodes), 0, map[]).value;
    var deviations := Deviations(nodes);
    assert deviations[0..] == deviations;
    forall d
      ensures Count(histogram, d) == multiset(deviations)[d]
    {
      CheckFromTallies(nodes, ByScore(nodes), 0, map[], d);
    }
  }

  /** Neither success nor the resulting index depends on the order the nodes were read in. */
  lemma BuildingIgnoresOrder(declaredSize: Option<U64>, strictSize: bool, a: seq<TickNode>, b: seq<TickNode>)
    requires multiset(a) == multiset(b)
    ensures Built(declaredSize, strictSize, a).Ok? == Built(declaredSize, strictSize, b).Ok?
    ensures Built(declaredSize, strictSize, a).Ok? ==>
      Built(declaredSize, strictSize, a) == Built(declaredSize, strictSize, b)
  {
    assert |a| == |multiset(a)| == |b|;
    BuiltExact(declaredSize, strictSize, a);
    BuiltExact(declaredSize, strictSize, b);
    if Built(declaredSize, strictSize, a).Ok? {
      BuiltCases(declaredSize, strictSize, a);
      BuiltCases(declaredSize, strictSize, b);
      StrictOrderIsUnique(SortByTick(a), SortByTick(b));
    }
  }

  // ---------- lookups are linear scans ----------

  /** An exact lookup finds the one node of a tick, if there is one. */
  lemma GetIsScan(ix: Index, tick: int)
    requires WellBuilt(ix)
    ensures match Get(ix, tick)
      case Some(n) => n in ix.nodes && n.index == tick
      case None => forall m | m in ix.nodes :: m.index != tick
  {
  }

  /** Every node is found in the map under its tick, and every key of the map is a node's tick. */
  lemma KeysAreTicks(ix: Index)
    requires WellBuilt(ix)
    ensures forall m | m in ix.nodes :: m.index in ix.byTick
    ensures forall t | t in ix.byTick :: NodeAt(ix, Some(t)).Some? && NodeAt(ix, Some(t)).value in ix.nodes
                                      && NodeAt(ix, Some(t)).value.index == t
  {
  }

  lemma NextAboveIsScan(ix: Index, tick: int)
    requires WellBuilt(ix)
    ensures match NextAbove(ix, tick)
      case Some(n) =>
        n in ix.nodes && n.index > tick && forall m | m in ix.nodes && m.index > tick :: n.index <= m.index
      case None => forall m | m in ix.nodes :: m.index <= tick
  {
    KeysAreTicks(ix);
  }

  lemma NextAtOrBelowIsScan(ix: Index, tick: int)
    requires WellBuilt(ix)
    ensures match NextAtOrBelow(ix, tick)
      case Some(n) =>
        n in ix.nodes && n.index <= tick && forall m | m in ix.nodes && m.index <= tick :: m.index <= n.index
      case None => forall m | m in ix.nodes :: m.index > tick
  {
    KeysAreTicks(ix);
  }

  lemma NextBelowIsScan(ix: Index, tick: int)
    requires WellBuilt(ix)
    ensures match NextBelow(ix, tick)
      case Some(n) =>
        n in ix.nodes && n.index < tick && forall m | m in ix.nodes && m.index < tick :: m.index <= n.index
      case None => forall m | m in ix.nodes :: m.index >= tick
  {
    NextAtOrBelowIsScan(ix, tick - 1);
  }

  /** No node is nearer than the one found, and the lower of two equally near ones is found. */
  lemma NearestIsScan(ix: Index, tick: int)
    requires WellBuilt(ix)
    ensures match Nearest(ix, tick)
      case Some(n) =>
        && n in ix.nodes
        && forall m | m in ix.nodes ::
             && Magnitude(n.index - tick) <= Magnitude(m.index - tick)
             && (Magnitude(n.index - tick) == Magnitude(m.index - tick) ==> n.index <= m.index)
      case None => ix.nodes == []
  {
    NextAboveIsScan(ix, tick);
    NextAtOrBelowIsScan(ix, tick);
    if ix.nodes != [] {
      assert ix.nodes[0] in ix.nodes;
    }
  }

  // ---------- walking the first links ----------

  /** The nodes a walk along first links visits; links only lead to later positions, so it ends. */
  function LinkWalk(ix: Index, position: nat): seq<TickNode>
    requires InvertsScores(ix.byScore, ix.nodes) && LinksAscend(ix.byScore, ix.nodes)
    requires position < |ix.nodes|
    decreases |ix.nodes| - position
  {
    var node := ix.nodes[position];
    if node.nexts == [] then [node] else [node] + LinkWalk(ix, ix.byScore[node.nexts[0]])
  }

  /** A walk along the links of a built index only climbs, and visits no node twice. */
  lemma {:induction false} LinkWalkClimbs(ix: Index, position: nat)
    requires WellBuilt(ix) && position < |ix.nodes|
    ensures StrictlyOrdered(LinkWalk(ix, position))
    ensures forall n | n in LinkWalk(ix, position) :: n in ix.nodes && ix.nodes[position].index <= n.index
    ensures |LinkWalk(ix, position)| <= |ix.nodes| - position
    decreases |ix.nodes| - position
  {
    var node := ix.nodes[position];
    if node.nexts != [] {
      LinkWalkClimbs(ix, ix.byScore[node.nexts[0]]);
    }
  }
}
