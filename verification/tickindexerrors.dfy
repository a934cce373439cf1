/** Which error building a tick index gives: the first thing wrong with its nodes. */
module TickIndexErrors {
  import opened Wrappers
  import opened Checked
  import opened TickMath
  import opened TickIndex
  import opened TickIndexProperties

  // ---------- what can be wrong with a node ----------

  /** A key that does not encode its tick, or that an earlier node has. */
  function KeyFault(earlier: seq<TickNode>, n: TickNode): Option<TickError> {
    if !(0 <= n.index + 443_636 < 0x8000_0000) then Some(TickOutOfRange(n.index))
    else if n.score != n.index + 443_636 then Some(ScoreMismatch(n.index, n.score))
    else if exists m :: m in earlier && m.score == n.score then Some(DuplicateNode(n.score))
    else None
  }

  /** The nodes a link may lead to: those with that key, itself excepted. */
  predicate IsTarget(nodes: seq<TickNode>, n: TickNode, m: TickNode) {
    n.nexts != [] && m in nodes && m.score == n.nexts[0] != n.score
  }

  /** A first link that leads to no other node, or to one that is not above. */
  ghost function LinkFault(nodes: seq<TickNode>, n: TickNode): Option<TickError> {
    if n.nexts == [] then None
    else if forall m :: !IsTarget(nodes, n, m) then Some(DanglingLink(n.score, n.nexts[0]))
    else if exists m :: IsTarget(nodes, n, m) && m.index > n.index then None
    else Some(Unordered)
  }

  /** A tick off the grid of prices, or a stored price too far from the computed one. */
  function PriceFault(n: TickNode): Option<TickError> {
    if !IsTick(n.index) then
      Some(TickOutOfRange(n.index))
    else if IsClose(Magnitude(n.sqrtPrice - Price(n.index)), Price(n.index)) then
      None
    else
      SqrtPriceIsPrice(n.index);
      Some(PriceMismatch(n.index, n.sqrtPrice, Price(n.index)))
  }

  /** What is wrong with a node among the others: its link is looked at first. */
  ghost function Fault(nodes: seq<TickNode>, n: TickNode): Option<TickError> {
    if LinkFault(nodes, n).Some? then LinkFault(nodes, n) else PriceFault(n)
  }

  // ---------- filling ----------

  /** The error is that of the first node in reading order with a key at fault. */
  ghost predicate FirstKeyFault(nodes: seq<TickNode>, e: TickError) {
    exists i :: 0 <= i < |nodes| && KeyFault(nodes[..i], nodes[i]) == Some(e) && GoodKeys(nodes[..i])
  }

  ghost predicate GoodKeys(nodes: seq<TickNode>) {
    forall i | 0 <= i < |nodes| :: KeyFault(nodes[..i], nodes[i]).None?
  }

  lemma InsertFails(ix: Index, n: TickNode)
    requires ix.byScore.Keys == Scores(ix.nodes)
    ensures match KeyFault(ix.nodes, n)
      case Some(e) => Inserted(ix, n) == Err(e)
      case None => Inserted(ix, n).Ok? && Inserted(ix, n).value.nodes == ix.nodes + [n]
  {
    assert n.score in Scores(ix.nodes) <==> exists m :: m in ix.nodes && m.score == n.score;
  }

  lemma {:induction false} FillFails(ix: Index, nodes: seq<TickNode>, e: TickError)
    requires ix.byScore.Keys == Scores(ix.nodes) && GoodKeys(ix.nodes)
    ensures InsertedAll(ix, nodes) == Err(e) <==> FirstKeyFault(ix.nodes + nodes, e)
    ensures InsertedAll(ix, nodes).Ok? <==> GoodKeys(ix.nodes + nodes)
    decreases |nodes|
  {
    var all := ix.nodes + nodes;
    if nodes == [] {
      assert all == ix.nodes;
    } else {
      var k := |ix.nodes|;
      InsertFails(ix, nodes[0]);
      assert all[..k] == ix.nodes && all[k] == nodes[0];
      if Inserted(ix, nodes[0]).Ok? {
        var next := Inserted(ix, nodes[0]).value;
        ScoresOfAppend(ix.nodes, nodes[0]);
        OneMoreGoodKey(ix.nodes, nodes[0]);
        assert next.nodes + nodes[1..] == all;
        FillFails(next, nodes[1..], e);
      } else {
        OnlyFirstFault(all, k);
      }
    }
  }

  lemma OneMoreGoodKey(nodes: seq<TickNode>, n: TickNode)
    requires GoodKeys(nodes) && KeyFault(nodes, n).None?
    ensures GoodKeys(nodes + [n])
  {
    var all := nodes + [n];
    forall i | 0 <= i < |all|
      ensures KeyFault(all[..i], all[i]).None?
    {
      assert all[..i] == nodes[..i];
      assert i == |nodes| ==> nodes[..i] == nodes;
    }
  }

  /** The first fault is the only one that is first. */
  lemma OnlyFirstFault(nodes: seq<TickNode>, k: nat)
    requires k < |nodes| && GoodKeys(nodes[..k]) && KeyFault(nodes[..k], nodes[k]).Some?
    ensures forall e :: FirstKeyFault(nodes, e) <==> KeyFault(nodes[..k], nodes[k]) == Some(e)
    ensures !GoodKeys(nodes)
  {
    forall e | FirstKeyFault(nodes, e)
      ensures KeyFault(nodes[..k], nodes[k]) == Some(e)
    {
      var i :| 0 <= i < |nodes| && KeyFault(nodes[..i], nodes[i]) == Some(e) && GoodKeys(nodes[..i]);
      if i < k {
        GoodKeyAt(nodes, k, i);
      } else if k < i {
        GoodKeyAt(nodes, i, k);
      }
    }
  }

  lemma GoodKeyAt(nodes: seq<TickNode>, k: nat, i: nat)
    requires i < k <= |nodes| && GoodKeys(nodes[..k])
    ensures KeyFault(nodes[..i], nodes[i]).None?
  {
    assert nodes[..k][..i] == nodes[..i];
    assert KeyFault(nodes[..k][..i], nodes[..k][i]).None?;
  }

  // ---------- checking ----------

  /** The error is that of the first node of the array at fault. */
  ghost predicate FirstFault(nodes: seq<TickNode>, from: nat, e: TickError) {
    exists i :: from <= i < |nodes| && Fault(nodes, nodes[i]) == Some(e) && NoFaults(nodes, from, i)
  }

  ghost predicate NoFaults(nodes: seq<TickNode>, from: nat, to: nat)
    requires to <= |nodes|
  {
    forall i | from <= i < to :: Fault(nodes, nodes[i]).None?
  }

  lemma CheckPriceFails(n: TickNode)
    ensures match PriceFault(n)
      case Some(e) => CheckPrice(n) == Err(e)
      case None => CheckPrice(n).Ok?
  {
    CheckPriceExact(n);
    SqrtPriceIsPrice(n.index);
  }

  lemma CheckLinkFails(nodes: seq<TickNode>, position: nat)
    requires position < |nodes| && InvertsScores(ByScore(nodes), nodes)
    ensures CheckLink(nodes, ByScore(nodes), position) == LinkFault(nodes, nodes[position])
  {
    var node, byScore := nodes[position], ByScore(nodes);
    if node.nexts != [] {
      var next := node.nexts[0];
      forall m | IsTarget(nodes, node, m)
        ensures next in byScore && byScore[next] != position && m == nodes[byScore[next]]
      {
        var j :| 0 <= j < |nodes| && nodes[j] == m;
        assert byScore[next] == j;
      }
      if next in byScore && byScore[next] != position {
        assert IsTarget(nodes, node, nodes[byScore[next]]);
      }
    }
  }

  lemma {:induction false} CheckFails(nodes: seq<TickNode>, position: nat, deviations: map<int, nat>, e: TickError)
    requires position <= |nodes| && InvertsScores(ByScore(nodes), nodes)
    ensures CheckFrom(nodes, ByScore(nodes), position, deviations) == Err(e) <==> FirstFault(nodes, position, e)
    decreases |nodes| - position
  {
    if position < |nodes| {
      var n := nodes[position];
      CheckLinkFails(nodes, position);
      CheckPriceFails(n);
      if Fault(nodes, n).Some? {
        FaultHere(nodes, position, e);
      } else {
        FaultLater(nodes, position, e);
        CheckFails(nodes, position + 1, Tally(deviations, CheckPrice(n).value), e);
      }
    }
  }

  lemma FaultHere(nodes: seq<TickNode>, position: nat, e: TickError)
    requires position < |nodes| && Fault(nodes, nodes[position]).Some?
    ensures FirstFault(nodes, position, e) <==> Fault(nodes, nodes[position]) == Some(e)
  {
    assert NoFaults(nodes, position, position);
  }

  lemma FaultLater(nodes: seq<TickNode>, position: nat, e: TickError)
    requires position < |nodes| && Fault(nodes, nodes[position]).None?
    ensures FirstFault(nodes, position, e) <==> FirstFault(nodes, position + 1, e)
  {
    forall i | position < i < |nodes|
      ensures NoFaults(nodes, position, i) <==> NoFaults(nodes, position + 1, i)
    {
    }
  }

  // ---------- building ----------

  /**
   * Building fails with exactly one error: that of the first node in reading order whose key does not
   * encode its tick or repeats; failing that, the declared size, if it must agree and does not; failing
   * that, that of the first node in tick order whose link or price is at fault.
   */
  lemma BuildingFailsExactly(declaredSize: Option<U64>, strictSize: bool, input: seq<TickNode>, e: TickError)
    ensures Built(declaredSize, strictSize, input) == Err(e) <==>
      if !GoodKeys(input) then FirstKeyFault(input, e)
      else if strictSize && declaredSize.Some? && declaredSize.value != |input| then
        e == SizeMismatch(declaredSize.value, |input|)
      else FirstFault(SortByTick(input), 0, e)
  {
    FillingFails(input, e);
    if GoodKeys(input) {
      SortedFails(input, e);
    }
  }

  lemma FillingFails(input: seq<TickNode>, e: TickError)
    ensures InsertedAll(EMPTY, input) == Err(e) <==> FirstKeyFault(input, e)
    ensures InsertedAll(EMPTY, input).Ok? <==> GoodKeys(input)
    ensures InsertedAll(EMPTY, input).Ok? ==> InsertedAll(EMPTY, input).value.nodes == input
    ensures |SortByTick(input)| == |input|
    ensures GoodKeys(input) ==> !FirstKeyFault(input, e)
  {
    assert EMPTY.nodes + input == input;
    FillFails(EMPTY, input, e);
    FilledExact(input);
    SortPermutes(input);
    assert |multiset(SortByTick(input))| == |SortByTick(input)| && |multiset(input)| == |input|;
  }

  lemma SortedFails(input: seq<TickNode>, e: TickError)
    requires InsertedAll(EMPTY, input).Ok?
    ensures forall s | s in ByScore(SortByTick(input)) :: ByScore(SortByTick(input))[s] < |SortByTick(input)|
    ensures var nodes := SortByTick(input);
      CheckFrom(nodes, ByScore(nodes), 0, map[]) == Err(e) <==> FirstFault(nodes, 0, e)
  {
    FilledExact(input);
    SortedKeysAreGood(input);
    MapsAreInverse(SortByTick(input));
    PositionsInRange(SortByTick(input));
    CheckFails(SortByTick(input), 0, map[], e);
  }
}
