/** The pool's tick index: every initialised tick, ordered and validated. */
module TickIndex {
  import opened Wrappers
  import opened Checked
  import opened TickMath
  import opened OrderedKeys
  import Swap

  const CETUS_TICK_BIAS: int := 443_636
  const I32_MAX: int := 0x7FFF_FFFF
  const I128_MAX: int := 0x7FFF_FFFF_FFFF_FFFF_FFFF_FFFF_FFFF_FFFF

  /** A skip-list node: its key, its forward links, lowest level first, and the tick it stores. */
  datatype TickNode = TickNode(score: U64, nexts: seq<U64>, index: I32, sqrtPrice: U128, liquidityNet: I128)

  datatype TickError =
    | TickOutOfRange(tick: I32)
    | SizeMismatch(expected: U64, actual: nat)
    | DanglingLink(score: U64, neighbour: U64)
    | ScoreMismatch(tick: I32, score: U64)
    | DuplicateNode(score: U64)
    | Unordered
    | PriceMismatch(tick: I32, stored: U128, computed: U128)
    | OffGrid(tick: I32, spacing: U32)

  function CheckedScoreFromTick(tick: I32): Option<U64> {
    if 0 <= tick + CETUS_TICK_BIAS <= I32_MAX then Some(tick + CETUS_TICK_BIAS) else None
  }

  function CheckedTickFromScore(score: U64): Option<I32> {
    if score > I32_MAX then None else Some(score - CETUS_TICK_BIAS)
  }

  // ---------- the index as a value ----------

  datatype Index = Index(
    nodes: seq<TickNode>,
    byTick: map<int, nat>,
    byScore: map<int, nat>,
    priceDeviations: map<int, nat>)

  const EMPTY: Index := Index([], map[], map[], map[])

  /** The index after adding one node at the end. */
  function Inserted(ix: Index, node: TickNode): Result<Index, TickError> {
    var expected := CheckedScoreFromTick(node.index);
    if expected.None? then
      Err(TickOutOfRange(node.index))
    else if node.score != expected.value then
      Err(ScoreMismatch(node.index, node.score))
    else if node.score in ix.byScore then
      Err(DuplicateNode(node.score))
    else
      Ok(ix.(nodes := ix.nodes + [node],
             byTick := ix.byTick[node.index := |ix.nodes|],
             byScore := ix.byScore[node.score := |ix.nodes|]))
  }

  function InsertedAll(ix: Index, nodes: seq<TickNode>): Result<Index, TickError>
    decreases |nodes|
  {
    if nodes == [] then
      Ok(ix)
    else
      var next :- Inserted(ix, nodes[0]);
      InsertedAll(next, nodes[1..])
  }

  /** Places a node before the first one of no lower tick. */
  function Place(node: TickNode, nodes: seq<TickNode>): seq<TickNode> {
    if nodes == [] || node.index <= nodes[0].index then [node] + nodes
    else [nodes[0]] + Place(node, nodes[1..])
  }

  /** Stable sort by tick. */
  function SortByTick(nodes: seq<TickNode>): seq<TickNode> {
    if nodes == [] then [] else Place(nodes[0], SortByTick(nodes[1..]))
  }

  function ByTick(nodes: seq<TickNode>): map<int, nat> {
    if nodes == [] then map[]
    else ByTick(nodes[..|nodes| - 1])[nodes[|nodes| - 1].index := |nodes| - 1]
  }

  function ByScore(nodes: seq<TickNode>): map<int, nat> {
    if nodes == [] then map[]
    else ByScore(nodes[..|nodes| - 1])[nodes[|nodes| - 1].score := |nodes| - 1]
  }

  /** A node's first link must lead to another present node of a higher tick. */
  function CheckLink(nodes: seq<TickNode>, byScore: map<int, nat>, position: nat): Option<TickError>
    requires position < |nodes|
    requires forall s | s in byScore :: byScore[s] < |nodes|
  {
    var node := nodes[position];
    if node.nexts == [] then
      None
    else
      var next := node.nexts[0];
      if next in byScore && byScore[next] != position then
        if nodes[byScore[next]].index > node.index then None else Some(Unordered)
      else
        Some(DanglingLink(node.score, next))
  }

  function Saturated(difference: U128): int {
    if difference <= I128_MAX then difference else I128_MAX
  }

  /** Stored minus computed, as a saturated i128. */
  function Deviation(stored: U128, computed: U128): int {
    if stored >= computed then Saturated(stored - computed) else -Saturated(computed - stored)
  }

  /** The deviation of a node's stored price, if the tick math accepts it. */
  function CheckPrice(node: TickNode): Result<int, TickError> {
    match SqrtPrice(node.index)
    case Err(_) => Err(TickOutOfRange(node.index))
    case Ok(computed) =>
      var deviation := Deviation(node.sqrtPrice, computed);
      if Magnitude(deviation) > Tolerance(computed) then
        Err(PriceMismatch(node.index, node.sqrtPrice, computed))
      else
        Ok(deviation)
  }

  function Tally(deviations: map<int, nat>, deviation: int): map<int, nat> {
    deviations[deviation := (if deviation in deviations then deviations[deviation] else 0) + 1]
  }

  /** Checks the nodes from a position on, tallying their deviations. */
  function CheckFrom(nodes: seq<TickNode>, byScore: map<int, nat>, position: nat, deviations: map<int, nat>)
    : Result<map<int, nat>, TickError>
    requires position <= |nodes|
    requires forall s | s in byScore :: byScore[s] < |nodes|
    decreases |nodes| - position
  {
    if position == |nodes| then
      Ok(deviations)
    else
      match CheckLink(nodes, byScore, position)
      case Some(error) => Err(error)
      case None =>
        var deviation :- CheckPrice(nodes[position]);
        CheckFrom(nodes, byScore, position + 1, Tally(deviations, deviation))
  }

  function SizeDisagrees(declaredSize: Option<U64>, strictSize: bool, actual: nat): bool {
    strictSize && declaredSize.Some? && declaredSize.value != actual
  }

  lemma {:induction false} PositionsInRange(nodes: seq<TickNode>)
    ensures forall s | s in ByScore(nodes) :: ByScore(nodes)[s] < |nodes|
    ensures forall t | t in ByTick(nodes) :: ByTick(nodes)[t] < |nodes|
  {
    if nodes != [] {
      PositionsInRange(nodes[..|nodes| - 1]);
    }
  }

  /** The index with its nodes in tick order and its maps rebuilt. */
  function Reordered(ix: Index): Index {
    var nodes := SortByTick(ix.nodes);
    ix.(nodes := nodes, byTick := ByTick(nodes), byScore := ByScore(nodes))
  }

  /** What validating an index returns: its deviations, or the first thing wrong with it. */
  function Validated(ix: Index, declaredSize: Option<U64>, strictSize: bool): Result<map<int, nat>, TickError> {
    var nodes := SortByTick(ix.nodes);
    PositionsInRange(nodes);
    if SizeDisagrees(declaredSize, strictSize, |nodes|) then
      Err(SizeMismatch(declaredSize.value, |nodes|))
    else
      CheckFrom(nodes, ByScore(nodes), 0, map[])
  }

  /** What building an index from decoded nodes returns. */
  function Built(declaredSize: Option<U64>, strictSize: bool, nodes: seq<TickNode>): Result<Index, TickError> {
    var filled :- InsertedAll(EMPTY, nodes);
    var deviations :- Validated(filled, declaredSize, strictSize);
    Ok(Reordered(filled).(priceDeviations := deviations))
  }

  // ---------- lookups ----------

  function NodeAt(ix: Index, tick: Option<int>): Option<TickNode> {
    if tick.Some? && tick.value in ix.byTick && ix.byTick[tick.value] < |ix.nodes| then
      Some(ix.nodes[ix.byTick[tick.value]])
    else
      None
  }

  function Get(ix: Index, tick: int): Option<TickNode> {
    NodeAt(ix, Some(tick))
  }

  /** The smallest initialised tick strictly above a tick. */
  function NextAbove(ix: Index, tick: int): Option<TickNode> {
    NodeAt(ix, LeastAbove(ix.byTick.Keys, tick))
  }

  /** The largest initialised tick at or below a tick. */
  function NextAtOrBelow(ix: Index, tick: int): Option<TickNode> {
    NodeAt(ix, GreatestUpTo(ix.byTick.Keys, tick))
  }

  /** The largest initialised tick strictly below a tick. */
  function NextBelow(ix: Index, tick: int): Option<TickNode> {
    NodeAt(ix, GreatestUpTo(ix.byTick.Keys, tick - 1))
  }

  /** The initialised tick nearest to a tick, the lower one on a tie. */
  function Nearest(ix: Index, tick: int): Option<TickNode> {
    var upper, lower := NextAbove(ix, tick), NextAtOrBelow(ix, tick);
    if lower.Some? && upper.Some? then
      if upper.value.index - tick < tick - lower.value.index then upper else lower
    else if lower.Some? then
      lower
    else
      upper
  }

  function AsBoundary(node: TickNode): Swap.Boundary {
    Swap.Boundary(node.index, node.sqrtPrice, node.liquidityNet)
  }

  function BoundaryOf(node: Option<TickNode>): Option<Swap.Boundary> {
    if node.Some? then Some(AsBoundary(node.value)) else None
  }

  /** The index as the boundaries a swap walks over. */
  function AsSource(ix: Index): Swap.TickSource {
    Swap.TickSource((tick: I32) => BoundaryOf(NextAbove(ix, tick)), (tick: I32) => BoundaryOf(NextBelow(ix, tick)))
  }

  // ---------- the index in place ----------

  class Ticks {
    var nodes: seq<TickNode>
    var byTick: map<int, nat>
    var byScore: map<int, nat>
    var priceDeviations: map<int, nat>
    const declaredSize: Option<U64>
    const strictSize: bool

    function View(): Index
      reads this
    {
      Index(nodes, byTick, byScore, priceDeviations)
    }

    constructor (declaredSize: Option<U64>, strictSize: bool)
      ensures View() == EMPTY
      ensures this.declaredSize == declaredSize && this.strictSize == strictSize
    {
      this.declaredSize, this.strictSize := declaredSize, strictSize;
      nodes, byTick, byScore, priceDeviations := [], map[], map[], map[];
    }

    /** Adds one node, or leaves the index as it was. */
    method Insert(node: TickNode) returns (error: Option<TickError>)
      modifies this
      ensures Inserted(old(View()), node) == if error.Some? then Err(error.value) else Ok(View())
      ensures error.Some? ==> View() == old(View())
    {
      var expected := CheckedScoreFromTick(node.index);
      if expected.None? {
        return Some(TickOutOfRange(node.index));
      }
      if node.score != expected.value {
        return Some(ScoreMismatch(node.index, node.score));
      }
      if node.score in byScore {
        return Some(DuplicateNode(node.score));
      }
      var position := |nodes|;
      byScore := byScore[node.score := position];
      byTick := byTick[node.index := position];
      nodes := nodes + [node];
      return None;
    }

    /** Restores tick order and the maps. */
    method Reorder()
      modifies this
      ensures View() == Reordered(old(View()))
    {
      nodes := SortByTick(nodes);
      byTick, byScore := map[], map[];
      for position := 0 to |nodes|
        invariant nodes == SortByTick(old(nodes)) && priceDeviations == old(priceDeviations)
        invariant byTick == ByTick(nodes[..position]) && byScore == ByScore(nodes[..position])
      {
        assert nodes[..position + 1][..position] == nodes[..position];
        byTick := byTick[nodes[position].index := position];
        byScore := byScore[nodes[position].score := position];
      }
      assert nodes[..|nodes|] == nodes;
    }

    /** Checks every node's first link and price, in order. */
    method CheckNodes() returns (r: Result<map<int, nat>, TickError>)
      requires forall s | s in byScore :: byScore[s] < |nodes|
      ensures r == CheckFrom(nodes, byScore, 0, map[])
    {
      var deviations: map<int, nat> := map[];
      for position := 0 to |nodes|
        invariant CheckFrom(nodes, byScore, 0, map[]) == CheckFrom(nodes, byScore, position, deviations)
      {
        var broken := CheckLink(nodes, byScore, position);
        if broken.Some? {
          return Err(broken.value);
        }
        var computed := SqrtPriceAtTick(nodes[position].index);
        if computed.Err? {
          return Err(TickOutOfRange(nodes[position].index));
        }
        var deviation := Deviation(nodes[position].sqrtPrice, computed.value);
        if Magnitude(deviation) > Tolerance(computed.value) {
          return Err(PriceMismatch(nodes[position].index, nodes[position].sqrtPrice, computed.value));
        }
        deviations := Tally(deviations, deviation);
      }
      return Ok(deviations);
    }

    /** Sorts the index and checks it against its metadata and the tick math. */
    method Validate() returns (error: Option<TickError>)
      modifies this
      ensures Validated(old(View()), declaredSize, strictSize)
           == if error.Some? then Err(error.value) else Ok(priceDeviations)
      ensures View() == Reordered(old(View())).(priceDeviations := priceDeviations)
      ensures error.Some? ==> priceDeviations == old(priceDeviations)
    {
      Reorder();
      PositionsInRange(nodes);
      if SizeDisagrees(declaredSize, strictSize, |nodes|) {
        return Some(SizeMismatch(declaredSize.value, |nodes|));
      }
      var checked := CheckNodes();
      if checked.Err? {
        return Some(checked.error);
      }
      priceDeviations := checked.value;
      return None;
    }

    /** Inserts every node, then validates. */
    method Fill(input: seq<TickNode>) returns (error: Option<TickError>)
      requires View() == EMPTY
      modifies this
      ensures Built(declaredSize, strictSize, input) == if error.Some? then Err(error.value) else Ok(View())
    {
      for i := 0 to |input|
        invariant InsertedAll(EMPTY, input) == InsertedAll(View(), input[i..])
      {
        assert input[i..][1..] == input[i + 1..];
        error := Insert(input[i]);
        if error.Some? {
          return;
        }
      }
      error := Validate();
    }

    /** Checks that every tick lies on the pool's spacing grid; zero spacing accepts everything. */
    method ValidateSpacing(spacing: U32) returns (error: Option<TickError>)
      ensures error.None? <==> OnGrid(nodes, spacing)
      ensures error.Some? ==> FirstOffGrid(nodes, spacing, error.value)
    {
      if spacing == 0 {
        return None;
      }
      for i := 0 to |nodes|
        invariant forall j | 0 <= j < i :: nodes[j].index % spacing == 0
      {
        if nodes[i].index % spacing != 0 {
          assert [nodes[i]][0].index % spacing != 0 && OnGrid(nodes[..i], spacing);
          return Some(OffGrid(nodes[i].index, spacing));
        }
      }
      return None;
    }
  }

  predicate OnGrid(nodes: seq<TickNode>, spacing: U32) {
    spacing != 0 ==> forall j | 0 <= j < |nodes| :: nodes[j].index % spacing == 0
  }

  /** The error names the first tick off the grid. */
  ghost predicate FirstOffGrid(nodes: seq<TickNode>, spacing: U32, error: TickError) {
    exists i ::
      && 0 <= i < |nodes| && !OnGrid([nodes[i]], spacing) && OnGrid(nodes[..i], spacing)
      && error == OffGrid(nodes[i].index, spacing)
  }

  /** Builds an index that requires the declared size to match. */
  method New(declaredSize: Option<U64>, nodes: seq<TickNode>) returns (ticks: Ticks, error: Option<TickError>)
    ensures fresh(ticks)
    ensures Built(declaredSize, true, nodes) == if error.Some? then Err(error.value) else Ok(ticks.View())
  {
    ticks := new Ticks(declaredSize, true);
    error := ticks.Fill(nodes);
  }

  datatype SizeSkew = SizeSkew(declared: U64, observed: nat)

  /** Builds an index whose size may differ from the declared one; the difference is reported. */
  method FromChildren(declaredSize: U64, nodes: seq<TickNode>)
    returns (ticks: Ticks, skew: Option<SizeSkew>, error: Option<TickError>)
    ensures fresh(ticks)
    ensures Built(Some(declaredSize), false, nodes) == if error.Some? then Err(error.value) else Ok(ticks.View())
    ensures error.None? ==> (skew.None? <==> |ticks.nodes| == declaredSize)
    ensures error.None? && skew.Some? ==> skew.value == SizeSkew(declaredSize, |ticks.nodes|)
  {
    ticks := new Ticks(Some(declaredSize), false);
    skew := None;
    error := ticks.Fill(nodes);
    if error.None? && |ticks.nodes| != declaredSize {
      skew := Some(SizeSkew(declaredSize, |ticks.nodes|));
    }
  }
}
