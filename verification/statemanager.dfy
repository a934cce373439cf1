/** Typed venue state, kept current from checkpoints. */
module StateManager {
  import opened Wrappers
  import opened OrderedKeys
  import Checked
  import TickIndex

  type Id = nat
  type Version = nat
  type Tag = string
  type Layout = string
  type Fingerprint = string
  type Contents = string

  datatype Venue = CetusPool(nodeUid: Id, tickSpacing: Checked.U32, state: Contents) | OtherVenue(state: Contents)

  datatype Decoded = Typed(venue: Venue) | Unrecognised | Undecodable

  /** Layout resolution and decoding, as they stand when one checkpoint is applied. */
  datatype Schema = Schema(
    resolve: Tag -> Option<Layout>,
    fingerprint: Layout -> Fingerprint,
    decode: (Contents, Tag, Layout) -> Decoded)

  /** An object of a checkpoint: one whose tag names a venue, a dynamic field with its parent, or neither. */
  datatype Object = VenueObject(tag: Tag, contents: Option<Contents>) | ChildObject(parent: Id) | OtherObject

  /** A changed object and the version it was left at, if it still exists. */
  datatype Change = Change(id: Id, outputVersion: Option<Version>)

  datatype Checkpoint = Checkpoint(
    sequence: nat,
    transactions: seq<seq<Change>>,
    objects: map<(Id, Version), Object>)

  datatype Slot = Slot(
    version: Version,
    tag: Tag,
    venue: Venue,
    layout: Fingerprint,
    ticks: Option<TickIndex.Index>)

  datatype State = State(
    slots: map<Id, Slot>,
    children: map<Id, set<Id>>,
    childOwners: map<Id, Id>,
    venuesCreated: nat,
    venuesUpdated: nat,
    venuesRemoved: nat,
    childrenIndexed: nat,
    childrenDropped: nat,
    failures: nat,
    unrecognised: nat,
    checkpoints: nat,
    lastApplied: nat)

  const NEW: State := State(map[], map[], map[], 0, 0, 0, 0, 0, 0, 0, 0, 0)

  // ---------- one checkpoint, phase by phase ----------

  datatype Candidate = Candidate(id: Id, version: Version, tag: Tag, contents: Option<Contents>)

  /** What a checkpoint's changes are sorted into. */
  datatype Gathered = Gathered(
    candidates: seq<Candidate>,
    removed: seq<Id>,
    childParents: seq<(Id, Id)>,
    missing: nat)

  function GatherOne(objects: map<(Id, Version), Object>, g: Gathered, change: Change): Gathered {
    if change.outputVersion.None? then
      g.(removed := g.removed + [change.id])
    else
      var key := (change.id, change.outputVersion.value);
      if key !in objects then
        g.(missing := g.missing + 1)
      else
        match objects[key]
        case VenueObject(tag, contents) =>
          g.(candidates := g.candidates + [Candidate(change.id, key.1, tag, contents)])
        case ChildObject(parent) => g.(childParents := g.childParents + [(parent, change.id)])
        case OtherObject => g
  }

  function GatherChanges(objects: map<(Id, Version), Object>, g: Gathered, changes: seq<Change>): Gathered
    decreases |changes|
  {
    if changes == [] then g else GatherChanges(objects, GatherOne(objects, g, changes[0]), changes[1..])
  }

  function Gather(objects: map<(Id, Version), Object>, g: Gathered, transactions: seq<seq<Change>>): Gathered
    decreases |transactions|
  {
    if transactions == [] then g
    else Gather(objects, GatherChanges(objects, g, transactions[0]), transactions[1..])
  }

  /** One object's decode result. */
  datatype Outcome = Outcome(id: Id, version: Version, tag: Tag, layout: Fingerprint, decoded: Decoded)

  /** The outcome of a candidate, unless it is skipped for want of a layout or of contents. */
  function OutcomeOf(schema: Schema, c: Candidate): Option<Outcome> {
    var layout := schema.resolve(c.tag);
    if layout.None? || c.contents.None? then None
    else Some(Outcome(c.id, c.version, c.tag, schema.fingerprint(layout.value),
                      schema.decode(c.contents.value, c.tag, layout.value)))
  }

  function Outcomes(schema: Schema, candidates: seq<Candidate>): seq<Outcome> {
    if candidates == [] then
      []
    else
      var outcome := OutcomeOf(schema, candidates[|candidates| - 1]);
      Outcomes(schema, candidates[..|candidates| - 1]) + (if outcome.Some? then [outcome.value] else [])
  }

  /** Whether an incoming version may replace the slot; None when it is older than the one held. */
  function ShouldPublish(current: Option<Version>, incoming: Version): Option<bool> {
    if current.None? || incoming > current.value then Some(true)
    else if incoming == current.value then Some(false)
    else None
  }

  function SlotOf(s: State, id: Id): Option<Slot> {
    if id in s.slots then Some(s.slots[id]) else None
  }

  /** The slot a typed outcome publishes; ticks loaded earlier are carried over. */
  function SlotFrom(o: Outcome, existing: Option<Slot>): Slot
    requires o.decoded.Typed?
  {
    Slot(o.version, o.tag, o.decoded.venue, o.layout, if existing.Some? then existing.value.ticks else None)
  }

  function Published(s: State, o: Outcome): State {
    match o.decoded
    case Unrecognised => s.(unrecognised := s.unrecognised + 1)
    case Undecodable => s.(failures := s.failures + 1)
    case Typed(_) =>
      var existing := SlotOf(s, o.id);
      match ShouldPublish(if existing.Some? then Some(existing.value.version) else None, o.version)
      case None => s.(failures := s.failures + 1)
      case Some(false) => s
      case Some(true) =>
        var replaced := s.(slots := s.slots[o.id := SlotFrom(o, existing)]);
        if existing.None? then replaced.(venuesCreated := s.venuesCreated + 1)
        else replaced.(venuesUpdated := s.venuesUpdated + 1)
  }

  function PublishedAll(s: State, outcomes: seq<Outcome>): State
    decreases |outcomes|
  {
    if outcomes == [] then s else PublishedAll(Published(s, outcomes[0]), outcomes[1..])
  }

  /** A removed pool takes its child set with it; a removed child leaves the set of its owner. */
  function Removed(s: State, id: Id): State {
    var unslotted := if id !in s.slots then s else
      s.(slots := s.slots - {id},
         venuesRemoved := s.venuesRemoved + 1,
         children := if s.slots[id].venue.CetusPool? then s.children - {s.slots[id].venue.nodeUid} else s.children);
    if id !in s.childOwners then
      unslotted
    else
      var parent := s.childOwners[id];
      unslotted.(
        childOwners := s.childOwners - {id},
        children := if parent in unslotted.children
          then unslotted.children[parent := unslotted.children[parent] - {id}] else unslotted.children)
  }

  function RemovedAll(s: State, ids: seq<Id>): State
    decreases |ids|
  {
    if ids == [] then s else RemovedAll(Removed(s, ids[0]), ids[1..])
  }

  /** The inner UIDs of the tracked pools. */
  function PricedParents(s: State): set<Id> {
    set id | id in s.slots && s.slots[id].venue.CetusPool? :: s.slots[id].venue.nodeUid
  }

  function GroupChildren(childParents: seq<(Id, Id)>): map<Id, seq<Id>> {
    if childParents == [] then
      map[]
    else
      var groups := GroupChildren(childParents[..|childParents| - 1]);
      var (parent, child) := childParents[|childParents| - 1];
      groups[parent := (if parent in groups then groups[parent] else []) + [child]]
  }

  /** A child enters the set of its parent unless the set is full; the owner is recorded only if it entered. */
  function ChildInserted(s: State, capacity: nat, parent: Id, child: Id): State
    requires parent in s.children
  {
    var held := s.children[parent];
    if child in held then s
    else if |held| >= capacity then s.(childrenDropped := s.childrenDropped + 1)
    else s.(children := s.children[parent := held + {child}],
            childOwners := s.childOwners[child := parent],
            childrenIndexed := s.childrenIndexed + 1)
  }

  function ChildrenInserted(s: State, capacity: nat, parent: Id, ids: seq<Id>): State
    requires parent in s.children
    decreases |ids|
  {
    if ids == [] then s else ChildrenInserted(ChildInserted(s, capacity, parent, ids[0]), capacity, parent, ids[1..])
  }

  function GroupIndexed(s: State, capacity: nat, parent: Id, ids: seq<Id>): State {
    var present := if parent in s.children then s else s.(children := s.children[parent := {}]);
    ChildrenInserted(present, capacity, parent, ids)
  }

  /** Indexes the groups of the priced parents, in ascending order of parent. */
  function GroupsIndexed(s: State, capacity: nat, priced: set<Id>, groups: map<Id, seq<Id>>, parents: set<int>): State
    requires parents <= groups.Keys
    decreases |parents|
  {
    var next := Least(parents);
    if next.None? then
      s
    else
      var parent := next.value;
      var indexed := if parent in priced then GroupIndexed(s, capacity, parent, groups[parent]) else s;
      GroupsIndexed(indexed, capacity, priced, groups, parents - {parent})
  }

  function ChildrenIndexed(s: State, capacity: nat, childParents: seq<(Id, Id)>): State {
    var groups := GroupChildren(childParents);
    if childParents == [] then s else GroupsIndexed(s, capacity, PricedParents(s), groups, groups.Keys)
  }

  predicate IsDuplicate(s: State, cp: Checkpoint) {
    s.checkpoints != 0 && cp.sequence <= s.lastApplied
  }

  const NOTHING: Gathered := Gathered([], [], [], 0)

  function GatheredFrom(cp: Checkpoint): Gathered {
    Gather(cp.objects, NOTHING, cp.transactions)
  }

  function Settled(s: State, capacity: nat, outcomes: seq<Outcome>, removed: seq<Id>, childParents: seq<(Id, Id)>)
    : State
  {
    ChildrenIndexed(RemovedAll(PublishedAll(s, outcomes), removed), capacity, childParents)
  }

  /** The state after a checkpoint: publication, then removals, then child indexing, then the commit. */
  function Applied(s: State, capacity: nat, schema: Schema, cp: Checkpoint): State {
    if IsDuplicate(s, cp) then
      s
    else
      var g := GatheredFrom(cp);
      var outcomes := Outcomes(schema, g.candidates);
      OutcomesAreFewer(schema, g.candidates);
      var counted := s.(failures := s.failures + g.missing + |g.candidates| - |outcomes|);
      var settled := Settled(counted, capacity, outcomes, g.removed, g.childParents);
      settled.(checkpoints := settled.checkpoints + 1, lastApplied := cp.sequence)
  }

  lemma {:induction false} OutcomesAreFewer(schema: Schema, candidates: seq<Candidate>)
    ensures |Outcomes(schema, candidates)| <= |candidates|
  {
    if candidates != [] {
      OutcomesAreFewer(schema, candidates[..|candidates| - 1]);
    }
  }

  // ---------- the manager in place ----------

  /** Sorts a checkpoint's changes into venue candidates, removals and children. */
  method GatherInto(cp: Checkpoint) returns (g: Gathered)
    ensures g == GatheredFrom(cp)
  {
    g := NOTHING;
    for t := 0 to |cp.transactions|
      invariant Gather(cp.objects, NOTHING, cp.transactions) == Gather(cp.objects, g, cp.transactions[t..])
    {
      var changes := cp.transactions[t];
      assert cp.transactions[t..][1..] == cp.transactions[t + 1..];
      ghost var before := g;
      for i := 0 to |changes|
        invariant GatherChanges(cp.objects, before, changes) == GatherChanges(cp.objects, g, changes[i..])
      {
        assert changes[i..][1..] == changes[i + 1..];
        g := GatherOne(cp.objects, g, changes[i]);
      }
    }
  }

  /** Resolves each distinct tag once. */
  method ResolveTags(schema: Schema, candidates: seq<Candidate>) returns (resolved: map<Tag, Layout>)
    ensures forall i | 0 <= i < |candidates| ::
      var layout := schema.resolve(candidates[i].tag);
      if layout.Some? then candidates[i].tag in resolved && resolved[candidates[i].tag] == layout.value
      else candidates[i].tag !in resolved
  {
    resolved := map[];
    var seen: set<Tag> := {};
    for i := 0 to |candidates|
      invariant forall j | 0 <= j < i :: candidates[j].tag in seen
      invariant forall tag | tag in seen ::
        if schema.resolve(tag).Some? then tag in resolved && resolved[tag] == schema.resolve(tag).value
        else tag !in resolved
      invariant resolved.Keys <= seen
    {
      var tag := candidates[i].tag;
      if tag !in seen {
        seen := seen + {tag};
        var layout := schema.resolve(tag);
        if layout.Some? {
          resolved := resolved[tag := layout.value];
        }
      }
    }
  }

  /** Decodes every candidate whose tag resolved and that has contents. */
  method DecodeAll(schema: Schema, candidates: seq<Candidate>) returns (outcomes: seq<Outcome>, skipped: nat)
    ensures outcomes == Outcomes(schema, candidates)
    ensures skipped == |candidates| - |outcomes|
  {
    var resolved := ResolveTags(schema, candidates);
    outcomes, skipped := [], 0;
    for i := 0 to |candidates|
      invariant outcomes == Outcomes(schema, candidates[..i])
      invariant skipped + |outcomes| == i
    {
      var c := candidates[i];
      assert candidates[..i + 1][..i] == candidates[..i];
      if c.tag in resolved && c.contents.Some? {
        var layout := resolved[c.tag];
        outcomes := outcomes + [Outcome(c.id, c.version, c.tag, schema.fingerprint(layout),
                                        schema.decode(c.contents.value, c.tag, layout))];
      } else {
        skipped := skipped + 1;
      }
    }
    assert candidates[..|candidates|] == candidates;
  }

  /** Groups children by parent, in the order they were seen. */
  method GroupByParent(childParents: seq<(Id, Id)>) returns (groups: map<Id, seq<Id>>)
    ensures groups == GroupChildren(childParents)
  {
    groups := map[];
    for i := 0 to |childParents|
      invariant groups == GroupChildren(childParents[..i])
    {
      assert childParents[..i + 1][..i] == childParents[..i];
      var (parent, child) := childParents[i];
      groups := groups[parent := (if parent in groups then groups[parent] else []) + [child]];
    }
    assert childParents[..|childParents|] == childParents;
  }

  datatype StateError = InvalidTicks(reason: TickIndex.TickError) | UnknownVenue(id: Id)

  /** A tracked pool whose spacing grid the index leaves. */
  predicate OffItsGrid(s: State, id: Id, ticks: TickIndex.Index) {
    && id in s.slots && s.slots[id].venue.CetusPool?
    && !TickIndex.OnGrid(ticks.nodes, s.slots[id].venue.tickSpacing)
  }

  class StateManager {
    var slots: map<Id, Slot>
    var children: map<Id, set<Id>>
    var childOwners: map<Id, Id>
    var venuesCreated: nat
    var venuesUpdated: nat
    var venuesRemoved: nat
    var childrenIndexed: nat
    var childrenDropped: nat
    var failures: nat
    var unrecognised: nat
    var checkpoints: nat
    var lastApplied: nat
    const childCapacity: nat

    function View(): State
      reads this
    {
      State(slots, children, childOwners, venuesCreated, venuesUpdated, venuesRemoved, childrenIndexed,
            childrenDropped, failures, unrecognised, checkpoints, lastApplied)
    }

    constructor (childCapacity: nat)
      ensures View() == NEW && this.childCapacity == childCapacity
    {
      this.childCapacity := childCapacity;
      slots, children, childOwners := map[], map[], map[];
      venuesCreated, venuesUpdated, venuesRemoved, childrenIndexed, childrenDropped := 0, 0, 0, 0, 0;
      failures, unrecognised, checkpoints, lastApplied := 0, 0, 0, 0;
    }

    /** Publishes one decode result, unless the slot already holds that version or a newer one. */
    method Publish(o: Outcome)
      modifies this
      ensures View() == Published(old(View()), o)
    {
      match o.decoded
      case Unrecognised => unrecognised := unrecognised + 1;
      case Undecodable => failures := failures + 1;
      case Typed(venue) =>
        var held := o.id in slots;
        var publish := ShouldPublish(if held then Some(slots[o.id].version) else None, o.version);
        if publish.None? {
          failures := failures + 1;
        } else if publish.value {
          var ticks := if held then slots[o.id].ticks else None;
          slots := slots[o.id := Slot(o.version, o.tag, venue, o.layout, ticks)];
          if held {
            venuesUpdated := venuesUpdated + 1;
          } else {
            venuesCreated := venuesCreated + 1;
          }
        }
    }

    /** Drops an id from the slots, and from the child index. */
    method Remove(id: Id)
      modifies this
      ensures View() == Removed(old(View()), id)
    {
      if id in slots {
        var venue := slots[id].venue;
        slots := slots - {id};
        venuesRemoved := venuesRemoved + 1;
        if venue.CetusPool? {
          children := children - {venue.nodeUid};
        }
      }
      if id in childOwners {
        var parent := childOwners[id];
        childOwners := childOwners - {id};
        if parent in children {
          children := children[parent := children[parent] - {id}];
        }
      }
    }

    /** Indexes one parent's children, up to its capacity. */
    method IndexGroup(parent: Id, ids: seq<Id>)
      modifies this
      ensures View() == GroupIndexed(old(View()), childCapacity, parent, ids)
    {
      if parent !in children {
        children := children[parent := {}];
      }
      ghost var before := View();
      for i := 0 to |ids|
        invariant parent in children
        invariant ChildrenInserted(before, childCapacity, parent, ids)
               == ChildrenInserted(View(), childCapacity, parent, ids[i..])
      {
        assert ids[i..][1..] == ids[i + 1..];
        InsertChild(parent, ids[i]);
      }
    }

    /** Inserts one child into a parent's set, or drops it if the set is full. */
    method InsertChild(parent: Id, child: Id)
      requires parent in children
      modifies this
      ensures View() == ChildInserted(old(View()), childCapacity, parent, child)
    {
      var held := children[parent];
      if child !in held {
        if |held| >= childCapacity {
          childrenDropped := childrenDropped + 1;
        } else {
          children := children[parent := held + {child}];
          childOwners := childOwners[child := parent];
          childrenIndexed := childrenIndexed + 1;
        }
      }
    }

    /** Indexes the children of the inner UIDs of tracked pools, and of nothing else. */
    method IndexChildren(childParents: seq<(Id, Id)>)
      modifies this
      ensures View() == ChildrenIndexed(old(View()), childCapacity, childParents)
    {
      if childParents == [] {
        return;
      }
      var priced := set id | id in slots && slots[id].venue.CetusPool? :: slots[id].venue.nodeUid;
      var groups := GroupByParent(childParents);
      var parents: set<int> := groups.Keys;
      while parents != {}
        invariant parents <= groups.Keys
        invariant GroupsIndexed(old(View()), childCapacity, priced, groups, groups.Keys)
               == GroupsIndexed(View(), childCapacity, priced, groups, parents)
        decreases |parents|
      {
        var parent := Least(parents).value;
        if parent in priced {
          IndexGroup(parent, groups[parent]);
        }
        parents := parents - {parent};
      }
    }

    /** Applies one checkpoint, or skips it whole if it was delivered before. */
    method ApplyCheckpoint(schema: Schema, cp: Checkpoint)
      modifies this
      ensures View() == Applied(old(View()), childCapacity, schema, cp)
    {
      if checkpoints != 0 && cp.sequence <= lastApplied {
        return;
      }
      var g := GatherInto(cp);
      var outcomes, skipped := DecodeAll(schema, g.candidates);
      failures := failures + g.missing + skipped;
      Settle(outcomes, g.removed, g.childParents);
      checkpoints := checkpoints + 1;
      lastApplied := cp.sequence;
    }

    /** Publishes, then removes, then indexes children. */
    method Settle(outcomes: seq<Outcome>, removed: seq<Id>, childParents: seq<(Id, Id)>)
      modifies this
      ensures View() == Settled(old(View()), childCapacity, outcomes, removed, childParents)
    {
      PublishOutcomes(outcomes);
      RemoveIds(removed);
      IndexChildren(childParents);
    }

    method PublishOutcomes(outcomes: seq<Outcome>)
      modifies this
      ensures View() == PublishedAll(old(View()), outcomes)
    {
      for i := 0 to |outcomes|
        invariant PublishedAll(old(View()), outcomes) == PublishedAll(View(), outcomes[i..])
      {
        assert outcomes[i..][1..] == outcomes[i + 1..];
        Publish(outcomes[i]);
      }
    }

    method RemoveIds(ids: seq<Id>)
      modifies this
      ensures View() == RemovedAll(old(View()), ids)
    {
      for i := 0 to |ids|
        invariant RemovedAll(old(View()), ids) == RemovedAll(View(), ids[i..])
      {
        assert ids[i..][1..] == ids[i + 1..];
        Remove(ids[i]);
      }
    }

    /** Attaches a tick index to a tracked pool; false when the id is untracked. */
    method SetTicks(id: Id, ticks: TickIndex.Index) returns (updated: bool)
      modifies this
      ensures updated <==> id in old(slots)
      ensures View() == if updated
        then old(View()).(slots := old(slots)[id := old(slots)[id].(ticks := Some(ticks))]) else old(View())
    {
      if id !in slots {
        return false;
      }
      slots := slots[id := slots[id].(ticks := Some(ticks))];
      return true;
    }

    /**
     * Replaces a pool's tick index from freshly decoded nodes. It is attached only if it builds, lies on
     * the pool's spacing grid and the pool is tracked; otherwise nothing changes and the first of these
     * to fail is reported.
     */
    method InstallTicks(id: Id, declaredSize: Checked.U64, nodes: seq<TickIndex.TickNode>)
      returns (ticks: Option<TickIndex.Index>, skew: Option<TickIndex.SizeSkew>, error: Option<StateError>)
      modifies this
      ensures var built := TickIndex.Built(Some(declaredSize), false, nodes);
        if built.Err? then
          error == Some(InvalidTicks(built.error))
        else if OffItsGrid(old(View()), id, built.value) then
          && error.Some? && error.value.InvalidTicks?
          && TickIndex.FirstOffGrid(built.value.nodes, old(slots)[id].venue.tickSpacing, error.value.reason)
        else if id !in old(slots) then
          error == Some(UnknownVenue(id))
        else
          error.None? && ticks == Some(built.value)
      ensures error.None? ==>
        skew == if |ticks.value.nodes| == declaredSize then None
                else Some(TickIndex.SizeSkew(declaredSize, |ticks.value.nodes|))
      ensures error.Some? ==> ticks.None? && View() == old(View())
      ensures error.None? ==>
        View() == old(View()).(slots := old(slots)[id := old(slots)[id].(ticks := ticks)])
    {
      ticks, skew, error := None, None, None;
      var built, observed, invalid := TickIndex.FromChildren(declaredSize, nodes);
      if invalid.Some? {
        error := Some(InvalidTicks(invalid.value));
        return;
      }
      if id in slots && slots[id].venue.CetusPool? {
        var offGrid := built.ValidateSpacing(slots[id].venue.tickSpacing);
        if offGrid.Some? {
          error := Some(InvalidTicks(offGrid.value));
          return;
        }
      }
      var updated := SetTicks(id, built.View());
      if updated {
        ticks, skew := Some(built.View()), observed;
      } else {
        error := Some(UnknownVenue(id));
      }
    }
  }
}
