/** What every stream keeps true of the bounded child index and its reverse owner map. */
module ChildIndex {
  import opened Wrappers
  import opened OrderedKeys
  import Arith
  import opened StateManager
  import opened StateProperties
  import opened StreamProperties

  function UidOf(venue: Venue): Option<Id> {
    if venue.CetusPool? then Some(venue.nodeUid) else None
  }

  /** Each child hangs off one fixed parent and each venue has one fixed inner UID, or none. */
  datatype Wiring = Wiring(parentOf: Id -> Id, innerUid: Id -> Option<Id>)

  ghost predicate Respects(w: Wiring, d: Delivery) {
    && (forall p | NamesChild(d.checkpoint.objects, ChangesOf(d.checkpoint), p) :: p.0 == w.parentOf(p.1))
    && (forall o | o in OutcomeSet(d.schema, d.checkpoint) && o.decoded.Typed? ::
          UidOf(o.decoded.venue) == w.innerUid(o.id))
  }

  ghost predicate SlotsFit(w: Wiring, slots: map<Id, Slot>) {
    forall id | id in slots :: UidOf(slots[id].venue) == w.innerUid(id)
  }

  /** An indexed child's owner entry names the parent whose set holds it. */
  ghost predicate OwnersMatch(w: Wiring, children: map<Id, set<Id>>, owners: map<Id, Id>) {
    && (forall p, c | p in children && c in children[p] :: c in owners && owners[c] == p)
    && (forall c | c in owners :: owners[c] == w.parentOf(c))
  }

  ghost predicate WithinCapacity(capacity: nat, children: map<Id, set<Id>>) {
    forall p | p in children :: |children[p]| <= capacity
  }

  predicate IsPriced(slots: map<Id, Slot>, p: Id, id: Id) {
    id in slots && UidOf(slots[id].venue) == Some(p)
  }

  /** Every indexed parent is the inner UID of a tracked pool. */
  ghost predicate ParentsPriced(slots: map<Id, Slot>, parents: set<Id>) {
    forall p | p in parents :: exists id :: IsPriced(slots, p, id)
  }

  ghost predicate Sound(w: Wiring, capacity: nat, s: State) {
    && SlotsFit(w, s.slots)
    && OwnersMatch(w, s.children, s.childOwners)
    && WithinCapacity(capacity, s.children)
    && ParentsPriced(s.slots, s.children.Keys)
  }

  // ---------- publication ----------

  /** Replacing a slot by one of the same inner UID, or adding one, keeps every priced parent priced. */
  lemma SlotReplacedSound(w: Wiring, slots: map<Id, Slot>, after: map<Id, Slot>, parents: set<Id>, id: Id, slot: Slot)
    requires SlotsFit(w, slots) && ParentsPriced(slots, parents) && UidOf(slot.venue) == w.innerUid(id)
    requires after == slots[id := slot]
    ensures SlotsFit(w, after) && ParentsPriced(after, parents)
  {
    forall p | p in parents
      ensures exists other :: IsPriced(after, p, other)
    {
      var other :| IsPriced(slots, p, other);
      assert IsPriced(after, p, other);
    }
  }

  lemma PublishedSound(w: Wiring, capacity: nat, s: State, o: Outcome)
    requires Sound(w, capacity, s)
    requires o.decoded.Typed? ==> UidOf(o.decoded.venue) == w.innerUid(o.id)
    ensures Sound(w, capacity, Published(s, o))
  {
    if o.decoded.Typed? {
      var slot := SlotFrom(o, SlotOf(s, o.id));
      SlotReplacedSound(w, s.slots, s.slots[o.id := slot], s.children.Keys, o.id, slot);
    }
  }

  lemma {:induction false} PublishedAllSound(w: Wiring, capacity: nat, s: State, outcomes: seq<Outcome>)
    requires Sound(w, capacity, s)
    requires forall o | o in Members(outcomes) && o.decoded.Typed? :: UidOf(o.decoded.venue) == w.innerUid(o.id)
    ensures Sound(w, capacity, PublishedAll(s, outcomes))
    decreases |outcomes|
  {
    if outcomes != [] {
      assert outcomes[0] in Members(outcomes);
      assert forall o | o in Members(outcomes[1..]) :: o in Members(outcomes);
      PublishedSound(w, capacity, s, outcomes[0]);
      PublishedAllSound(w, capacity, Published(s, outcomes[0]), outcomes[1..]);
    }
  }

  // ---------- removal ----------

  /** What is left of the child sets after a removal: fewer sets, each without the removed id. */
  lemma RemovedChildren(w: Wiring, s: State, id: Id)
    requires OwnersMatch(w, s.children, s.childOwners)
    ensures var t := Removed(s, id);
      && t.slots == s.slots - {id} && t.childOwners == s.childOwners - {id}
      && t.children.Keys <= s.children.Keys
      && (forall p | p in t.children :: t.children[p] == s.children[p] - {id})
      && (id in s.slots && s.slots[id].venue.CetusPool? ==> s.slots[id].venue.nodeUid !in t.children)
  {
  }

  /** Taking one id out of every set and of the owner map keeps the two in step. */
  lemma ChildTakenOut(
    w: Wiring, children: map<Id, set<Id>>, owners: map<Id, Id>,
    left: map<Id, set<Id>>, leftOwners: map<Id, Id>, id: Id)
    requires OwnersMatch(w, children, owners)
    requires left.Keys <= children.Keys && leftOwners == owners - {id}
    requires forall p | p in left :: left[p] == children[p] - {id}
    ensures OwnersMatch(w, left, leftOwners)
  {
    forall p, c | p in left && c in left[p]
      ensures c in leftOwners && leftOwners[c] == p
    {
      assert p in children && c in children[p];
    }
    forall c | c in leftOwners
      ensures leftOwners[c] == w.parentOf(c)
    {
      assert c in owners;
    }
  }

  lemma SmallerSetsFit(capacity: nat, children: map<Id, set<Id>>, left: map<Id, set<Id>>, id: Id)
    requires WithinCapacity(capacity, children) && left.Keys <= children.Keys
    requires forall p | p in left :: left[p] == children[p] - {id}
    ensures WithinCapacity(capacity, left)
  {
    forall p | p in left
      ensures |left[p]| <= capacity
    {
      assert p in children;
      SubsetIsSmaller(left[p], children[p]);
    }
  }

  lemma RemovedSound(w: Wiring, capacity: nat, s: State, id: Id)
    requires Sound(w, capacity, s)
    ensures Sound(w, capacity, Removed(s, id))
  {
    RemovedChildren(w, s, id);
    RemainderSound(w, capacity, s, Removed(s, id), id);
  }

  lemma RemainderSound(w: Wiring, capacity: nat, s: State, t: State, id: Id)
    requires Sound(w, capacity, s)
    requires t.slots == s.slots - {id} && t.childOwners == s.childOwners - {id} && t.children.Keys <= s.children.Keys
    requires forall p | p in t.children :: t.children[p] == s.children[p] - {id}
    requires id in s.slots && s.slots[id].venue.CetusPool? ==> s.slots[id].venue.nodeUid !in t.children
    ensures Sound(w, capacity, t)
  {
    ChildTakenOut(w, s.children, s.childOwners, t.children, t.childOwners, id);
    SmallerSetsFit(capacity, s.children, t.children, id);
    SlotRemovedSound(w, s.slots, t.slots, s.children.Keys, t.children.Keys, id);
  }

  /** Parents that are left, the removed slot's own excepted, are still priced. */
  lemma SlotRemovedSound(
    w: Wiring, slots: map<Id, Slot>, after: map<Id, Slot>, parents: set<Id>, left: set<Id>, id: Id)
    requires SlotsFit(w, slots) && ParentsPriced(slots, parents) && left <= parents && after == slots - {id}
    requires id in slots && slots[id].venue.CetusPool? ==> slots[id].venue.nodeUid !in left
    ensures SlotsFit(w, after) && ParentsPriced(after, left)
  {
    forall p | p in left
      ensures exists other :: IsPriced(after, p, other)
    {
      var other :| IsPriced(slots, p, other);
      assert IsPriced(after, p, other);
    }
  }

  lemma {:induction false} SubsetIsSmaller(a: set<Id>, b: set<Id>)
    requires a <= b
    ensures |a| <= |b|
  {
    assert b == a + (b - a);
  }

  lemma {:induction false} RemovedAllSound(w: Wiring, capacity: nat, s: State, ids: seq<Id>)
    requires Sound(w, capacity, s)
    ensures Sound(w, capacity, RemovedAll(s, ids))
    decreases |ids|
  {
    if ids != [] {
      RemovedSound(w, capacity, s, ids[0]);
      RemovedAllSound(w, capacity, Removed(s, ids[0]), ids[1..]);
    }
  }

  // ---------- indexing ----------

  lemma ChildInsertedSound(w: Wiring, capacity: nat, s: State, parent: Id, child: Id)
    requires Sound(w, capacity, s) && parent in s.children && w.parentOf(child) == parent
    ensures Sound(w, capacity, ChildInserted(s, capacity, parent, child))
    ensures parent in ChildInserted(s, capacity, parent, child).children
  {
    assert ChildInserted(s, capacity, parent, child).children.Keys == s.children.Keys;
  }

  lemma {:induction false} ChildrenInsertedSound(w: Wiring, capacity: nat, s: State, parent: Id, ids: seq<Id>)
    requires Sound(w, capacity, s) && parent in s.children
    requires forall child | child in ids :: w.parentOf(child) == parent
    ensures Sound(w, capacity, ChildrenInserted(s, capacity, parent, ids))
    decreases |ids|
  {
    if ids != [] {
      ChildInsertedSound(w, capacity, s, parent, ids[0]);
      ChildrenInsertedSound(w, capacity, ChildInserted(s, capacity, parent, ids[0]), parent, ids[1..]);
    }
  }

  lemma GroupIndexedSound(w: Wiring, capacity: nat, s: State, parent: Id, ids: seq<Id>)
    requires Sound(w, capacity, s) && parent in PricedParents(s)
    requires forall child | child in ids :: w.parentOf(child) == parent
    ensures Sound(w, capacity, GroupIndexed(s, capacity, parent, ids))
  {
    var present := if parent in s.children then s else s.(children := s.children[parent := {}]);
    var id :| id in s.slots && s.slots[id].venue.CetusPool? && s.slots[id].venue.nodeUid == parent;
    assert IsPriced(s.slots, parent, id);
    assert present.children.Keys == s.children.Keys + {parent};
    ChildrenInsertedSound(w, capacity, present, parent, ids);
  }

  /** A group holds only children seen with its parent. */
  lemma {:induction false} GroupsHoldTheirChildren(childParents: seq<(Id, Id)>, p: Id, c: Id)
    requires p in GroupChildren(childParents) && c in GroupChildren(childParents)[p]
    ensures (p, c) in childParents
  {
    var n := |childParents| - 1;
    var groups := GroupChildren(childParents[..n]);
    assert childParents == childParents[..n] + [childParents[n]];
    if (p, c) != childParents[n] {
      GroupsHoldTheirChildren(childParents[..n], p, c);
    }
  }

  lemma {:induction false} GroupsIndexedSound(
    w: Wiring, capacity: nat, s: State, priced: set<Id>, groups: map<Id, seq<Id>>, parents: set<int>)
    requires Sound(w, capacity, s) && parents <= groups.Keys && priced == PricedParents(s)
    requires forall p | p in groups :: forall c | c in groups[p] :: w.parentOf(c) == p
    ensures Sound(w, capacity, GroupsIndexed(s, capacity, priced, groups, parents))
    decreases |parents|
  {
    if parents != {} {
      var parent := Least(parents).value;
      var next := if parent in priced then GroupIndexed(s, capacity, parent, groups[parent]) else s;
      if parent in priced {
        GroupIndexedSound(w, capacity, s, parent, groups[parent]);
      }
      GroupKeepsRest(s, capacity, parent, groups[parent]);
      GroupsIndexedSound(w, capacity, next, priced, groups, parents - {parent});
    }
  }

  // ---------- runs ----------

  lemma AppliedSound(w: Wiring, capacity: nat, s: State, d: Delivery)
    requires Sound(w, capacity, s) && Respects(w, d)
    ensures Sound(w, capacity, Applied(s, capacity, d.schema, d.checkpoint))
  {
    var cp := d.checkpoint;
    if !IsDuplicate(s, cp) {
      AppliedInPhases(s, capacity, d.schema, cp);
      var g := GatheredFrom(cp);
      var outcomes := Outcomes(d.schema, g.candidates);
      OutcomesAreFewer(d.schema, g.candidates);
      PublishedAllSound(w, capacity, s.(failures := s.failures + g.missing + |g.candidates| - |outcomes|), outcomes);
      RemovedAllSound(w, capacity, AfterPublication(s, d.schema, cp), g.removed);
      IndexingSound(w, capacity, AfterRemoval(s, d.schema, cp), d);
    }
  }

  lemma IndexingSound(w: Wiring, capacity: nat, s: State, d: Delivery)
    requires Sound(w, capacity, s) && Respects(w, d)
    ensures Sound(w, capacity, ChildrenIndexed(s, capacity, GatheredFrom(d.checkpoint).childParents))
  {
    var cp := d.checkpoint;
    var childParents := GatheredFrom(cp).childParents;
    GatherIsFlat(cp.objects, NOTHING, cp.transactions);
    GatherMembers(cp.objects, NOTHING, ChangesOf(cp));
    var groups := GroupChildren(childParents);
    forall p, c | p in groups && c in groups[p]
      ensures w.parentOf(c) == p
    {
      GroupsHoldTheirChildren(childParents, p, c);
      assert NamesChild(cp.objects, ChangesOf(cp), (p, c));
    }
    GroupsIndexedSound(w, capacity, s, PricedParents(s), groups, groups.Keys);
  }

  /**
   * Over every run with fixed wiring: each indexed child's owner entry names the parent holding it, no
   * set exceeds its capacity, and every indexed parent is the inner UID of a tracked pool.
   */
  lemma {:induction false} IndexStaysSound(w: Wiring, capacity: nat, s: State, ds: seq<Delivery>)
    requires Sound(w, capacity, s) && forall d | d in ds :: Respects(w, d)
    ensures Sound(w, capacity, Run(s, capacity, ds))
    decreases |ds|
  {
    if ds != [] {
      AppliedSound(w, capacity, s, ds[0]);
      IndexStaysSound(w, capacity, Applied(s, capacity, ds[0].schema, ds[0].checkpoint), ds[1..]);
    }
  }

  // ---------- completeness ----------

  predicate HeldOrFull(capacity: nat, children: map<Id, set<Id>>, parent: Id, child: Id) {
    parent in children && (child in children[parent] || |children[parent]| >= capacity)
  }

  lemma {:induction false} InsertedOrFull(s: State, capacity: nat, parent: Id, ids: seq<Id>, child: Id)
    requires parent in s.children && (child in ids || HeldOrFull(capacity, s.children, parent, child))
    ensures HeldOrFull(capacity, ChildrenInserted(s, capacity, parent, ids).children, parent, child)
    decreases |ids|
  {
    if ids != [] {
      assert ids == [ids[0]] + ids[1..];
      InsertedOrFull(ChildInserted(s, capacity, parent, ids[0]), capacity, parent, ids[1..], child);
    }
  }

  /** Indexing the group of one parent leaves the sets of the others alone. */
  lemma {:induction false} OtherSetsKept(s: State, capacity: nat, parent: Id, ids: seq<Id>, other: Id, child: Id)
    requires parent in s.children && other != parent && HeldOrFull(capacity, s.children, other, child)
    ensures HeldOrFull(capacity, ChildrenInserted(s, capacity, parent, ids).children, other, child)
    decreases |ids|
  {
    if ids != [] {
      OtherSetsKept(ChildInserted(s, capacity, parent, ids[0]), capacity, parent, ids[1..], other, child);
    }
  }

  lemma {:induction false} GroupsHeldOrFull(
    s: State, capacity: nat, priced: set<Id>, groups: map<Id, seq<Id>>, parents: set<int>, p: Id, c: Id)
    requires parents <= groups.Keys && p in priced
    requires if p in parents then c in groups[p] else HeldOrFull(capacity, s.children, p, c)
    ensures HeldOrFull(capacity, GroupsIndexed(s, capacity, priced, groups, parents).children, p, c)
    decreases |parents|
  {
    if parents != {} {
      var parent := Least(parents).value;
      var ids := groups[parent];
      var present := if parent in s.children then s else s.(children := s.children[parent := {}]);
      if parent == p {
        InsertedOrFull(present, capacity, p, ids, c);
      } else if p !in parents {
        OtherSetsKept(present, capacity, parent, ids, p, c);
      }
      var next := if parent in priced then GroupIndexed(s, capacity, parent, ids) else s;
      GroupsHeldOrFull(next, capacity, priced, groups, parents - {parent}, p, c);
    }
  }

  lemma {:induction false} GroupsHoldAll(childParents: seq<(Id, Id)>, p: Id, c: Id)
    requires (p, c) in childParents
    ensures p in GroupChildren(childParents) && c in GroupChildren(childParents)[p]
  {
    var n := |childParents| - 1;
    assert childParents == childParents[..n] + [childParents[n]];
    if (p, c) in childParents[..n] {
      GroupsHoldAll(childParents[..n], p, c);
    }
  }

  /**
   * A child named in a checkpoint under a pool tracked after its removals ends up in the index unless
   * the set is full, even when the same checkpoint also deletes that child: removals come first.
   */
  lemma NamedChildIsHeldOrFull(s: State, capacity: nat, schema: Schema, cp: Checkpoint, p: Id, c: Id)
    requires !IsDuplicate(s, cp) && NamesChild(cp.objects, ChangesOf(cp), (p, c))
    requires exists id :: IsPriced(Applied(s, capacity, schema, cp).slots, p, id)
    ensures HeldOrFull(capacity, Applied(s, capacity, schema, cp).children, p, c)
  {
    var childParents := GatheredFrom(cp).childParents;
    var settled := AfterRemoval(s, schema, cp);
    AppliedInPhases(s, capacity, schema, cp);
    IndexingKeepsRest(settled, capacity, childParents);
    GatherIsFlat(cp.objects, NOTHING, cp.transactions);
    GatherMembers(cp.objects, NOTHING, ChangesOf(cp));
    GroupsHoldAll(childParents, p, c);
    var id :| IsPriced(settled.slots, p, id);
    var groups := GroupChildren(childParents);
    GroupsHeldOrFull(settled, capacity, PricedParents(settled), groups, groups.Keys, p, c);
  }

  // ---------- the bound ----------

  /** Children held by some parents. */
  function Held(children: map<Id, set<Id>>, parents: set<int>): nat
    requires parents <= children.Keys
    decreases |parents|
  {
    var next := Least(parents);
    if next.None? then 0 else |children[next.value]| + Held(children, parents - {next.value})
  }

  lemma Distributes(a: nat, b: nat)
    ensures a * (b + 1) == a * b + a
  {
  }

  lemma {:induction false} HeldIsBounded(capacity: nat, children: map<Id, set<Id>>, parents: set<int>)
    requires parents <= children.Keys && forall p | p in children :: |children[p]| <= capacity
    ensures Held(children, parents) <= capacity * |parents|
    decreases |parents|
  {
    if parents != {} {
      var p := Least(parents).value;
      var rest := parents - {p};
      HeldIsBounded(capacity, children, rest);
      assert |parents| == |rest| + 1;
      Distributes(capacity, |rest|);
    }
  }

  function Pools(s: State): set<Id> {
    set id | id in s.slots && s.slots[id].venue.CetusPool?
  }

  lemma {:induction false} FewerImages(s: State, ids: set<Id>, uids: set<Id>)
    requires forall u | u in uids :: exists id :: id in ids && IsPriced(s.slots, u, id)
    ensures |uids| <= |ids|
    decreases |uids|
  {
    if uids != {} {
      var u :| u in uids;
      var id :| id in ids && IsPriced(s.slots, u, id);
      forall v | v in uids - {u}
        ensures exists other :: other in ids - {id} && IsPriced(s.slots, v, other)
      {
        var other :| other in ids && IsPriced(s.slots, v, other);
      }
      FewerImages(s, ids - {id}, uids - {u});
    }
  }

  /** So the children held in all are at most the capacity times the pools tracked. */
  lemma ChildrenAreBounded(w: Wiring, capacity: nat, ds: seq<Delivery>)
    requires forall d | d in ds :: Respects(w, d)
    ensures var s := Run(NEW, capacity, ds);
      Sound(w, capacity, s) && Held(s.children, s.children.Keys) <= capacity * |Pools(s)|
  {
    IndexStaysSound(w, capacity, NEW, ds);
    var s := Run(NEW, capacity, ds);
    HeldIsBounded(capacity, s.children, s.children.Keys);
    PoolsPriceParents(w, capacity, s);
    FewerImages(s, Pools(s), s.children.Keys);
    Arith.MulLe(|s.children.Keys|, |Pools(s)|, capacity);
  }

  lemma PoolsPriceParents(w: Wiring, capacity: nat, s: State)
    requires Sound(w, capacity, s)
    ensures forall p | p in s.children.Keys :: exists id :: id in Pools(s) && IsPriced(s.slots, p, id)
  {
    forall p | p in s.children.Keys
      ensures exists id :: id in Pools(s) && IsPriced(s.slots, p, id)
    {
      var id :| IsPriced(s.slots, p, id);
      assert id in Pools(s);
    }
  }
}
