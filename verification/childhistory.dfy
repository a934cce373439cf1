/** While nothing was dropped for want of room, the child index is what its history says. */
module ChildHistory {
  import opened Wrappers
  import opened OrderedKeys
  import opened StateManager
  import opened StateProperties
  import opened StreamProperties
  import opened ChildIndex

  predicate Holds(children: map<Id, set<Id>>, p: Id, c: Id) {
    p in children && c in children[p]
  }

  // ---------- publication ----------

  lemma {:induction false} PublicationKeepsIndex(s: State, outcomes: seq<Outcome>)
    ensures var t := PublishedAll(s, outcomes);
      t.children == s.children && t.childOwners == s.childOwners && t.childrenDropped == s.childrenDropped
    decreases |outcomes|
  {
    if outcomes != [] {
      PublicationKeepsIndex(Published(s, outcomes[0]), outcomes[1..]);
    }
  }

  // ---------- removal ----------

  /** One removal takes out the child of that id, and the whole set of a pool of that id. */
  lemma RemovedHolds(w: Wiring, s: State, id: Id, p: Id, c: Id)
    requires OwnersMatch(w, s.children, s.childOwners)
    ensures Holds(Removed(s, id).children, p, c) <==>
      Holds(s.children, p, c) && c != id && !IsPriced(s.slots, p, id)
  {
    RemovedChildren(w, s, id);
    if Holds(s.children, p, c) && !IsPriced(s.slots, p, id) {
      assert p in Removed(s, id).children;
    }
  }

  lemma {:induction false} RemovedAllHolds(w: Wiring, capacity: nat, s: State, ids: seq<Id>, p: Id, c: Id)
    requires Sound(w, capacity, s)
    ensures RemovedAll(s, ids).childrenDropped == s.childrenDropped
    ensures Holds(RemovedAll(s, ids).children, p, c) <==>
      Holds(s.children, p, c) && c !in ids && forall id | id in ids :: !IsPriced(s.slots, p, id)
    decreases |ids|
  {
    if ids != [] {
      var next, rest := Removed(s, ids[0]), ids[1..];
      assert ids == [ids[0]] + rest;
      RemovedHolds(w, s, ids[0], p, c);
      RemovedChildren(w, s, ids[0]);
      RemovedSound(w, capacity, s, ids[0]);
      RemovedAllHolds(w, capacity, next, rest, p, c);
      assert forall id :: IsPriced(next.slots, p, id) <==> id != ids[0] && IsPriced(s.slots, p, id);
    }
  }

  // ---------- indexing ----------

  lemma ChildInsertedHolds(s: State, capacity: nat, parent: Id, child: Id)
    requires parent in s.children
    ensures var t := ChildInserted(s, capacity, parent, child);
      && parent in t.children && t.childrenDropped >= s.childrenDropped
      && (t.childrenDropped == s.childrenDropped ==>
            forall p, c :: Holds(t.children, p, c) <==> Holds(s.children, p, c) || (p == parent && c == child))
  {
  }

  /** With none dropped, a parent's set gains exactly the ids inserted, and no other set changes. */
  lemma {:induction false} ChildrenInsertedHolds(s: State, capacity: nat, parent: Id, ids: seq<Id>)
    requires parent in s.children
    ensures var t := ChildrenInserted(s, capacity, parent, ids);
      && t.childrenDropped >= s.childrenDropped
      && (t.childrenDropped == s.childrenDropped ==>
            forall p, c :: Holds(t.children, p, c) <==> Holds(s.children, p, c) || (p == parent && c in ids))
    decreases |ids|
  {
    if ids != [] {
      assert ids == [ids[0]] + ids[1..];
      ChildInsertedHolds(s, capacity, parent, ids[0]);
      ChildrenInsertedHolds(ChildInserted(s, capacity, parent, ids[0]), capacity, parent, ids[1..]);
    }
  }

  lemma GroupIndexedHolds(s: State, capacity: nat, parent: Id, ids: seq<Id>)
    ensures var t := GroupIndexed(s, capacity, parent, ids);
      && t.childrenDropped >= s.childrenDropped
      && (t.childrenDropped == s.childrenDropped ==>
            forall p, c :: Holds(t.children, p, c) <==> Holds(s.children, p, c) || (p == parent && c in ids))
  {
    var present := if parent in s.children then s else s.(children := s.children[parent := {}]);
    assert forall p, c :: Holds(present.children, p, c) <==> Holds(s.children, p, c);
    ChildrenInsertedHolds(present, capacity, parent, ids);
  }

  /** The pair is in one of these groups, and its parent is priced. */
  predicate Grouped(priced: set<Id>, groups: map<Id, seq<Id>>, parents: set<int>, p: Id, c: Id)
    requires parents <= groups.Keys
  {
    p in parents && p in priced && c in groups[p]
  }

  lemma {:induction false} GroupsIndexedHolds(
    s: State, capacity: nat, priced: set<Id>, groups: map<Id, seq<Id>>, parents: set<int>)
    requires parents <= groups.Keys
    ensures var t := GroupsIndexed(s, capacity, priced, groups, parents);
      && t.childrenDropped >= s.childrenDropped
      && (t.childrenDropped == s.childrenDropped ==>
            forall p, c :: Holds(t.children, p, c) <==>
                           Holds(s.children, p, c) || Grouped(priced, groups, parents, p, c))
    decreases |parents|
  {
    if parents != {} {
      var parent := Least(parents).value;
      var next := if parent in priced then GroupIndexed(s, capacity, parent, groups[parent]) else s;
      GroupIndexedHolds(s, capacity, parent, groups[parent]);
      GroupsIndexedHolds(next, capacity, priced, groups, parents - {parent});
      forall p, c
        ensures Grouped(priced, groups, parents, p, c) <==>
          Grouped(priced, groups, parents - {parent}, p, c) || (p == parent && p in priced && c in groups[p])
      {
      }
    }
  }

  // ---------- one checkpoint ----------

  /** The checkpoint names the child under a pool tracked once its removals are done. */
  ghost predicate Indexes(s: State, capacity: nat, d: Delivery, p: Id, c: Id) {
    && !IsDuplicate(s, d.checkpoint)
    && NamesChild(d.checkpoint.objects, ChangesOf(d.checkpoint), (p, c))
    && exists id :: IsPriced(Applied(s, capacity, d.schema, d.checkpoint).slots, p, id)
  }

  /** The checkpoint removes the child, or a pool with that inner UID tracked once it is published. */
  ghost predicate Drops(s: State, d: Delivery, p: Id, c: Id) {
    && !IsDuplicate(s, d.checkpoint)
    && (Change(c, None) in ChangesOf(d.checkpoint)
        || exists id :: Change(id, None) in ChangesOf(d.checkpoint)
                        && IsPriced(AfterPublication(s, d.schema, d.checkpoint).slots, p, id))
  }

  /** After removal a pair is held exactly if it was held and not dropped. */
  lemma HeldAfterRemoval(w: Wiring, capacity: nat, s: State, d: Delivery, p: Id, c: Id)
    requires Sound(w, capacity, s) && Respects(w, d) && !IsDuplicate(s, d.checkpoint)
    ensures var t := AfterRemoval(s, d.schema, d.checkpoint);
      && t.childrenDropped == s.childrenDropped
      && (Holds(t.children, p, c) <==> Holds(s.children, p, c) && !Drops(s, d, p, c))
  {
    var cp := d.checkpoint;
    var g := GatheredFrom(cp);
    var outcomes := Outcomes(d.schema, g.candidates);
    OutcomesAreFewer(d.schema, g.candidates);
    var counted := s.(failures := s.failures + g.missing + |g.candidates| - |outcomes|);
    PublicationKeepsIndex(counted, outcomes);
    PublishedAllSound(w, capacity, counted, outcomes);
    RemovedAllHolds(w, capacity, AfterPublication(s, d.schema, cp), g.removed, p, c);
    OutcomesOfCheckpoint(d.schema, cp);
  }

  /** Indexing adds exactly the pairs named under priced parents. */
  lemma HeldAfterIndexing(capacity: nat, s: State, cp: Checkpoint, p: Id, c: Id)
    ensures var t := ChildrenIndexed(s, capacity, GatheredFrom(cp).childParents);
      && t.childrenDropped >= s.childrenDropped
      && (t.childrenDropped == s.childrenDropped ==>
            (Holds(t.children, p, c) <==>
               Holds(s.children, p, c) || (p in PricedParents(s) && NamesChild(cp.objects, ChangesOf(cp), (p, c)))))
  {
    var childParents := GatheredFrom(cp).childParents;
    var groups := GroupChildren(childParents);
    GatherIsFlat(cp.objects, NOTHING, cp.transactions);
    GatherMembers(cp.objects, NOTHING, ChangesOf(cp));
    GroupsIndexedHolds(s, capacity, PricedParents(s), groups, groups.Keys);
    if (p, c) in childParents {
      GroupsHoldAll(childParents, p, c);
    } else if p in groups && c in groups[p] {
      GroupsHoldTheirChildren(childParents, p, c);
    }
  }

  lemma PricedIsTracked(s: State, p: Id)
    ensures p in PricedParents(s) <==> exists id :: IsPriced(s.slots, p, id)
  {
    if id :| IsPriced(s.slots, p, id) {
      assert s.slots[id].venue.CetusPool? && s.slots[id].venue.nodeUid == p;
    }
    if p in PricedParents(s) {
      var id :| id in s.slots && s.slots[id].venue.CetusPool? && s.slots[id].venue.nodeUid == p;
      assert IsPriced(s.slots, p, id);
    }
  }

  /** After a checkpoint without overflow a pair is held exactly if it was indexed in it, or held and not dropped. */
  lemma HeldAfterCheckpoint(w: Wiring, capacity: nat, s: State, d: Delivery, p: Id, c: Id)
    requires Sound(w, capacity, s) && Respects(w, d)
    ensures var t := Applied(s, capacity, d.schema, d.checkpoint);
      && t.childrenDropped >= s.childrenDropped
      && (t.childrenDropped == s.childrenDropped ==>
            (Holds(t.children, p, c) <==>
               Indexes(s, capacity, d, p, c) || (Holds(s.children, p, c) && !Drops(s, d, p, c))))
  {
    var cp := d.checkpoint;
    if !IsDuplicate(s, cp) {
      var removed := AfterRemoval(s, d.schema, cp);
      AppliedInPhases(s, capacity, d.schema, cp);
      HeldAfterRemoval(w, capacity, s, d, p, c);
      HeldAfterIndexing(capacity, removed, cp, p, c);
      IndexingKeepsRest(removed, capacity, GatheredFrom(cp).childParents);
      PricedIsTracked(removed, p);
    }
  }

  // ---------- the run ----------

  ghost predicate IndexedAt(capacity: nat, ds: seq<Delivery>, i: nat, p: Id, c: Id)
    requires i < |ds|
  {
    Indexes(Run(NEW, capacity, ds[..i]), capacity, ds[i], p, c)
  }

  ghost predicate DroppedAt(capacity: nat, ds: seq<Delivery>, i: nat, p: Id, c: Id)
    requires i < |ds|
  {
    Drops(Run(NEW, capacity, ds[..i]), ds[i], p, c)
  }

  /** Some delivery indexed the pair, and none since dropped it. */
  ghost predicate IndexedAndNotDropped(capacity: nat, ds: seq<Delivery>, p: Id, c: Id) {
    exists i: nat :: i < |ds| && IndexedAt(capacity, ds, i, p, c)
      && forall j: nat | i < j < |ds| :: !DroppedAt(capacity, ds, j, p, c)
  }

  lemma LastDelivery(capacity: nat, ds: seq<Delivery>)
    requires ds != []
    ensures var n := |ds| - 1;
      Run(NEW, capacity, ds)
      == Applied(Run(NEW, capacity, ds[..n]), capacity, ds[n].schema, ds[n].checkpoint)
  {
    var n := |ds| - 1;
    assert ds == ds[..n] + [ds[n]];
    RunJoins(NEW, capacity, ds[..n], [ds[n]]);
    assert [ds[n]][1..] == [];
  }

  lemma SamePast(capacity: nat, ds: seq<Delivery>, i: nat, p: Id, c: Id)
    requires i + 1 < |ds|
    ensures IndexedAt(capacity, ds[..|ds| - 1], i, p, c) <==> IndexedAt(capacity, ds, i, p, c)
    ensures DroppedAt(capacity, ds[..|ds| - 1], i, p, c) <==> DroppedAt(capacity, ds, i, p, c)
  {
    assert ds[..|ds| - 1][..i] == ds[..i];
  }

  /** The history of a run without its last delivery is the same. */
  lemma EarlierHistory(capacity: nat, ds: seq<Delivery>, p: Id, c: Id)
    requires ds != []
    ensures var n := |ds| - 1;
      IndexedAndNotDropped(capacity, ds, p, c) <==>
        || IndexedAt(capacity, ds, n, p, c)
        || (IndexedAndNotDropped(capacity, ds[..n], p, c) && !DroppedAt(capacity, ds, n, p, c))
  {
    var n := |ds| - 1;
    var front := ds[..n];
    forall i: nat | i < n
      ensures IndexedAt(capacity, front, i, p, c) <==> IndexedAt(capacity, ds, i, p, c)
      ensures DroppedAt(capacity, front, i, p, c) <==> DroppedAt(capacity, ds, i, p, c)
    {
      SamePast(capacity, ds, i, p, c);
    }
  }

  /**
   * Over every run with fixed wiring in which no child was dropped for want of room, the index holds
   * exactly the children some checkpoint named under a tracked pool and none since removed, either
   * themselves or with their pool.
   */
  lemma {:induction false} IndexIsItsHistory(w: Wiring, capacity: nat, ds: seq<Delivery>, p: Id, c: Id)
    requires forall d | d in ds :: Respects(w, d)
    ensures Run(NEW, capacity, ds).childrenDropped == 0 ==>
      (Holds(Run(NEW, capacity, ds).children, p, c) <==> IndexedAndNotDropped(capacity, ds, p, c))
    decreases |ds|
  {
    if ds != [] {
      var n := |ds| - 1;
      var front := ds[..n];
      assert forall d | d in front :: d in ds;
      IndexStaysSound(w, capacity, NEW, front);
      HeldAfterCheckpoint(w, capacity, Run(NEW, capacity, front), ds[n], p, c);
      IndexIsItsHistory(w, capacity, front, p, c);
      LastDelivery(capacity, ds);
      EarlierHistory(capacity, ds, p, c);
    }
  }
}
