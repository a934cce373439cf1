/** What the counters of the manager count. */
module CheckpointCounts {
  import opened Wrappers
  import opened OrderedKeys
  import opened StateManager
  import opened StateProperties
  import opened StreamProperties
  import opened ChildIndex

  // ---------- the kinds of change ----------

  datatype Kind = Removal | Missing | NoVenue | Skipped | OfNoKind | Broken | Shown

  /** What becomes of the object a change leaves behind, read off the checkpoint and the schema. */
  function KindOf(schema: Schema, objects: map<(Id, Version), Object>, change: Change): Kind {
    match change
    case Change(_, None) => Removal
    case Change(id, Some(version)) =>
      if (id, version) !in objects then
        Missing
      else
        match objects[(id, version)]
        case VenueObject(tag, Some(contents)) =>
          (match schema.resolve(tag)
           case None => Skipped
           case Some(layout) =>
             match schema.decode(contents, tag, layout)
             case Unrecognised => OfNoKind
             case Undecodable => Broken
             case Typed(_) => Shown)
        case VenueObject(_, None) => Skipped
        case _ => NoVenue
  }

  function CountOf(schema: Schema, objects: map<(Id, Version), Object>, changes: seq<Change>, kind: Kind): nat {
    if changes == [] then 0
    else CountOf(schema, objects, changes[..|changes| - 1], kind)
         + if KindOf(schema, objects, changes[|changes| - 1]) == kind then 1 else 0
  }

  // ---------- gathering and decoding ----------

  /** How many outcomes decoded like this one. */
  function Decoded(outcomes: seq<Outcome>, kind: Kind): nat {
    if outcomes == [] then 0
    else Decoded(outcomes[..|outcomes| - 1], kind) + if KindOfOutcome(outcomes[|outcomes| - 1]) == kind then 1 else 0
  }

  function KindOfOutcome(o: Outcome): Kind {
    match o.decoded
    case Unrecognised => OfNoKind
    case Undecodable => Broken
    case Typed(_) => Shown
  }

  lemma {:induction false} GatherBack(
    objects: map<(Id, Version), Object>, g: Gathered, changes: seq<Change>, change: Change)
    ensures GatherChanges(objects, g, changes + [change])
         == GatherOne(objects, GatherChanges(objects, g, changes), change)
  {
    GatherAppends(objects, g, changes, [change]);
    assert [change][1..] == [];
  }

  /** One change more is one more of its kind. */
  lemma OneMoreOfItsKind(schema: Schema, objects: map<(Id, Version), Object>, g: Gathered, change: Change)
    ensures var h, kind := GatherOne(objects, g, change), KindOf(schema, objects, change);
      && h.missing == g.missing + (if kind == Missing then 1 else 0)
      && (if kind in {Skipped, OfNoKind, Broken, Shown}
          then |h.candidates| == |g.candidates| + 1 && h.candidates[..|g.candidates|] == g.candidates
          else h.candidates == g.candidates)
      && (kind == Skipped ==> OutcomeOf(schema, h.candidates[|g.candidates|]).None?)
      && (kind in {OfNoKind, Broken, Shown} ==>
            && OutcomeOf(schema, h.candidates[|g.candidates|]).Some?
            && KindOfOutcome(OutcomeOf(schema, h.candidates[|g.candidates|]).value) == kind)
  {
  }

  /** What gathering and decoding come to, kind by kind. */
  lemma {:induction false} KindsAreCounted(schema: Schema, objects: map<(Id, Version), Object>, changes: seq<Change>)
    ensures var g := GatherChanges(objects, NOTHING, changes); var outcomes := Outcomes(schema, g.candidates);
      && g.missing == CountOf(schema, objects, changes, Missing)
      && |g.candidates| - |outcomes| == CountOf(schema, objects, changes, Skipped)
      && Decoded(outcomes, OfNoKind) == CountOf(schema, objects, changes, OfNoKind)
      && Decoded(outcomes, Broken) == CountOf(schema, objects, changes, Broken)
      && Decoded(outcomes, Shown) == CountOf(schema, objects, changes, Shown)
  {
    if changes != [] {
      var front, last := changes[..|changes| - 1], changes[|changes| - 1];
      assert changes == front + [last];
      KindsAreCounted(schema, objects, front);
      GatherBack(objects, NOTHING, front, last);
      var g := GatherChanges(objects, NOTHING, front);
      OneMoreOfItsKind(schema, objects, g, last);
      OneMoreOutcome(schema, g.candidates, GatherOne(objects, g, last).candidates);
    }
  }

  lemma OneMoreOutcome(schema: Schema, before: seq<Candidate>, after: seq<Candidate>)
    requires after == before || (|after| == |before| + 1 && after[..|before|] == before)
    ensures after != before ==>
      var outcome := OutcomeOf(schema, after[|before|]);
      && (outcome.None? ==> Outcomes(schema, after) == Outcomes(schema, before))
      && (outcome.Some? ==> Outcomes(schema, after) == Outcomes(schema, before) + [outcome.value])
      && (outcome.Some? ==>
            forall kind ::
              Decoded(Outcomes(schema, after), kind)
              == Decoded(Outcomes(schema, before), kind) + if KindOfOutcome(outcome.value) == kind then 1 else 0)
  {
    if after != before && OutcomeOf(schema, after[|before|]).Some? {
      var outcomes := Outcomes(schema, before);
      assert (outcomes + [OutcomeOf(schema, after[|before|]).value])[..|outcomes|] == outcomes;
    }
  }

  // ---------- publication ----------

  /** Outcomes that show a version older than the one held when their turn comes. */
  function Stale(s: State, outcomes: seq<Outcome>): nat
    decreases |outcomes|
  {
    if outcomes == [] then 0
    else (if IsOlder(s, outcomes[0]) then 1 else 0) + Stale(Published(s, outcomes[0]), outcomes[1..])
  }

  /** And outcomes that show that very version. */
  function Repeated(s: State, outcomes: seq<Outcome>): nat
    decreases |outcomes|
  {
    if outcomes == [] then 0
    else (if IsHeld(s, outcomes[0]) then 1 else 0) + Repeated(Published(s, outcomes[0]), outcomes[1..])
  }

  predicate IsOlder(s: State, o: Outcome) {
    o.decoded.Typed? && o.id in s.slots && o.version < s.slots[o.id].version
  }

  predicate IsHeld(s: State, o: Outcome) {
    o.decoded.Typed? && o.id in s.slots && o.version == s.slots[o.id].version
  }

  lemma DecodedFromFront(outcomes: seq<Outcome>, kind: Kind)
    requires outcomes != []
    ensures Decoded(outcomes, kind)
         == (if KindOfOutcome(outcomes[0]) == kind then 1 else 0) + Decoded(outcomes[1..], kind)
    decreases |outcomes|
  {
    var front, rest := outcomes[..|outcomes| - 1], outcomes[1..];
    if front == [] {
      assert rest == [];
    } else {
      assert rest[..|rest| - 1] == front[1..];
      DecodedFromFront(front, kind);
    }
  }

  /** Every outcome moves exactly one counter, except one that shows the version held, which moves none. */
  lemma {:induction false} PublicationCounts(s: State, outcomes: seq<Outcome>)
    ensures var t := PublishedAll(s, outcomes);
      && t.unrecognised == s.unrecognised + Decoded(outcomes, OfNoKind)
      && t.failures == s.failures + Decoded(outcomes, Broken) + Stale(s, outcomes)
      && t.venuesCreated + t.venuesUpdated + Stale(s, outcomes) + Repeated(s, outcomes)
         == s.venuesCreated + s.venuesUpdated + Decoded(outcomes, Shown)
      && |t.slots| - |s.slots| == t.venuesCreated - s.venuesCreated
    decreases |outcomes|
  {
    if outcomes != [] {
      PublicationCounts(Published(s, outcomes[0]), outcomes[1..]);
      DecodedFromFront(outcomes, OfNoKind);
      DecodedFromFront(outcomes, Broken);
      DecodedFromFront(outcomes, Shown);
    }
  }

  // ---------- children ----------

  /** The children held in all. */
  function Total(children: map<Id, set<Id>>): nat {
    Held(children, children.Keys)
  }

  lemma {:induction false} HeldWithout(children: map<Id, set<Id>>, parents: set<int>, p: Id)
    requires parents <= children.Keys && p in parents
    ensures Held(children, parents) == |children[p]| + Held(children, parents - {p})
    decreases |parents|
  {
    var first := Least(parents).value;
    if first != p {
      var rest := parents - {first};
      HeldWithout(children, rest, p);
      HeldWithout(children, parents - {p}, first);
      assert parents - {p} - {first} == rest - {p};
    }
  }

  lemma {:induction false} HeldOfSame(a: map<Id, set<Id>>, b: map<Id, set<Id>>, parents: set<int>)
    requires parents <= a.Keys && parents <= b.Keys && forall p | p in parents :: a[p] == b[p]
    ensures Held(a, parents) == Held(b, parents)
    decreases |parents|
  {
    var next := Least(parents);
    if next.Some? {
      HeldOfSame(a, b, parents - {next.value});
    }
  }

  /** Putting a set in place of another changes the total by the difference in size. */
  lemma TotalOfReplaced(children: map<Id, set<Id>>, p: Id, ids: set<Id>)
    ensures Total(children[p := ids]) == Total(children) + |ids| - if p in children then |children[p]| else 0
  {
    var after := children[p := ids];
    var others := children.Keys - {p};
    HeldWithout(after, after.Keys, p);
    assert after.Keys - {p} == others;
    HeldOfSame(after, children, others);
    if p in children {
      HeldWithout(children, children.Keys, p);
    } else {
      assert others == children.Keys;
    }
  }

  /** Children counted as indexed are those by which the sets have grown. */
  ghost predicate GrowsAsCounted(s: State, t: State) {
    t.childrenIndexed - s.childrenIndexed == Total(t.children) - Total(s.children)
  }

  lemma {:induction false} InsertionCounts(s: State, capacity: nat, parent: Id, ids: seq<Id>)
    requires parent in s.children
    ensures GrowsAsCounted(s, ChildrenInserted(s, capacity, parent, ids))
    decreases |ids|
  {
    if ids != [] {
      TotalOfReplaced(s.children, parent, s.children[parent] + {ids[0]});
      InsertionCounts(ChildInserted(s, capacity, parent, ids[0]), capacity, parent, ids[1..]);
    }
  }

  lemma {:induction false} IndexingCounts(
    s: State, capacity: nat, priced: set<Id>, groups: map<Id, seq<Id>>, parents: set<int>)
    requires parents <= groups.Keys
    ensures GrowsAsCounted(s, GroupsIndexed(s, capacity, priced, groups, parents))
    decreases |parents|
  {
    if parents != {} {
      var parent := Least(parents).value;
      var present := if parent in s.children then s else s.(children := s.children[parent := {}]);
      TotalOfReplaced(s.children, parent, {});
      InsertionCounts(present, capacity, parent, groups[parent]);
      var next := if parent in priced then GroupIndexed(s, capacity, parent, groups[parent]) else s;
      IndexingCounts(next, capacity, priced, groups, parents - {parent});
    }
  }

  // ---------- removal ----------

  lemma {:induction false} RemovalKeepsCounts(s: State, ids: seq<Id>)
    ensures var t := RemovedAll(s, ids);
      && t.failures == s.failures && t.unrecognised == s.unrecognised
      && t.venuesCreated == s.venuesCreated && t.venuesUpdated == s.venuesUpdated
      && t.childrenIndexed == s.childrenIndexed && t.childrenDropped == s.childrenDropped
      && t.venuesRemoved - s.venuesRemoved == |s.slots| - |t.slots|
    decreases |ids|
  {
    if ids != [] {
      if ids[0] in s.slots {
        assert (s.slots - {ids[0]}).Keys == s.slots.Keys - {ids[0]};
        assert |(s.slots - {ids[0]}).Keys| == |s.slots.Keys| - 1;
      }
      RemovalKeepsCounts(Removed(s, ids[0]), ids[1..]);
    }
  }

  // ---------- a checkpoint ----------

  /** The state a checkpoint's outcomes are published to. */
  function BeforePublication(s: State, schema: Schema, cp: Checkpoint): State {
    var g := GatheredFrom(cp);
    OutcomesAreFewer(schema, g.candidates);
    s.(failures := s.failures + g.missing + |g.candidates| - |Outcomes(schema, g.candidates)|)
  }

  /** The changes of a checkpoint that are of some kind. */
  function Counted(schema: Schema, cp: Checkpoint, kind: Kind): nat {
    CountOf(schema, cp.objects, ChangesOf(cp), kind)
  }

  lemma CheckpointKinds(schema: Schema, cp: Checkpoint)
    ensures var g := GatheredFrom(cp); var outcomes := Outcomes(schema, g.candidates);
      && g.missing == Counted(schema, cp, Missing)
      && |g.candidates| - |outcomes| == Counted(schema, cp, Skipped)
      && Decoded(outcomes, OfNoKind) == Counted(schema, cp, OfNoKind)
      && Decoded(outcomes, Broken) == Counted(schema, cp, Broken)
      && Decoded(outcomes, Shown) == Counted(schema, cp, Shown)
  {
    GatherIsFlat(cp.objects, NOTHING, cp.transactions);
    KindsAreCounted(schema, cp.objects, ChangesOf(cp));
  }

  lemma LaterPhasesKeepCounts(s: State, capacity: nat, schema: Schema, cp: Checkpoint)
    requires !IsDuplicate(s, cp)
    ensures var t, u := Applied(s, capacity, schema, cp), AfterPublication(s, schema, cp);
      && t.failures == u.failures && t.unrecognised == u.unrecognised
      && t.venuesCreated == u.venuesCreated && t.venuesUpdated == u.venuesUpdated
  {
    AppliedInPhases(s, capacity, schema, cp);
    RemovalKeepsCounts(AfterPublication(s, schema, cp), GatheredFrom(cp).removed);
    IndexingKeepsRest(AfterRemoval(s, schema, cp), capacity, GatheredFrom(cp).childParents);
  }

  /**
   * What one checkpoint adds to the counters. Every change to a venue object is counted once: as a failure
   * if its object is missing, has no contents, no layout, does not decode or is older than the one held;
   * as unrecognised if it decodes to no known kind; as created or updated if it is published; not at all
   * if its version is the one held.
   */
  lemma CheckpointCounters(s: State, capacity: nat, schema: Schema, cp: Checkpoint)
    requires !IsDuplicate(s, cp)
    ensures var t := Applied(s, capacity, schema, cp);
      var before, outcomes := BeforePublication(s, schema, cp), Outcomes(schema, GatheredFrom(cp).candidates);
      var stale, repeated := Stale(before, outcomes), Repeated(before, outcomes);
      && t.failures == s.failures + Counted(schema, cp, Missing) + Counted(schema, cp, Skipped)
                       + Counted(schema, cp, Broken) + stale
      && t.unrecognised == s.unrecognised + Counted(schema, cp, OfNoKind)
      && t.venuesCreated + t.venuesUpdated + stale + repeated
         == s.venuesCreated + s.venuesUpdated + Counted(schema, cp, Shown)
  {
    CheckpointKinds(schema, cp);
    OutcomesAreFewer(schema, GatheredFrom(cp).candidates);
    PublicationCounts(BeforePublication(s, schema, cp), Outcomes(schema, GatheredFrom(cp).candidates));
    LaterPhasesKeepCounts(s, capacity, schema, cp);
  }

  /** The children a checkpoint counts as indexed are those by which the index grows after its removals. */
  lemma IndexedIsGrowth(s: State, capacity: nat, schema: Schema, cp: Checkpoint)
    requires !IsDuplicate(s, cp)
    ensures GrowsAsCounted(AfterRemoval(s, schema, cp), Applied(s, capacity, schema, cp))
  {
    var childParents := GatheredFrom(cp).childParents;
    var settled := AfterRemoval(s, schema, cp);
    var groups := GroupChildren(childParents);
    AppliedInPhases(s, capacity, schema, cp);
    IndexingCounts(settled, capacity, PricedParents(settled), groups, groups.Keys);
  }
}
