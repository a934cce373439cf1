/** What a stream of checkpoints keeps true of the venue state. */
module StateProperties {
  import opened Wrappers
  import opened OrderedKeys
  import opened StateManager

  // ---------- what a checkpoint's changes amount to, whatever their order ----------

  function Flat(transactions: seq<seq<Change>>): seq<Change> {
    if transactions == [] then [] else transactions[0] + Flat(transactions[1..])
  }

  function ChangesOf(cp: Checkpoint): seq<Change> {
    Flat(cp.transactions)
  }

  /** The venue candidate a change names, if it names one. */
  function CandidateOf(objects: map<(Id, Version), Object>, change: Change): Option<Candidate> {
    if change.outputVersion.None? then
      None
    else
      var key := (change.id, change.outputVersion.value);
      if key in objects && objects[key].VenueObject? then
        Some(Candidate(change.id, key.1, objects[key].tag, objects[key].contents))
      else
        None
  }

  /** The child a change names with its parent, if it names one. */
  function ChildOf(objects: map<(Id, Version), Object>, change: Change): Option<(Id, Id)> {
    if change.outputVersion.None? then
      None
    else
      var key := (change.id, change.outputVersion.value);
      if key in objects && objects[key].ChildObject? then Some((objects[key].parent, change.id)) else None
  }

  /** Some change decodes to this outcome. */
  ghost predicate Decodes(schema: Schema, objects: map<(Id, Version), Object>, changes: seq<Change>, o: Outcome) {
    exists change :: change in changes && CandidateOf(objects, change).Some?
      && OutcomeOf(schema, CandidateOf(objects, change).value) == Some(o)
  }

  lemma {:induction false} GatherIsFlat(
    objects: map<(Id, Version), Object>, g: Gathered, transactions: seq<seq<Change>>)
    ensures Gather(objects, g, transactions) == GatherChanges(objects, g, Flat(transactions))
    decreases |transactions|
  {
    if transactions != [] {
      GatherIsFlat(objects, GatherChanges(objects, g, transactions[0]), transactions[1..]);
      GatherAppends(objects, g, transactions[0], Flat(transactions[1..]));
    }
  }

  lemma {:induction false} GatherAppends(
    objects: map<(Id, Version), Object>, g: Gathered, first: seq<Change>, second: seq<Change>)
    ensures GatherChanges(objects, g, first + second)
         == GatherChanges(objects, GatherChanges(objects, g, first), second)
    decreases |first|
  {
    if first == [] {
      assert first + second == second;
    } else {
      assert (first + second)[1..] == first[1..] + second;
      GatherAppends(objects, GatherOne(objects, g, first[0]), first[1..], second);
    }
  }

  ghost predicate NamesCandidate(objects: map<(Id, Version), Object>, changes: seq<Change>, c: Candidate) {
    exists change :: change in changes && CandidateOf(objects, change) == Some(c)
  }

  ghost predicate NamesChild(objects: map<(Id, Version), Object>, changes: seq<Change>, p: (Id, Id)) {
    exists change :: change in changes && ChildOf(objects, change) == Some(p)
  }

  lemma FirstOrRest(objects: map<(Id, Version), Object>, changes: seq<Change>)
    requires changes != []
    ensures forall change :: change in changes <==> change == changes[0] || change in changes[1..]
    ensures forall c :: NamesCandidate(objects, changes, c) <==>
                        (CandidateOf(objects, changes[0]) == Some(c) || NamesCandidate(objects, changes[1..], c))
    ensures forall p :: NamesChild(objects, changes, p) <==>
                        (ChildOf(objects, changes[0]) == Some(p) || NamesChild(objects, changes[1..], p))
  {
    assert changes == [changes[0]] + changes[1..];
  }

  /** Candidates, removals and children are gathered exactly from the changes that name them. */
  lemma {:induction false} GatherMembers(objects: map<(Id, Version), Object>, g: Gathered, changes: seq<Change>)
    ensures var r := GatherChanges(objects, g, changes);
      && (forall c :: c in r.candidates <==> c in g.candidates || NamesCandidate(objects, changes, c))
      && (forall id :: id in r.removed <==> id in g.removed || Change(id, None) in changes)
      && (forall p :: p in r.childParents <==> p in g.childParents || NamesChild(objects, changes, p))
    decreases |changes|
  {
    if changes != [] {
      GatherMembers(objects, GatherOne(objects, g, changes[0]), changes[1..]);
      FirstOrRest(objects, changes);
      assert changes[0].outputVersion.None? ==> changes[0] == Change(changes[0].id, None);
    }
  }

  lemma {:induction false} OutcomeMembers(schema: Schema, candidates: seq<Candidate>)
    ensures forall o :: o in Outcomes(schema, candidates) <==>
      exists c :: c in candidates && OutcomeOf(schema, c) == Some(o)
  {
    if candidates != [] {
      var n := |candidates| - 1;
      OutcomeMembers(schema, candidates[..n]);
      assert candidates == candidates[..n] + [candidates[n]];
    }
  }

  /** A checkpoint's outcomes are those its changes decode to. */
  lemma OutcomesOfCheckpoint(schema: Schema, cp: Checkpoint)
    ensures forall o ::
      o in Outcomes(schema, GatheredFrom(cp).candidates) <==> Decodes(schema, cp.objects, ChangesOf(cp), o)
    ensures forall id :: id in GatheredFrom(cp).removed <==> Change(id, None) in ChangesOf(cp)
  {
    var candidates := GatheredFrom(cp).candidates;
    GatherIsFlat(cp.objects, NOTHING, cp.transactions);
    GatherMembers(cp.objects, NOTHING, ChangesOf(cp));
    OutcomeMembers(schema, candidates);
    forall o | Decodes(schema, cp.objects, ChangesOf(cp), o)
      ensures o in Outcomes(schema, candidates)
    {
      var change :| change in ChangesOf(cp) && CandidateOf(cp.objects, change).Some?
        && OutcomeOf(schema, CandidateOf(cp.objects, change).value) == Some(o);
      assert NamesCandidate(cp.objects, ChangesOf(cp), CandidateOf(cp.objects, change).value);
    }
  }

  // ---------- the newest version wins ----------

  function Members(outcomes: seq<Outcome>): set<Outcome> {
    set o | o in outcomes
  }

  predicate TypedFor(o: Outcome, id: Id) {
    o.id == id && o.decoded.Typed?
  }

  /**
   * `after` is the newest of the slot held before and the typed outcomes for the id: present if either
   * is, at least as new as all of them, and either the slot held before, or the slot of a strictly newer
   * outcome with the ticks loaded before.
   */
  ghost predicate Newest(before: Option<Slot>, os: set<Outcome>, id: Id, after: Option<Slot>) {
    && (after.None? <==> before.None? && forall o | o in os :: !TypedFor(o, id))
    && (after.Some? ==>
          && (before.Some? ==> before.value.version <= after.value.version)
          && (forall o | o in os && TypedFor(o, id) :: o.version <= after.value.version)
          && (after == before || exists o :: o in os && Replaces(before, o, id, after.value)))
  }

  /** The slot is a typed outcome's, strictly newer than what was held, with the ticks loaded before. */
  predicate Replaces(before: Option<Slot>, o: Outcome, id: Id, slot: Slot) {
    TypedFor(o, id) && slot == SlotFrom(o, before) && (before.Some? ==> o.version > before.value.version)
  }

  lemma PublishedIsNewest(s: State, o: Outcome, id: Id)
    ensures Newest(SlotOf(s, id), {o}, id, SlotOf(Published(s, o), id))
  {
    var before, after := SlotOf(s, id), SlotOf(Published(s, o), id);
    if after != before {
      assert o in {o} && Replaces(before, o, id, after.value);
    }
  }

  lemma NewestComposes(
    before: Option<Slot>, os: set<Outcome>, mid: Option<Slot>, more: set<Outcome>, after: Option<Slot>, id: Id)
    requires Newest(before, os, id, mid) && Newest(mid, more, id, after)
    ensures Newest(before, os + more, id, after)
  {
    if after.Some? && after != before {
      if after == mid {
        var o :| o in os && Replaces(before, o, id, mid.value);
        assert o in os + more;
      } else {
        var o :| o in more && Replaces(mid, o, id, after.value);
        assert o in os + more && Replaces(before, o, id, after.value);
      }
    }
  }

  lemma {:induction false} PublishedAllIsNewest(s: State, outcomes: seq<Outcome>, id: Id)
    ensures Newest(SlotOf(s, id), Members(outcomes), id, SlotOf(PublishedAll(s, outcomes), id))
    decreases |outcomes|
  {
    if outcomes != [] {
      var next, rest := Published(s, outcomes[0]), outcomes[1..];
      PublishedIsNewest(s, outcomes[0], id);
      PublishedAllIsNewest(next, rest, id);
      NewestComposes(SlotOf(s, id), {outcomes[0]}, SlotOf(next, id), Members(rest),
                     SlotOf(PublishedAll(next, rest), id), id);
      assert outcomes == [outcomes[0]] + rest;
      assert Members(outcomes) == {outcomes[0]} + Members(rest);
    }
  }

  /** One version of an object has one content. */
  ghost predicate OneContentPerVersion(os: set<Outcome>) {
    forall o, p | o in os && p in os && o.id == p.id && o.version == p.version :: o == p
  }

  /** So the newest slot is determined by what was held and what was decoded. */
  lemma NewestIsUnique(before: Option<Slot>, os: set<Outcome>, id: Id, a: Option<Slot>, b: Option<Slot>)
    requires OneContentPerVersion(os) && Newest(before, os, id, a) && Newest(before, os, id, b)
    ensures a == b
  {
  }

  // ---------- removal and indexing leave other slots alone ----------

  lemma {:induction false} RemovedAllSlots(s: State, ids: seq<Id>, id: Id)
    ensures SlotOf(RemovedAll(s, ids), id) == if id in ids then None else SlotOf(s, id)
    decreases |ids|
  {
    if ids != [] {
      RemovedAllSlots(Removed(s, ids[0]), ids[1..], id);
      assert ids == [ids[0]] + ids[1..];
    }
  }

  /** Indexing children touches only the child index and its counters. */
  ghost predicate SameButChildren(s: State, t: State) {
    t == s.(children := t.children, childOwners := t.childOwners,
            childrenIndexed := t.childrenIndexed, childrenDropped := t.childrenDropped)
  }

  lemma {:induction false} InsertionKeepsRest(s: State, capacity: nat, parent: Id, ids: seq<Id>)
    requires parent in s.children
    ensures SameButChildren(s, ChildrenInserted(s, capacity, parent, ids))
    decreases |ids|
  {
    if ids != [] {
      InsertionKeepsRest(ChildInserted(s, capacity, parent, ids[0]), capacity, parent, ids[1..]);
    }
  }

  lemma GroupKeepsRest(s: State, capacity: nat, parent: Id, ids: seq<Id>)
    ensures SameButChildren(s, GroupIndexed(s, capacity, parent, ids))
  {
    var present := if parent in s.children then s else s.(children := s.children[parent := {}]);
    InsertionKeepsRest(present, capacity, parent, ids);
  }

  lemma {:induction false} GroupsKeepRest(
    s: State, capacity: nat, priced: set<Id>, groups: map<Id, seq<Id>>, parents: set<int>)
    requires parents <= groups.Keys
    ensures SameButChildren(s, GroupsIndexed(s, capacity, priced, groups, parents))
    decreases |parents|
  {
    if parents != {} {
      var parent := Least(parents).value;
      var next := if parent in priced then GroupIndexed(s, capacity, parent, groups[parent]) else s;
      GroupKeepsRest(s, capacity, parent, groups[parent]);
      GroupsKeepRest(next, capacity, priced, groups, parents - {parent});
    }
  }

  lemma IndexingKeepsRest(s: State, capacity: nat, childParents: seq<(Id, Id)>)
    ensures SameButChildren(s, ChildrenIndexed(s, capacity, childParents))
  {
    var groups := GroupChildren(childParents);
    GroupsKeepRest(s, capacity, PricedParents(s), groups, groups.Keys);
  }

  // ---------- one checkpoint ----------

  /** The outcomes of a checkpoint, as a set. */
  ghost function OutcomeSet(schema: Schema, cp: Checkpoint): set<Outcome> {
    Members(Outcomes(schema, GatheredFrom(cp).candidates))
  }

  lemma OutcomeSetIsDecoded(schema: Schema, cp: Checkpoint)
    ensures forall o :: o in OutcomeSet(schema, cp) <==> Decodes(schema, cp.objects, ChangesOf(cp), o)
    ensures OneContentPerVersion(OutcomeSet(schema, cp))
  {
    OutcomesOfCheckpoint(schema, cp);
    forall o, p | o in OutcomeSet(schema, cp) && p in OutcomeSet(schema, cp) && o.id == p.id && o.version == p.version
      ensures o == p
    {
      assert Decodes(schema, cp.objects, ChangesOf(cp), o) && Decodes(schema, cp.objects, ChangesOf(cp), p);
    }
  }

  /**
   * After a checkpoint that is not a duplicate, an id removed anywhere in it is untracked, and every
   * other id holds the newest of what it held and what the checkpoint's changes decode to.
   */
  lemma CheckpointKeepsNewest(s: State, capacity: nat, schema: Schema, cp: Checkpoint, id: Id)
    requires !IsDuplicate(s, cp)
    ensures Change(id, None) in ChangesOf(cp) ==> id !in Applied(s, capacity, schema, cp).slots
    ensures Change(id, None) !in ChangesOf(cp) ==>
      Newest(SlotOf(s, id), OutcomeSet(schema, cp), id, SlotOf(Applied(s, capacity, schema, cp), id))
  {
    var g := GatheredFrom(cp);
    var outcomes := Outcomes(schema, g.candidates);
    OutcomesAreFewer(schema, g.candidates);
    var counted := s.(failures := s.failures + g.missing + |g.candidates| - |outcomes|);
    var removed := RemovedAll(PublishedAll(counted, outcomes), g.removed);
    OutcomesOfCheckpoint(schema, cp);
    PublishedAllIsNewest(counted, outcomes, id);
    RemovedAllSlots(PublishedAll(counted, outcomes), g.removed, id);
    IndexingKeepsRest(removed, capacity, g.childParents);
    assert SlotOf(Applied(s, capacity, schema, cp), id) == SlotOf(removed, id);
  }

  /** The resulting slots depend on the set of changes only: not on their order, nor on repetitions. */
  lemma ChangeOrderDoesNotMatter(s: State, capacity: nat, schema: Schema, a: Checkpoint, b: Checkpoint)
    requires a.sequence == b.sequence && a.objects == b.objects
    requires forall change :: change in ChangesOf(a) <==> change in ChangesOf(b)
    ensures Applied(s, capacity, schema, a).slots == Applied(s, capacity, schema, b).slots
  {
    if !IsDuplicate(s, a) {
      OutcomeSetIsDecoded(schema, a);
      OutcomeSetIsDecoded(schema, b);
      SameOutcomes(schema, a, b);
      var x, y := Applied(s, capacity, schema, a), Applied(s, capacity, schema, b);
      forall id: Id
        ensures SlotOf(x, id) == SlotOf(y, id)
      {
        CheckpointKeepsNewest(s, capacity, schema, a, id);
        CheckpointKeepsNewest(s, capacity, schema, b, id);
        if Change(id, None) !in ChangesOf(a) {
          NewestIsUnique(SlotOf(s, id), OutcomeSet(schema, a), id, SlotOf(x, id), SlotOf(y, id));
        }
      }
      SlotsDecide(x, y);
    }
  }

  lemma SameOutcomes(schema: Schema, a: Checkpoint, b: Checkpoint)
    requires a.objects == b.objects && forall change :: change in ChangesOf(a) <==> change in ChangesOf(b)
    ensures OutcomeSet(schema, a) == OutcomeSet(schema, b)
  {
    OutcomeSetIsDecoded(schema, a);
    OutcomeSetIsDecoded(schema, b);
    forall o
      ensures o in OutcomeSet(schema, a) <==> o in OutcomeSet(schema, b)
    {
      assert Decodes(schema, a.objects, ChangesOf(a), o) <==> Decodes(schema, b.objects, ChangesOf(b), o);
    }
  }

  lemma SlotsDecide(x: State, y: State)
    requires forall id: Id :: SlotOf(x, id) == SlotOf(y, id)
    ensures x.slots == y.slots
  {
    forall id: Id
      ensures id in x.slots <==> id in y.slots
      ensures id in x.slots ==> x.slots[id] == y.slots[id]
    {
      assert SlotOf(x, id) == SlotOf(y, id);
    }
  }

  // ---------- what a slot holds, in terms of the checkpoint's objects ----------

  /** The checkpoint leaves the id at a version whose contents decode, under the layout of its tag, to this venue. */
  ghost predicate Shows(
    schema: Schema, cp: Checkpoint, id: Id, version: Version, tag: Tag, layout: Layout, venue: Venue)
  {
    && Change(id, Some(version)) in ChangesOf(cp)
    && (id, version) in cp.objects
    && exists contents ::
         && cp.objects[(id, version)] == VenueObject(tag, Some(contents))
         && schema.resolve(tag) == Some(layout)
         && schema.decode(contents, tag, layout) == Typed(venue)
  }

  ghost predicate ShowsVersion(schema: Schema, cp: Checkpoint, id: Id, version: Version) {
    exists tag, layout, venue :: Shows(schema, cp, id, version, tag, layout, venue)
  }

  ghost predicate ShowsOutcome(schema: Schema, cp: Checkpoint, id: Id, o: Outcome)
    requires o.decoded.Typed?
  {
    exists layout ::
      Shows(schema, cp, id, o.version, o.tag, layout, o.decoded.venue) && o.layout == schema.fingerprint(layout)
  }

  /** Typed outcomes are the versions shown. */
  lemma OutcomesAreShown(schema: Schema, cp: Checkpoint, id: Id)
    ensures forall o | o in OutcomeSet(schema, cp) && TypedFor(o, id) ::
      ShowsOutcome(schema, cp, id, o)
    ensures forall version: Version, tag, layout, venue | Shows(schema, cp, id, version, tag, layout, venue) ::
      Outcome(id, version, tag, schema.fingerprint(layout), Typed(venue)) in OutcomeSet(schema, cp)
  {
    OutcomeSetIsDecoded(schema, cp);
    forall o | o in OutcomeSet(schema, cp) && TypedFor(o, id)
      ensures ShowsOutcome(schema, cp, id, o)
    {
      assert Decodes(schema, cp.objects, ChangesOf(cp), o);
      var change :| change in ChangesOf(cp) && CandidateOf(cp.objects, change).Some?
        && OutcomeOf(schema, CandidateOf(cp.objects, change).value) == Some(o);
      assert change == Change(id, Some(o.version));
      assert Shows(schema, cp, id, o.version, o.tag, schema.resolve(o.tag).value, o.decoded.venue);
    }
    forall version: Version, tag, layout, venue | Shows(schema, cp, id, version, tag, layout, venue)
      ensures Outcome(id, version, tag, schema.fingerprint(layout), Typed(venue)) in OutcomeSet(schema, cp)
    {
      var change := Change(id, Some(version));
      assert CandidateOf(cp.objects, change).Some?;
      assert Decodes(schema, cp.objects, ChangesOf(cp),
                     Outcome(id, version, tag, schema.fingerprint(layout), Typed(venue)));
    }
  }

  /**
   * The newest version a checkpoint shows of an object it does not remove is published, if it is newer
   * than the one held: that version's tag, its contents decoded under the tag's layout, that layout's
   * fingerprint, and the ticks loaded earlier.
   */
  lemma NewestShownIsPublished(
    s: State, capacity: nat, schema: Schema, cp: Checkpoint, id: Id,
    version: Version, tag: Tag, layout: Layout, venue: Venue)
    requires !IsDuplicate(s, cp) && Change(id, None) !in ChangesOf(cp)
    requires Shows(schema, cp, id, version, tag, layout, venue)
    requires forall other: Version | ShowsVersion(schema, cp, id, other) :: other <= version
    requires id in s.slots ==> s.slots[id].version < version
    ensures SlotOf(Applied(s, capacity, schema, cp), id) ==
      Some(Slot(version, tag, venue, schema.fingerprint(layout), if id in s.slots then s.slots[id].ticks else None))
  {
    CheckpointKeepsNewest(s, capacity, schema, cp, id);
    OutcomesAreShown(schema, cp, id);
    var before, after := SlotOf(s, id), SlotOf(Applied(s, capacity, schema, cp), id);
    var published := Outcome(id, version, tag, schema.fingerprint(layout), Typed(venue));
    assert TypedFor(published, id) && published in OutcomeSet(schema, cp);
    var o :| o in OutcomeSet(schema, cp) && Replaces(before, o, id, after.value);
    assert ShowsVersion(schema, cp, id, o.version);
    OutcomeSetIsDecoded(schema, cp);
    assert o == published;
  }

  /**
   * Otherwise the slot stays as it was: nothing newer shown, be it that no change names the id, that its
   * object is no venue, has no contents, does not resolve or does not decode, or is older or no newer
   * than the one held.
   */
  lemma NothingNewerShown(s: State, capacity: nat, schema: Schema, cp: Checkpoint, id: Id)
    requires Change(id, None) !in ChangesOf(cp)
    requires forall version: Version | ShowsVersion(schema, cp, id, version) ::
      id in s.slots && version <= s.slots[id].version
    ensures SlotOf(Applied(s, capacity, schema, cp), id) == SlotOf(s, id)
  {
    if !IsDuplicate(s, cp) {
      CheckpointKeepsNewest(s, capacity, schema, cp, id);
      OutcomesAreShown(schema, cp, id);
      var before, after := SlotOf(s, id), SlotOf(Applied(s, capacity, schema, cp), id);
      forall o | o in OutcomeSet(schema, cp) && TypedFor(o, id)
        ensures before.Some? && o.version <= before.value.version
      {
        assert ShowsVersion(schema, cp, id, o.version);
      }
    }
  }
}
