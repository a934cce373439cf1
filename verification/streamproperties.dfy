/** What holds over every stream of checkpoint deliveries. */
module StreamProperties {
  import opened Wrappers
  import opened OrderedKeys
  import opened StateManager
  import opened StateProperties

  /** A checkpoint as delivered, with the schema in force at that time. */
  datatype Delivery = Delivery(schema: Schema, checkpoint: Checkpoint)

  function Run(s: State, capacity: nat, ds: seq<Delivery>): State
    decreases |ds|
  {
    if ds == [] then s else Run(Applied(s, capacity, ds[0].schema, ds[0].checkpoint), capacity, ds[1..])
  }

  lemma {:induction false} RunJoins(s: State, capacity: nat, a: seq<Delivery>, b: seq<Delivery>)
    ensures Run(s, capacity, a + b) == Run(Run(s, capacity, a), capacity, b)
    decreases |a|
  {
    if a == [] {
      assert a + b == b;
    } else {
      assert (a + b)[1..] == a[1..] + b;
      RunJoins(Applied(s, capacity, a[0].schema, a[0].checkpoint), capacity, a[1..], b);
    }
  }

  // ---------- the phases of a checkpoint, one kind of fact at a time ----------

  /** The state after publication and the state after removals of a checkpoint that is not a duplicate. */
  function AfterPublication(s: State, schema: Schema, cp: Checkpoint): State {
    var g := GatheredFrom(cp);
    var outcomes := Outcomes(schema, g.candidates);
    OutcomesAreFewer(schema, g.candidates);
    PublishedAll(s.(failures := s.failures + g.missing + |g.candidates| - |outcomes|), outcomes)
  }

  function AfterRemoval(s: State, schema: Schema, cp: Checkpoint): State {
    RemovedAll(AfterPublication(s, schema, cp), GatheredFrom(cp).removed)
  }

  lemma AppliedInPhases(s: State, capacity: nat, schema: Schema, cp: Checkpoint)
    requires !IsDuplicate(s, cp)
    ensures var indexed := ChildrenIndexed(AfterRemoval(s, schema, cp), capacity, GatheredFrom(cp).childParents);
      Applied(s, capacity, schema, cp) == indexed.(checkpoints := indexed.checkpoints + 1, lastApplied := cp.sequence)
  {
    OutcomesAreFewer(schema, GatheredFrom(cp).candidates);
  }

  // ---------- re-delivery ----------

  predicate SameCommit(s: State, t: State) {
    s.checkpoints == t.checkpoints && s.lastApplied == t.lastApplied
  }

  lemma {:induction false} PublishedAllSameCommit(s: State, outcomes: seq<Outcome>)
    ensures SameCommit(s, PublishedAll(s, outcomes))
    decreases |outcomes|
  {
    if outcomes != [] {
      PublishedAllSameCommit(Published(s, outcomes[0]), outcomes[1..]);
    }
  }

  lemma {:induction false} RemovedAllSameCommit(s: State, ids: seq<Id>)
    ensures SameCommit(s, RemovedAll(s, ids))
    decreases |ids|
  {
    if ids != [] {
      RemovedAllSameCommit(Removed(s, ids[0]), ids[1..]);
    }
  }

  /** A checkpoint that is applied commits its sequence; a duplicate commits nothing. */
  lemma AppliedCommits(s: State, capacity: nat, schema: Schema, cp: Checkpoint)
    ensures var t := Applied(s, capacity, schema, cp);
      if IsDuplicate(s, cp) then t == s
      else t.checkpoints == s.checkpoints + 1 && t.lastApplied == cp.sequence
  {
    if !IsDuplicate(s, cp) {
      AppliedInPhases(s, capacity, schema, cp);
      var g := GatheredFrom(cp);
      var outcomes := Outcomes(schema, g.candidates);
      OutcomesAreFewer(schema, g.candidates);
      PublishedAllSameCommit(s.(failures := s.failures + g.missing + |g.candidates| - |outcomes|), outcomes);
      RemovedAllSameCommit(AfterPublication(s, schema, cp), g.removed);
      IndexingKeepsRest(AfterRemoval(s, schema, cp), capacity, g.childParents);
    }
  }

  /** The last applied sequence is a high-water mark of everything delivered. */
  lemma {:induction false} RunHighWater(s: State, capacity: nat, ds: seq<Delivery>)
    requires s.checkpoints == 0 ==> s.lastApplied == 0
    ensures var t := Run(s, capacity, ds);
      && s.lastApplied <= t.lastApplied
      && (s.checkpoints > 0 || ds != [] ==> t.checkpoints > 0)
      && (t.checkpoints == 0 ==> t.lastApplied == 0)
      && forall i | 0 <= i < |ds| :: ds[i].checkpoint.sequence <= t.lastApplied
    decreases |ds|
  {
    if ds != [] {
      AppliedCommits(s, capacity, ds[0].schema, ds[0].checkpoint);
      RunHighWater(Applied(s, capacity, ds[0].schema, ds[0].checkpoint), capacity, ds[1..]);
      assert forall i | 1 <= i < |ds| :: ds[i] == ds[1..][i - 1];
    }
  }

  /** Delivering anything at or below a sequence already delivered changes nothing, anywhere in a stream. */
  lemma RedeliveryChangesNothing(capacity: nat, before: seq<Delivery>, again: Delivery, after: seq<Delivery>)
    requires exists i :: 0 <= i < |before| && again.checkpoint.sequence <= before[i].checkpoint.sequence
    ensures Run(NEW, capacity, before + [again] + after) == Run(NEW, capacity, before + after)
  {
    var s := Run(NEW, capacity, before);
    RunHighWater(NEW, capacity, before);
    assert Applied(s, capacity, again.schema, again.checkpoint) == s;
    RunJoins(NEW, capacity, before + [again], after);
    RunJoins(NEW, capacity, before, [again]);
    RunJoins(NEW, capacity, before, after);
  }

  // ---------- tracked venues are created minus removed ----------

  predicate Accounted(s: State) {
    |s.slots| + s.venuesRemoved == s.venuesCreated
  }

  lemma {:induction false} PublishedAllAccounted(s: State, outcomes: seq<Outcome>)
    requires Accounted(s)
    ensures Accounted(PublishedAll(s, outcomes))
    decreases |outcomes|
  {
    if outcomes != [] {
      PublishedAllAccounted(Published(s, outcomes[0]), outcomes[1..]);
    }
  }

  lemma RemovedAccounted(s: State, id: Id)
    requires Accounted(s)
    ensures Accounted(Removed(s, id))
  {
    if id in s.slots {
      assert (s.slots - {id}).Keys == s.slots.Keys - {id};
      assert |(s.slots - {id}).Keys| == |s.slots.Keys| - 1;
    }
  }

  lemma {:induction false} RemovedAllAccounted(s: State, ids: seq<Id>)
    requires Accounted(s)
    ensures Accounted(RemovedAll(s, ids))
    decreases |ids|
  {
    if ids != [] {
      RemovedAccounted(s, ids[0]);
      RemovedAllAccounted(Removed(s, ids[0]), ids[1..]);
    }
  }

  lemma {:induction false} RunAccounted(s: State, capacity: nat, ds: seq<Delivery>)
    requires Accounted(s)
    ensures Accounted(Run(s, capacity, ds))
    decreases |ds|
  {
    if ds != [] {
      var (schema, cp) := (ds[0].schema, ds[0].checkpoint);
      if !IsDuplicate(s, cp) {
        AppliedInPhases(s, capacity, schema, cp);
        var g := GatheredFrom(cp);
        var outcomes := Outcomes(schema, g.candidates);
        OutcomesAreFewer(schema, g.candidates);
        PublishedAllAccounted(s.(failures := s.failures + g.missing + |g.candidates| - |outcomes|), outcomes);
        RemovedAllAccounted(AfterPublication(s, schema, cp), g.removed);
        IndexingKeepsRest(AfterRemoval(s, schema, cp), capacity, g.childParents);
      }
      RunAccounted(Applied(s, capacity, schema, cp), capacity, ds[1..]);
    }
  }

  /** After any stream, the venues tracked are those created and not removed. */
  lemma TrackedIsCreatedMinusRemoved(capacity: nat, ds: seq<Delivery>)
    ensures var s := Run(NEW, capacity, ds); |s.slots| == s.venuesCreated - s.venuesRemoved
  {
    RunAccounted(NEW, capacity, ds);
  }
}
