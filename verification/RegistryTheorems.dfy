/**
 What follows for a registry over whole runs: erasure that holds, an audit trail that
 accounts for every reference, and the report that notices a lost key.
 */
module RegistryTheorems {
  import opened Results
  import opened Registry
  import opened RegistrySafety

  // ---------------------------------------------------------------- erased stays erased

  predicate TaggedUnder(trail: Trail, keys: set<Key>, id: NaturalId) {
    exists i :: 0 <= i < |trail| && trail[i].tag.Some? && trail[i].tag.value.key in keys && trail[i].tag.value.id == id
  }

  /** No identifier erased under one of `keys` is linked, and nobody is about to link one. */
  predicate ErasedStayErased(s: State, keys: set<Key>) {
    && (forall ref :: ref in s.mappings ==> !TaggedUnder(s.trail, keys, s.mappings[ref].id))
    && (forall run :: run in s.phases && s.phases[run].RegAllowed? ==> !TaggedUnder(s.trail, keys, s.phases[run].id))
  }

  /** A suppression check made by a registry that holds every one of `keys` its identifier is tagged under. */
  predicate ChecksFully(s: State, a: Action, keys: set<Key>) {
    a.CheckSuppressed? && PhaseOf(s, a.run).RegReread? ==>
      !TaggedUnder(s.trail, keys - Held(PhaseOf(s, a.run).ring), PhaseOf(s, a.run).id)
  }

  function Held(ring: Ring): set<Key> {
    set key | key in ring
  }

  ghost predicate EveryCheckIsFull(s: State, actions: seq<Action>, keys: set<Key>)
    requires ValidRun(s, actions)
    decreases |actions|
  {
    actions == [] || (ChecksFully(s, actions[0], keys) && EveryCheckIsFull(Apply(s, actions[0]), actions[1..], keys))
  }

  /** Being suppressed is being tagged under a key one holds. */
  lemma SuppressedIsTagged(trail: Trail, ring: Ring, id: NaturalId)
    ensures Suppressed(trail, ring, id) <==> TaggedUnder(trail, Held(ring), id)
  {
    if Suppressed(trail, ring, id) {
      var i :| 0 <= i < |trail| && trail[i].tag.Some? && trail[i].tag.value in Tombstones(ring, id);
      assert trail[i].tag.value.key in Held(ring);
    }
    if TaggedUnder(trail, Held(ring), id) {
      var i :| 0 <= i < |trail| && trail[i].tag.Some? && trail[i].tag.value.key in Held(ring)
          && trail[i].tag.value.id == id;
      var k :| 0 <= k < |ring| && ring[k] == trail[i].tag.value.key;
      assert Tombstones(ring, id)[k] == trail[i].tag.value;
    }
  }

  lemma TaggedSplits(trail: Trail, a: set<Key>, b: set<Key>, id: NaturalId)
    ensures TaggedUnder(trail, a + b, id) <==> TaggedUnder(trail, a, id) || TaggedUnder(trail, b, id)
  {
  }

  /** A trail that gained only one tag gained only that identifier's. */
  lemma NewTagsOnly(before: Trail, now: Trail, tag: Option<Tag>, keys: set<Key>, id: NaturalId)
    requires OnlyNewTag(before, now, tag) && TaggedUnder(now, keys, id)
    ensures TaggedUnder(before, keys, id) || (tag.Some? && tag.value.id == id)
  {
    var i :| 0 <= i < |now| && now[i].tag.Some? && now[i].tag.value.key in keys && now[i].tag.value.id == id;
    if i < |before| && before[i].tag == now[i].tag {
      assert before[i].tag.value.key in keys;
    }
  }

  lemma CheckKeepsErased(s: State, run: Run, keys: set<Key>)
    requires ErasedStayErased(s, keys)
    requires Enabled(s, CheckSuppressed(run)) && ChecksFully(s, CheckSuppressed(run), keys)
    ensures ErasedStayErased(Apply(s, CheckSuppressed(run)), keys)
  {
    var p := PhaseOf(s, run);
    SuppressedIsTagged(s.trail, p.ring, p.id);
    TaggedSplits(s.trail, Held(p.ring), keys - Held(p.ring), p.id);
    assert TaggedUnder(s.trail, keys, p.id) ==> TaggedUnder(s.trail, Held(p.ring) + (keys - Held(p.ring)), p.id);
  }

  /**
   An erasure reaches the person, not the reference: when it commits no epoch of the
   identifier is linked, whichever way the request named it.
   */
  lemma ErasureDestroysEveryEpoch(s: State, run: Run)
    requires Inv(s) && Enabled(s, CommitErase(run))
    ensures var p := PhaseOf(s, run); var t := Apply(s, CommitErase(run));
      && (p.natural.Some? ==> forall ref :: ref in t.mappings ==> t.mappings[ref].id != p.natural.value)
      && (p.subject.Reference? && p.subject.ref in s.issued && p.natural.Some? ==>
            p.natural == Some(s.issued[p.subject.ref]))
      && (p.subject.Reference? ==> p.subject.ref !in t.mappings)
      && run in s.phases && PhaseInv(p, s.mappings, s.issued)
  {
    var p := PhaseOf(s, run);
    var t := Apply(s, CommitErase(run));
    assert PhaseInv(p, s.mappings, s.issued);
    assert p.targets != [] ==> p.targets[0] in Elements(p.targets);
    if p.natural.Some? {
      MappedAreTargeted(p.natural.value, p.targets, s.mappings);
    } else if p.subject.Reference? {
      assert Audits(p.subject, p.targets) == [p.subject.ref];
    }
  }

  lemma MappedAreTargeted(id: NaturalId, targets: seq<Ref>, mappings: Mappings)
    requires Elements(targets) == MappedRefs(mappings, id)
    ensures forall ref :: ref in mappings && mappings[ref].id == id ==> ref in targets && targets != []
  {
    forall ref | ref in mappings && mappings[ref].id == id ensures ref in targets && targets != [] {
      assert ref in MappedRefs(mappings, id);
    }
  }

  lemma CommitEraseKeepsErased(s: State, run: Run, keys: set<Key>)
    requires Inv(s) && ErasedStayErased(s, keys) && Enabled(s, CommitErase(run))
    ensures ErasedStayErased(Apply(s, CommitErase(run)), keys)
  {
    var p := PhaseOf(s, run);
    var t := Apply(s, CommitErase(run));
    var tag := if p.natural.Some? then Tombstone(p.ring, p.natural.value) else None;
    ErasureDestroysEveryEpoch(s, run);
    assert forall ref :: ref in p.targets ==> ref in Elements(p.targets);
    ErasureKeepsTrail(s.trail, p.subject, p.natural, p.targets, p.already, p.ring, p.why, s.issued);
    forall ref | ref in t.mappings ensures !TaggedUnder(t.trail, keys, t.mappings[ref].id) {
      if TaggedUnder(t.trail, keys, t.mappings[ref].id) {
        NewTagsOnly(s.trail, t.trail, tag, keys, t.mappings[ref].id);
      }
    }
    forall other | other in t.phases && t.phases[other].RegAllowed?
      ensures !TaggedUnder(t.trail, keys, t.phases[other].id)
    {
      if TaggedUnder(t.trail, keys, t.phases[other].id) {
        NewTagsOnly(s.trail, t.trail, tag, keys, t.phases[other].id);
      }
    }
  }

  lemma ShrinkingKeepsErased(s: State, t: State, keys: set<Key>)
    requires ErasedStayErased(s, keys)
    requires t.mappings.Keys <= s.mappings.Keys
    requires forall ref :: ref in t.mappings ==> t.mappings[ref] == s.mappings[ref]
    requires OnlyNewTag(s.trail, t.trail, None)
    requires forall run :: run in t.phases && t.phases[run].RegAllowed? ==>
               run in s.phases && s.phases[run] == t.phases[run]
    ensures ErasedStayErased(t, keys)
  {
    forall id | TaggedUnder(t.trail, keys, id) ensures TaggedUnder(s.trail, keys, id) {
      NewTagsOnly(s.trail, t.trail, None, keys, id);
    }
  }

  lemma InsertKeepsErased(s: State, run: Run, ref: Ref, keys: set<Key>)
    requires Inv(s) && ErasedStayErased(s, keys) && Enabled(s, Insert(run, ref))
    ensures ErasedStayErased(Apply(s, Insert(run, ref)), keys)
  {
    InsertKeepsInv(s, run, ref);
  }

  lemma SweepKeepsErased(s: State, run: Run, keys: set<Key>)
    requires Inv(s) && ErasedStayErased(s, keys) && Enabled(s, CommitSweep(run))
    ensures ErasedStayErased(Apply(s, CommitSweep(run)), keys)
  {
    ExpiriesKeep(s.trail, PhaseOf(s, run).rows, PhaseOf(s, run).why, s.issued);
    ShrinkingKeepsErased(s, Apply(s, CommitSweep(run)), keys);
  }

  lemma MoveKeepsErased(s: State, a: Action, keys: set<Key>)
    requires ErasedStayErased(s, keys) && Enabled(s, a) && !Writes(a) && !a.CheckSuppressed?
    ensures ErasedStayErased(Apply(s, a), keys)
  {
    var t := Apply(s, a);
    assert t.mappings == s.mappings && t.trail == s.trail;
    assert forall run :: run in t.phases && run != a.run ==> run in s.phases && s.phases[run] == t.phases[run];
    assert !t.phases[a.run].RegAllowed?;
  }

  lemma StepKeepsErased(s: State, a: Action, keys: set<Key>)
    requires Inv(s) && ErasedStayErased(s, keys)
    requires Enabled(s, a) && ChecksFully(s, a, keys)
    ensures ErasedStayErased(Apply(s, a), keys)
  {
    hide ErasedStayErased, Inv, ChecksFully, Enabled;
    match a
    case CheckSuppressed(run) => CheckKeepsErased(s, run, keys);
    case CommitErase(run) => CommitEraseKeepsErased(s, run, keys);
    case Insert(run, ref) => InsertKeepsErased(s, run, ref, keys);
    case CommitSweep(run) => SweepKeepsErased(s, run, keys);
    case Lift(id, ring, lifting) => LiftKeepsErased(s, id, ring, lifting, keys);
    case _ => MoveKeepsErased(s, a, keys);
  }

  lemma LiftKeepsErased(s: State, id: NaturalId, ring: Ring, lifting: Lifting, keys: set<Key>)
    requires Inv(s) && ErasedStayErased(s, keys)
    ensures ErasedStayErased(Apply(s, Lift(id, ring, lifting)), keys)
  {
    LiftKeeps(s.trail, ring, id, lifting, s.issued);
    ShrinkingKeepsErased(s, Apply(s, Lift(id, ring, lifting)), keys);
  }

  /**
   In every interleaving of registrations, erasures by reference or identifier, sweeps
   and lifts: an identifier any registry holding only `keys` recognises as erased is
   linked in no epoch, provided each check that lets an identifier through was made
   with every key it is tagged under.
   */
  lemma {:induction false} ErasedIdentifiersStayUnlinked(s: State, actions: seq<Action>, keys: set<Key>)
    requires Inv(s) && ErasedStayErased(s, keys)
    requires ValidRun(s, actions) && EveryCheckIsFull(s, actions, keys)
    ensures var t := Exec(s, actions);
      && ErasedStayErased(t, keys)
      && forall ring, ref :: Held(ring) <= keys && ref in t.mappings ==> !Suppressed(t.trail, ring, t.mappings[ref].id)
    decreases |actions|
  {
    if actions == [] {
      forall ring, ref | Held(ring) <= keys && ref in s.mappings
        ensures !Suppressed(s.trail, ring, s.mappings[ref].id)
      {
        SuppressedIsTagged(s.trail, ring, s.mappings[ref].id);
        TaggedSplits(s.trail, Held(ring), keys, s.mappings[ref].id);
        assert Held(ring) + keys == keys;
      }
    } else {
      StepKeepsErased(s, actions[0], keys);
      StepKeepsInv(s, actions[0]);
      ErasedIdentifiersStayUnlinked(Apply(s, actions[0]), actions[1..], keys);
    }
  }

  // ---------------------------------------------------------------- rings that hold every key

  predicate RegistersWith(actions: seq<Action>, keys: set<Key>) {
    forall i :: 0 <= i < |actions| && actions[i].BeginRegister? ==> keys <= Held(actions[i].ring)
  }

  predicate RegistersAtLeast(p: Phase, keys: set<Key>) {
    p.Registering? || p.RegMissed? || p.RegLocked? || p.RegReread? || p.RegAllowed? ==> keys <= Held(p.ring)
  }

  lemma {:induction false} FullRingsCheckFully(s: State, actions: seq<Action>, keys: set<Key>)
    requires ValidRun(s, actions) && RegistersWith(actions, keys)
    requires forall run :: run in s.phases ==> RegistersAtLeast(s.phases[run], keys)
    ensures EveryCheckIsFull(s, actions, keys)
    decreases |actions|
  {
    if actions != [] {
      var a := actions[0];
      var t := Apply(s, a);
      if a.CheckSuppressed? {
        assert keys - Held(PhaseOf(s, a.run).ring) == {};
      }
      assert forall run :: run in t.phases ==> RegistersAtLeast(t.phases[run], keys) by { StepKeepsRings(s, a, keys); }
      FullRingsCheckFully(t, actions[1..], keys);
    }
  }

  lemma StepKeepsRings(s: State, a: Action, keys: set<Key>)
    requires Enabled(s, a) && (a.BeginRegister? ==> keys <= Held(a.ring))
    requires forall run :: run in s.phases ==> RegistersAtLeast(s.phases[run], keys)
    ensures forall run :: run in Apply(s, a).phases ==> RegistersAtLeast(Apply(s, a).phases[run], keys)
  {
    if !a.Lift? {
      assert RegistersAtLeast(PhaseOf(s, a.run), keys);
      assert RegistersAtLeast(PhaseOf(Apply(s, a), a.run), keys);
    }
  }

  /** From an empty registry: whatever every registering ring holds, an erasure under it is never undone. */
  lemma ErasureHoldsUnderSharedKeys(lockKey: NaturalId -> int, actions: seq<Action>, keys: set<Key>, ring: Ring)
    requires ValidRun(Initial(lockKey), actions) && RegistersWith(actions, keys) && Held(ring) <= keys
    ensures var t := Exec(Initial(lockKey), actions);
      forall id, epoch :: Suppressed(t.trail, ring, id) ==> !HasMapping(t.mappings, id, epoch)
  {
    FullRingsCheckFully(Initial(lockKey), actions, keys);
    ErasedIdentifiersStayUnlinked(Initial(lockKey), actions, keys);
    var t := Exec(Initial(lockKey), actions);
    forall id, epoch | HasMapping(t.mappings, id, epoch) ensures !Suppressed(t.trail, ring, id) {
      var ref :| ref in t.mappings && t.mappings[ref] == Mapping(id, epoch);
      assert !Suppressed(t.trail, ring, t.mappings[ref].id);
    }
  }

  /** The keys that have written a tombstone, or are about to. */
  predicate WrittenWithout(s: State, key: Key) {
    && (forall i :: 0 <= i < |s.trail| && s.trail[i].tag.Some? ==> s.trail[i].tag.value.key != key)
    && (forall run :: run in s.phases ==> WritesWithout(s.phases[run], key))
  }

  predicate WritesWithout(p: Phase, key: Key) {
    (p.Erasing? || p.EraseResolved? || p.EraseLocked? || p.EraseSelecting? || p.EraseDecided?) && p.ring != [] ==>
      p.ring[0] != key
  }

  /** No erasure begins with a registry that writes with this key. */
  predicate NeverWritesWith(actions: seq<Action>, key: Key) {
    forall i :: 0 <= i < |actions| && actions[i].BeginErase? && actions[i].ring != [] ==> actions[i].ring[0] != key
  }

  lemma MoveKeepsUnwritten(s: State, a: Action, key: Key)
    requires WrittenWithout(s, key) && Enabled(s, a) && !Writes(a)
    requires a.BeginErase? && a.ring != [] ==> a.ring[0] != key
    ensures WrittenWithout(Apply(s, a), key)
  {
    hide Lookup, Suppressed, LockFree, RowsFree, Resolved;
    assert WritesWithout(PhaseOf(s, a.run), key);
    assert WritesWithout(NextPhase(s, a), key);
  }

  lemma NewTagIsNot(before: Trail, now: Trail, tag: Option<Tag>, key: Key)
    requires OnlyNewTag(before, now, tag) && (tag.Some? ==> tag.value.key != key)
    requires forall i :: 0 <= i < |before| && before[i].tag.Some? ==> before[i].tag.value.key != key
    ensures forall i :: 0 <= i < |now| && now[i].tag.Some? ==> now[i].tag.value.key != key
  {
    forall i | 0 <= i < |now| && now[i].tag.Some? ensures now[i].tag.value.key != key {
      assert (i < |before| && before[i].tag == now[i].tag) || now[i].tag == tag;
    }
  }

  lemma StepKeepsUnwritten(s: State, a: Action, key: Key)
    requires Inv(s) && WrittenWithout(s, key) && Enabled(s, a)
    requires a.BeginErase? && a.ring != [] ==> a.ring[0] != key
    ensures WrittenWithout(Apply(s, a), key)
  {
    if !Writes(a) {
      MoveKeepsUnwritten(s, a, key);
    } else if a.CommitErase? {
      CommitEraseKeepsUnwritten(s, a.run, key);
    } else if a.CommitSweep? {
      var p := PhaseOf(s, a.run);
      ExpiriesKeep(s.trail, p.rows, p.why, s.issued);
      NewTagIsNot(s.trail, AuditExpiries(s.trail, p.rows, p.why), None, key);
    } else if a.Lift? {
      LiftKeeps(s.trail, a.ring, a.id, a.lifting, s.issued);
      NewTagIsNot(s.trail, LiftAll(s.trail, a.ring, a.id, a.lifting), None, key);
    }
  }

  lemma CommitEraseKeepsUnwritten(s: State, run: Run, key: Key)
    requires Inv(s) && WrittenWithout(s, key) && Enabled(s, CommitErase(run))
    ensures WrittenWithout(Apply(s, CommitErase(run)), key)
  {
    hide TrailInv, Conserved, HeldApart, UpsertAll, Audited;
    var p := PhaseOf(s, run);
    ErasureDestroysEveryEpoch(s, run);
    assert WritesWithout(p, key);
    assert forall ref :: ref in p.targets ==> ref in Elements(p.targets);
    ErasureKeepsTrail(s.trail, p.subject, p.natural, p.targets, p.already, p.ring, p.why, s.issued);
    NewTagIsNot(s.trail, TrailAfterErasure(s.trail, p.subject, p.natural, p.targets, p.already, p.ring, p.why),
                if p.natural.Some? then Tombstone(p.ring, p.natural.value) else None, key);
  }

  lemma {:induction false} RunKeepsUnwritten(s: State, actions: seq<Action>, key: Key)
    requires Inv(s) && WrittenWithout(s, key) && ValidRun(s, actions) && NeverWritesWith(actions, key)
    ensures WrittenWithout(Exec(s, actions), key)
    decreases |actions|
  {
    hide Inv, WrittenWithout, Enabled, Apply;
    if actions != [] {
      StepKeepsInv(s, actions[0]);
      StepKeepsUnwritten(s, actions[0], key);
      assert forall i :: 0 <= i < |actions[1..]| ==> actions[1..][i] == actions[i + 1];
      RunKeepsUnwritten(Apply(s, actions[0]), actions[1..], key);
    }
  }

  /** A rotation in front of the ring: a key that never wrote a tag joins the keys that are kept. */
  lemma FreshKeyJoins(s: State, keys: set<Key>, newKey: Key)
    requires ErasedStayErased(s, keys)
    requires forall i :: 0 <= i < |s.trail| && s.trail[i].tag.Some? ==> s.trail[i].tag.value.key != newKey
    ensures ErasedStayErased(s, keys + {newKey})
  {
    forall id
      ensures !TaggedUnder(s.trail, {newKey}, id)
      ensures TaggedUnder(s.trail, keys + {newKey}, id) ==> TaggedUnder(s.trail, keys, id)
    {
      TaggedSplits(s.trail, keys, {newKey}, id);
    }
  }

  /**
   An additive rotation as one run. Up to some moment every registering ring holds `keys` and
   nobody writes with the new key; from then on every registering ring, those in flight
   included, holds the new key as well, and anybody may write with it. At the end no
   identifier suppressed under the old keys or the new one is linked in any epoch.
   */
  lemma RotationKeepsErased(lockKey: NaturalId -> int, before: seq<Action>, after: seq<Action>, keys: set<Key>,
                            newKey: Key, ring: Ring)
    requires ValidRun(Initial(lockKey), before) && RegistersWith(before, keys) && NeverWritesWith(before, newKey)
    requires var s := Exec(Initial(lockKey), before);
      && (forall run :: run in s.phases ==> RegistersAtLeast(s.phases[run], keys + {newKey}))
      && ValidRun(s, after) && RegistersWith(after, keys + {newKey})
    requires Held(ring) <= keys + {newKey}
    ensures var t := Exec(Exec(Initial(lockKey), before), after);
      forall id, epoch :: Suppressed(t.trail, ring, id) ==> !HasMapping(t.mappings, id, epoch)
  {
    var start := Initial(lockKey);
    var s := Exec(start, before);
    FullRingsCheckFully(start, before, keys);
    ErasedIdentifiersStayUnlinked(start, before, keys);
    RunKeepsInv(start, before);
    RunKeepsUnwritten(start, before, newKey);
    FreshKeyJoins(s, keys, newKey);
    FullRingsCheckFully(s, after, keys + {newKey});
    ErasedIdentifiersStayUnlinked(s, after, keys + {newKey});
    hide ValidRun, Exec, Inv, Suppressed;
    var t := Exec(s, after);
    forall id, epoch | HasMapping(t.mappings, id, epoch) ensures !Suppressed(t.trail, ring, id) {
      var ref :| ref in t.mappings && t.mappings[ref] == Mapping(id, epoch);
      assert !Suppressed(t.trail, ring, t.mappings[ref].id);
    }
  }

  // ---------------------------------------------------------------- a ring that lacks a key

  /**
   The check a registration makes is as good as its ring, and no better: once it lets an
   identifier through and links it, the promise survives exactly when no key outside the
   ring had tagged the identifier.
   */
  lemma LinkingIsSafeIffRingSawEveryTag(s: State, run: Run, ref: Ref, keys: set<Key>)
    requires Inv(s) && ErasedStayErased(s, keys)
    requires Enabled(s, CheckSuppressed(run)) && Enabled(Apply(s, CheckSuppressed(run)), Insert(run, ref))
    ensures var p := PhaseOf(s, run);
      ErasedStayErased(Apply(Apply(s, CheckSuppressed(run)), Insert(run, ref)), keys)
      <==> !TaggedUnder(s.trail, keys - Held(p.ring), p.id)
  {
    var p := PhaseOf(s, run);
    var t := Apply(Apply(s, CheckSuppressed(run)), Insert(run, ref));
    CheckThenLink(s, run, ref);
    hide Apply, Enabled, Inv;
    TaggedSplits(s.trail, Held(p.ring), keys - Held(p.ring), p.id);
    TaggedSplits(s.trail, keys - Held(p.ring), keys, p.id);
    assert (keys - Held(p.ring)) + keys == keys;
    if TaggedUnder(s.trail, keys, p.id) {
      var i :| 0 <= i < |s.trail| && s.trail[i].tag.Some? && s.trail[i].tag.value.key in keys
          && s.trail[i].tag.value.id == p.id;
      assert s.trail[i].tag.value.key in keys - Held(p.ring);
    }
    assert t.mappings[ref].id == p.id;
  }

  /** The two steps together: the identifier was not recognised, and is linked. */
  lemma CheckThenLink(s: State, run: Run, ref: Ref)
    requires Inv(s)
    requires Enabled(s, CheckSuppressed(run)) && Enabled(Apply(s, CheckSuppressed(run)), Insert(run, ref))
    ensures var p := PhaseOf(s, run); var t := Apply(Apply(s, CheckSuppressed(run)), Insert(run, ref));
      && p.RegReread? && !TaggedUnder(s.trail, Held(p.ring), p.id)
      && t.mappings == s.mappings[ref := Mapping(p.id, p.epoch)]
      && t.trail == s.trail && t.phases == s.phases[run := Finished(Some(ref))] && ref !in s.mappings
  {
    hide Inv, Enabled, Apply, Suppressed, TaggedUnder, Held;
    var p := PhaseOf(s, run);
    var mid := Apply(s, CheckSuppressed(run));
    LetThrough(s, run, ref);
    MoveKeepsInv(s, CheckSuppressed(run));
    InsertKeepsInv(mid, run, ref);
    SuppressedIsTagged(s.trail, p.ring, p.id);
  }

  lemma LetThrough(s: State, run: Run, ref: Ref)
    requires Enabled(s, CheckSuppressed(run)) && Enabled(Apply(s, CheckSuppressed(run)), Insert(run, ref))
    ensures var p := PhaseOf(s, run);
      && p.RegReread? && !Suppressed(s.trail, p.ring, p.id)
      && Apply(s, CheckSuppressed(run)) == With(s, run, RegAllowed(p.id, p.epoch, p.ring))
  {
    hide Suppressed, Unheard;
  }

  lemma {:induction false} RunExtends(s: State, actions: seq<Action>, a: Action)
    requires ValidRun(s, actions) && Enabled(Exec(s, actions), a)
    ensures ValidRun(s, actions + [a]) && Exec(s, actions + [a]) == Apply(Exec(s, actions), a)
    decreases |actions|
  {
    if actions == [] {
      assert [a][1..] == [];
      assert actions + [a] == [a];
    } else {
      RunExtends(Apply(s, actions[0]), actions[1..], a);
      assert (actions + [a])[1..] == actions[1..] + [a];
    }
  }

  /** A run that suppresses an identifier nobody ever linked. */
  lemma PreemptiveErasure(lockKey: NaturalId -> int, id: NaturalId, ring: Ring, why: Why) returns (actions: seq<Action>)
    requires ring != []
    ensures ValidRun(Initial(lockKey), actions)
    ensures Exec(Initial(lockKey), actions) ==
      State(lockKey, map[], [AuditRow(None, why, Some(Mac(ring[0], id)), Some(ring[0]), None)], map[],
            map[0 := Finished(None)])
  {
    var s := Initial(lockKey);
    actions := PreemptiveLock(lockKey, id, ring, why);
    hide ValidRun, Exec;
    assert Elements([]) == {} && MappedRefs(map[], id) == {};
    actions := Do(s, actions, Select(0, []));
    assert Exec(s, actions).phases == map[0 := EraseSelecting(Natural(id), Some(id), [], [], ring, why)];
    actions := Do(s, actions, Decide(0));
    assert Exec(s, actions).phases == map[0 := EraseDecided(Natural(id), Some(id), [], false, ring, why)];
    actions := Do(s, actions, CommitErase(0));
  }

  lemma PreemptiveLock(lockKey: NaturalId -> int, id: NaturalId, ring: Ring, why: Why) returns (actions: seq<Action>)
    ensures ValidRun(Initial(lockKey), actions)
    ensures Exec(Initial(lockKey), actions) ==
      State(lockKey, map[], [], map[], map[0 := EraseLocked(Natural(id), Some(id), ring, why)])
  {
    var s := Initial(lockKey);
    actions := Do(s, [], BeginErase(0, Natural(id), ring, why));
    actions := Do(s, actions, Resolve(0));
    assert Exec(s, actions).phases == map[0 := EraseResolved(Natural(id), Some(id), ring, why)];
    actions := Do(s, actions, EraseLock(0));
  }

  lemma Do(s: State, actions: seq<Action>, a: Action) returns (extended: seq<Action>)
    requires ValidRun(s, actions) && Enabled(Exec(s, actions), a)
    ensures extended == actions + [a] && ValidRun(s, extended) && Exec(s, extended) == Apply(Exec(s, actions), a)
  {
    RunExtends(s, actions, a);
    extended := actions + [a];
  }

  /** A registration that finds nothing, under the lock as before it. */
  lemma ReadsTwice(s: State, actions: seq<Action>, run: Run, id: NaturalId, epoch: int, ring: Ring)
    returns (extended: seq<Action>)
    requires ValidRun(s, actions)
    requires var t := Exec(s, actions);
      PhaseOf(t, run).Idle? && LockFree(t, run, id) && !HasMapping(t.mappings, id, epoch)
    ensures ValidRun(s, extended)
    ensures Exec(s, extended) == With(Exec(s, actions), run, RegReread(id, epoch, ring))
  {
    hide ValidRun, Exec;
    var t := Exec(s, actions);
    extended := Do(s, actions, BeginRegister(run, id, epoch, ring));
    assert Exec(s, extended) == With(t, run, Registering(id, epoch, ring));
    extended := Do(s, extended, FastRead(run));
    assert Exec(s, extended) == With(t, run, RegMissed(id, epoch, ring));
    extended := Do(s, extended, RegisterLock(run));
    assert Exec(s, extended) == With(t, run, RegLocked(id, epoch, ring));
    extended := Do(s, extended, Reread(run));
  }

  /**
   Why a rotation has to reach every registry before any of them erases: an instance that
   still holds only the old key links an identifier the others recognise as erased.
   */
  lemma RollingRotationRelinks(lockKey: NaturalId -> int, id: NaturalId, epoch: int, why: Why, oldKey: Key, newKey: Key)
    requires oldKey != newKey
    ensures exists actions ::
      && ValidRun(Initial(lockKey), actions)
      && Suppressed(Exec(Initial(lockKey), actions).trail, [newKey, oldKey], id)
      && HasMapping(Exec(Initial(lockKey), actions).mappings, id, epoch)
  {
    var s := Initial(lockKey);
    var actions := PreemptiveErasure(lockKey, id, [newKey, oldKey], why);
    var ref := Ref(epoch, 0);
    actions := ReadsTwice(s, actions, 1, id, epoch, [oldKey]);
    assert Tombstones([oldKey], id) == [Mac(oldKey, id)];
    actions := Do(s, actions, CheckSuppressed(1));
    actions := Do(s, actions, Insert(1, ref));
    var t := Exec(s, actions);
    assert t.mappings[ref] == Mapping(id, epoch);
    assert Tombstones([newKey, oldKey], id)[0] == t.trail[0].tag.value;
  }

  // ---------------------------------------------------------------- what an erasure leaves on the list

  /** A reference that was audited without a tombstone: expired, lifted since, or erased with no key. */
  predicate Untagged(trail: Trail, ref: Ref) {
    exists i :: 0 <= i < |trail| && trail[i].subject == Some(ref) && trail[i].tag.None?
  }

  lemma FoundLinkagesSuppress(s: State, run: Run)
    requires Inv(s) && Enabled(s, CommitErase(run))
    requires var p := PhaseOf(s, run); p.natural.Some? && p.ring != [] && p.targets != []
    ensures var p := PhaseOf(s, run); Suppressed(Apply(s, CommitErase(run)).trail, p.ring, p.natural.value)
  {
    var p := PhaseOf(s, run);
    assert run in s.phases && PhaseInv(p, s.mappings, s.issued);
    assert p.targets[0] in Elements(p.targets);
    assert !Audited(s.trail, p.targets[0]);
    hide Inv, Enabled, UpsertAll;
    UpsertAllTags(s.trail, p.targets, Tombstone(p.ring, p.natural.value), p.why);
    assert Tombstones(p.ring, p.natural.value)[0] == Mac(p.ring[0], p.natural.value);
  }

  /** One reference audited again: on the list if it was, or if its row had no tombstone to keep. */
  lemma ReferenceSuppressesIff(trail: Trail, ref: Ref, id: NaturalId, ring: Ring, why: Why)
    requires ring != [] && SubjectsOnce(trail) && Audited(trail, ref)
    ensures Suppressed(Upsert(trail, ref, Tombstone(ring, id), why), ring, id)
      <==> Suppressed(trail, ring, id) || Untagged(trail, ref)
  {
    var tag := Tombstone(ring, id);
    var now := Upsert(trail, ref, tag, why);
    UpsertKeeps(trail, ref, tag, why);
    assert Tombstones(ring, id)[0] == tag.value;
    hide Upsert, Tombstones;
    if Suppressed(trail, ring, id) {
      var i :| 0 <= i < |trail| && trail[i].tag.Some? && trail[i].tag.value in Tombstones(ring, id);
      assert now[i].tag == trail[i].tag;
    }
    if Untagged(trail, ref) {
      var i :| 0 <= i < |trail| && trail[i].subject == Some(ref) && trail[i].tag.None?;
      UpsertFills(trail, ref, tag, why, i);
      assert now[i].tag == tag;
    }
    if Suppressed(now, ring, id) {
      var i :| 0 <= i < |now| && now[i].tag.Some? && now[i].tag.value in Tombstones(ring, id);
      assert trail[i].tag == now[i].tag || (trail[i].tag.None? && trail[i].subject == Some(ref));
    }
  }

  /** A reference that was linked when the request was resolved, and is not any more, is audited. */
  lemma VanishedIsAudited(s: State, run: Run)
    requires Inv(s) && Enabled(s, CommitErase(run))
    requires var p := PhaseOf(s, run); p.natural.Some? && p.targets == [] && p.subject.Reference?
    ensures var p := PhaseOf(s, run); Audited(s.trail, p.subject.ref)
  {
    var p := PhaseOf(s, run);
    assert run in s.phases && PhaseInv(p, s.mappings, s.issued);
    MappedAreTargeted(p.natural.value, p.targets, s.mappings);
  }

  /**
   When the identifier is on the list after an erasure that knew it, for every way the
   request went: something was linked; or it asked by identifier and found it on no list;
   or it is on the list already; or it asked by a reference that was swept, lifted or
   erased without a key in the meantime, whose row takes the tombstone.
   */
  lemma ErasureSuppressesIff(s: State, run: Run)
    requires Inv(s) && Enabled(s, CommitErase(run))
    requires PhaseOf(s, run).natural.Some? && PhaseOf(s, run).ring != []
    ensures var p := PhaseOf(s, run);
      Suppressed(Apply(s, CommitErase(run)).trail, p.ring, p.natural.value)
      <==> p.targets != []
           || (p.subject.Natural? && !p.already)
           || Suppressed(s.trail, p.ring, p.natural.value)
           || (p.subject.Reference? && Untagged(s.trail, p.subject.ref))
  {
    var p := PhaseOf(s, run);
    var id := p.natural.value;
    var now := TrailAfterErasure(s.trail, p.subject, p.natural, p.targets, p.already, p.ring, p.why);
    assert Apply(s, CommitErase(run)).trail == now;
    if p.targets != [] {
      FoundLinkagesSuppress(s, run);
    } else if p.subject.Reference? {
      VanishedIsAudited(s, run);
      ReferenceSuppressesIff(s.trail, p.subject.ref, id, p.ring, p.why);
      UpsertAllOfOne(s.trail, p.subject.ref, Tombstone(p.ring, id), p.why);
    } else if !p.already {
      assert Tombstones(p.ring, id)[0] == Mac(p.ring[0], id);
      assert now[|s.trail|].tag == Some(Mac(p.ring[0], id));
    } else {
      assert now == s.trail;
    }
  }

  lemma UpsertAllOfOne(trail: Trail, ref: Ref, tag: Option<Tag>, why: Why)
    ensures UpsertAll(trail, [ref], tag, why) == Upsert(trail, ref, tag, why)
  {
    assert [ref][1..] == [];
  }

  /** Asking again to suppress somebody never linked does not grow the trail, even after keys were added in front. */
  lemma RepeatedRequestAddsNothing(trail: Trail, id: NaturalId, ring: Ring, why: Why, later: Ring, again: Why)
    requires ring != [] && Held(ring) <= Held(later)
    ensures var once := TrailAfterErasure(trail, Natural(id), Some(id), [], Suppressed(trail, ring, id), ring, why);
      && |once| <= |trail| + 1
      && Suppressed(once, later, id)
      && TrailAfterErasure(once, Natural(id), Some(id), [], Suppressed(once, later, id), later, again) == once
  {
    var once := TrailAfterErasure(trail, Natural(id), Some(id), [], Suppressed(trail, ring, id), ring, why);
    if !Suppressed(trail, ring, id) {
      assert once[|trail|].tag == Some(Tombstones(ring, id)[0]);
    }
    SuppressedIsTagged(once, ring, id);
    TaggedSplits(once, Held(ring), Held(later), id);
    assert Held(ring) + Held(later) == Held(later);
    SuppressedIsTagged(once, later, id);
  }

  // ---------------------------------------------------------------- the audit trail over a run

  lemma StepKeepsTrail(s: State, a: Action)
    requires Inv(s) && Enabled(s, a)
    ensures TrailKept(s.trail, Apply(s, a).trail)
    ensures s.issued.Keys <= Apply(s, a).issued.Keys
  {
    match a
    case CommitErase(run) =>
      var p := PhaseOf(s, run);
      assert run in s.phases && PhaseInv(p, s.mappings, s.issued);
      assert forall ref :: ref in p.targets ==> ref in Elements(p.targets);
      ErasureKeepsTrail(s.trail, p.subject, p.natural, p.targets, p.already, p.ring, p.why, s.issued);
    case CommitSweep(run) => ExpiriesKeep(s.trail, PhaseOf(s, run).rows, PhaseOf(s, run).why, s.issued);
    case Lift(id, ring, lifting) => LiftKeeps(s.trail, ring, id, lifting, s.issued);
    case _ =>
  }

  /**
   Conservation: at the end of any run every reference ever issued is live or audited,
   never both; and every audit row of the start is still there with its subject, its
   reasons and its instant, its tombstone gone only where a lift is recorded.
   */
  lemma {:induction false} EveryReferenceIsAccountedFor(s: State, actions: seq<Action>)
    requires Inv(s) && ValidRun(s, actions)
    ensures var t := Exec(s, actions);
      && (forall ref :: ref in s.issued ==> ref in t.issued)
      && (forall ref :: ref in t.issued ==> (ref in t.mappings <==> !Audited(t.trail, ref)))
      && TrailKept(s.trail, t.trail) && TombstonesWhole(t.trail)
    decreases |actions|
  {
    if actions != [] {
      var next := Apply(s, actions[0]);
      StepKeepsInv(s, actions[0]);
      StepKeepsTrail(s, actions[0]);
      EveryReferenceIsAccountedFor(next, actions[1..]);
      TrailKeptComposes(s.trail, next.trail, Exec(next, actions[1..]).trail);
    }
  }

  // ---------------------------------------------------------------- the report on a lost key

  /** The ring recognises every tombstone that is still in force. */
  predicate AllRecognised(trail: Trail, ring: Ring) {
    forall i :: 0 <= i < |trail| && trail[i].tag.Some? ==> trail[i].tag.value in Tombstones(ring, trail[i].tag.value.id)
  }

  lemma RecognisedIffKeyHeld(tag: Tag, ring: Ring)
    ensures tag in Tombstones(ring, tag.id) <==> tag.key in ring
  {
    if tag.key in ring {
      var k :| 0 <= k < |ring| && ring[k] == tag.key;
      assert Tombstones(ring, tag.id)[k] == tag;
    }
  }

  /** The report is empty exactly when the ring still recognises every live tombstone. */
  lemma OrphansEmptyIffAllRecognised(trail: Trail, ring: Ring)
    requires TombstonesWhole(trail)
    ensures OrphanedSuppressions(trail, ring) == map[] <==> AllRecognised(trail, ring)
  {
    hide Tombstones;
    var report := OrphanedSuppressions(trail, ring);
    if report == map[] {
      forall i | 0 <= i < |trail| && trail[i].tag.Some?
        ensures trail[i].tag.value in Tombstones(ring, trail[i].tag.value.id)
      {
        assert trail[i] in trail && trail[i].keyName == Some(trail[i].tag.value.key);
        assert trail[i].tag.value.key !in report;
        RecognisedIffKeyHeld(trail[i].tag.value, ring);
      }
    } else {
      var key :| key in report;
      var i :| 0 <= i < |trail| && trail[i].keyName == Some(key);
      RecognisedIffKeyHeld(trail[i].tag.value, ring);
    }
  }

  /** Live tombstones of one key. */
  function TombstonesUnder(trail: Trail, key: Key): set<nat> {
    set i | 0 <= i < |trail| && trail[i].tag.Some? && trail[i].tag.value.key == key
  }

  /** Live tombstones of any of these keys. */
  function TombstonesUnderAny(trail: Trail, keys: set<Key>): set<nat> {
    set i | 0 <= i < |trail| && trail[i].tag.Some? && trail[i].tag.value.key in keys
  }

  /** Live tombstones that no key of the ring recognises. */
  function Unrecognised(trail: Trail, ring: Ring): set<nat> {
    set i | 0 <= i < |trail| && trail[i].tag.Some? && trail[i].tag.value !in Tombstones(ring, trail[i].tag.value.id)
  }

  ghost function AnyOf(keys: set<Key>): (key: Key)
    requires keys != {}
    ensures key in keys
  {
    var key :| key in keys; key
  }

  ghost function Total(report: map<Key, nat>): nat
    decreases report.Keys
  {
    if report.Keys == {} then 0
    else var key := AnyOf(report.Keys); report[key] + Total(report - {key})
  }

  lemma {:induction false} TotalCounts(trail: Trail, report: map<Key, nat>)
    requires forall key :: key in report ==> report[key] == |TombstonesUnder(trail, key)|
    ensures Total(report) == |TombstonesUnderAny(trail, report.Keys)|
    decreases report.Keys
  {
    if report.Keys == {} {
      assert TombstonesUnderAny(trail, {}) == {};
    } else {
      var key := AnyOf(report.Keys);
      var rest := report - {key};
      TotalCounts(trail, rest);
      assert TombstonesUnderAny(trail, report.Keys)
             == TombstonesUnder(trail, key) + TombstonesUnderAny(trail, rest.Keys);
    }
  }

  /**
   The report counts: each key it names is one that the ring lacks, with the number of live
   tombstones that key wrote, and the counts add up to the tombstones nobody recognises.
   */
  lemma OrphansAreCounted(trail: Trail, ring: Ring)
    requires TombstonesWhole(trail)
    ensures var report := OrphanedSuppressions(trail, ring);
      && (forall key :: key in report <==> key !in ring && TombstonesUnder(trail, key) != {})
      && (forall key :: key in report ==> report[key] == |TombstonesUnder(trail, key)|)
      && Total(report) == |Unrecognised(trail, ring)|
  {
    hide Tombstones;
    var report := OrphanedSuppressions(trail, ring);
    forall key ensures RowsNaming(trail, key) == TombstonesUnder(trail, key) {
    }
    forall key ensures key in report <==> key !in ring && TombstonesUnder(trail, key) != {} {
      ReportedIff(trail, ring, key);
    }
    TotalCounts(trail, report);
    forall i | 0 <= i < |trail| && trail[i].tag.Some?
      ensures trail[i].tag.value.key in report.Keys <==> trail[i].tag.value !in Tombstones(ring, trail[i].tag.value.id)
    {
      RecognisedIffKeyHeld(trail[i].tag.value, ring);
      assert i in TombstonesUnder(trail, trail[i].tag.value.key);
    }
    assert TombstonesUnderAny(trail, report.Keys) == Unrecognised(trail, ring);
  }

  lemma ReportedIff(trail: Trail, ring: Ring, key: Key)
    requires TombstonesWhole(trail)
    ensures key in OrphanedSuppressions(trail, ring) <==> key !in ring && TombstonesUnder(trail, key) != {}
  {
    if key !in ring && TombstonesUnder(trail, key) != {} {
      var i :| i in TombstonesUnder(trail, key);
      assert trail[i] in trail && trail[i].keyName == Some(key);
    }
    if key in OrphanedSuppressions(trail, ring) {
      var i :| 0 <= i < |trail| && trail[i].keyName == Some(key);
      assert i in TombstonesUnder(trail, key);
    }
  }

  /** A registry whose report is empty checks fully, whatever keys one asks about. */
  lemma EmptyReportChecksFully(s: State, run: Run, keys: set<Key>)
    requires Inv(s) && Enabled(s, CheckSuppressed(run))
    requires OrphanedSuppressions(s.trail, PhaseOf(s, run).ring) == map[]
    ensures ChecksFully(s, CheckSuppressed(run), keys)
  {
    var p := PhaseOf(s, run);
    OrphansEmptyIffAllRecognised(s.trail, p.ring);
    hide Inv, OrphanedSuppressions, Tombstones;
    forall i | 0 <= i < |s.trail| && s.trail[i].tag.Some? ensures s.trail[i].tag.value.key in Held(p.ring) {
      RecognisedIffKeyHeld(s.trail[i].tag.value, p.ring);
    }
  }
}
