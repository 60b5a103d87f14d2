/**
 What every interleaving of registrations, erasures, sweeps and lifts keeps.

 The centre is the promise that an erased identifier stays erased: no identifier a
 registry recognises as suppressed is ever linked again, whichever statements of
 whichever transactions happen in between.
 */
module RegistrySafety {
  import opened Results
  import opened Registry

  // ---------------------------------------------------------------- the invariant

  predicate MappingsInv(mappings: Mappings, issued: map<Ref, NaturalId>) {
    && (forall ref :: ref in mappings ==>
                        && ref.epoch == mappings[ref].epoch
                        && ref in issued && issued[ref] == mappings[ref].id)
    && UniquePairs(mappings)
  }

  predicate SubjectsOnce(trail: Trail) {
    forall i, j :: 0 <= i < j < |trail| && trail[i].subject.Some? ==> trail[i].subject != trail[j].subject
  }

  /** A tag and its key's name arrive and leave together. */
  predicate TombstonesWhole(trail: Trail) {
    forall i :: 0 <= i < |trail| ==> trail[i].keyName == KeyNameOf(trail[i].tag)
  }

  predicate TagsNameTheOwner(trail: Trail, issued: map<Ref, NaturalId>) {
    forall i :: 0 <= i < |trail| && trail[i].tag.Some? && trail[i].subject.Some? ==>
                  && trail[i].subject.value in issued
                  && trail[i].tag.value.id == issued[trail[i].subject.value]
  }

  predicate TrailInv(trail: Trail, issued: map<Ref, NaturalId>) {
    SubjectsOnce(trail) && TombstonesWhole(trail) && TagsNameTheOwner(trail, issued)
  }

  /** Every reference ever issued is live or audited, and never both. */
  predicate Conserved(mappings: Mappings, trail: Trail, issued: map<Ref, NaturalId>) {
    forall ref :: ref in issued ==> (ref in mappings <==> !Audited(trail, ref))
  }

  predicate NamesItsSubject(subject: Subject, natural: Option<NaturalId>, issued: map<Ref, NaturalId>) {
    match subject
    case Natural(id) => natural == Some(id)
    case Reference(ref) => natural.Some? ==> ref in issued && issued[ref] == natural.value
  }

  predicate HoldsEveryEpoch(natural: Option<NaturalId>, targets: seq<Ref>, mappings: Mappings) {
    Elements(targets) == Linked(mappings, natural)
  }

  /** A request by a reference that was linked to nobody when it looked: it still is not. */
  predicate UnknownIsUnlinked(subject: Subject, natural: Option<NaturalId>, mappings: Mappings) {
    subject.Reference? && natural.None? ==> subject.ref !in mappings
  }

  predicate KnowsItsSubject(subject: Subject, natural: Option<NaturalId>, mappings: Mappings,
                            issued: map<Ref, NaturalId>)
  {
    NamesItsSubject(subject, natural, issued) && UnknownIsUnlinked(subject, natural, mappings)
  }

  /** Some way through its epochs, oldest first: what is linked and not locked yet is still to come. */
  predicate OnItsWay(natural: Option<NaturalId>, targets: seq<Ref>, pending: seq<Ref>,
                     mappings: Mappings, issued: map<Ref, NaturalId>)
  {
    && Elements(targets) <= Linked(mappings, natural) <= Elements(targets) + Elements(pending)
    && (forall ref :: ref in pending ==> natural.Some? && ref in issued && issued[ref] == natural.value)
    && InEpochOrder(targets + pending)
  }

  predicate PhaseInv(p: Phase, mappings: Mappings, issued: map<Ref, NaturalId>) {
    match p
    case RegReread(id, epoch, _) => !HasMapping(mappings, id, epoch)
    case RegAllowed(id, epoch, _) => !HasMapping(mappings, id, epoch)
    case EraseResolved(subject, natural, _, _) => KnowsItsSubject(subject, natural, mappings, issued)
    case EraseLocked(subject, natural, _, _) => KnowsItsSubject(subject, natural, mappings, issued)
    case EraseSelecting(subject, natural, targets, pending, _, _) =>
      KnowsItsSubject(subject, natural, mappings, issued) && OnItsWay(natural, targets, pending, mappings, issued)
    case EraseDecided(subject, natural, targets, _, _, _) =>
      KnowsItsSubject(subject, natural, mappings, issued) && HoldsEveryEpoch(natural, targets, mappings)
    case Sweeping(rows, pending, _) => Elements(rows) <= mappings.Keys && Elements(pending) <= issued.Keys
    case _ => true
  }

  predicate PhasesInv(phases: map<Run, Phase>, mappings: Mappings, issued: map<Ref, NaturalId>) {
    forall run :: run in phases ==> PhaseInv(phases[run], mappings, issued)
  }

  /** Locks exclude: two transactions hold neither one advisory key nor one row. */
  predicate HeldApart(phases: map<Run, Phase>, lockKey: NaturalId -> int) {
    forall a, b :: a in phases && b in phases && a != b ==>
                     && phases[a].Rows() !! phases[b].Rows()
                     && (phases[a].Locks().Some? && phases[b].Locks().Some? ==>
                           lockKey(phases[a].Locks().value) != lockKey(phases[b].Locks().value))
  }

  predicate Inv(s: State) {
    && MappingsInv(s.mappings, s.issued)
    && TrailInv(s.trail, s.issued)
    && Conserved(s.mappings, s.trail, s.issued)
    && PhasesInv(s.phases, s.mappings, s.issued)
    && HeldApart(s.phases, s.lockKey)
  }

  // ---------------------------------------------------------------- the trail's statements

  /** What one upsert leaves, whether it inserts or fills in. */
  lemma {:induction false} UpsertKeeps(trail: Trail, ref: Ref, tag: Option<Tag>, why: Why)
    ensures var now := Upsert(trail, ref, tag, why);
      && TrailKept(trail, now)
      && |now| == (if Audited(trail, ref) then |trail| else |trail| + 1)
      && (forall i :: |trail| <= i < |now| ==> now[i] == AuditRow(Some(ref), why, tag, KeyNameOf(tag), None))
      && (forall i :: 0 <= i < |trail| ==>
            now[i].tag == trail[i].tag || (trail[i].tag.None? && trail[i].subject == Some(ref) && now[i].tag == tag))
      && (forall i :: 0 <= i < |trail| ==>
            now[i] == AuditRow(trail[i].subject, trail[i].why, now[i].tag, now[i].keyName, trail[i].lifted))
      && (TombstonesWhole(trail) ==> TombstonesWhole(now))
  {
    if trail == [] {
    } else if trail[0].subject == Some(ref) {
      var now := Upsert(trail, ref, tag, why);
      assert forall i :: 0 < i < |trail| ==> now[i] == trail[1..][i - 1];
      assert Audited(trail, ref);
    } else {
      var rest := trail[1..];
      UpsertKeeps(rest, ref, tag, why);
      var now := Upsert(trail, ref, tag, why);
      var after := Upsert(rest, ref, tag, why);
      assert forall i :: 0 < i < |now| ==> now[i] == after[i - 1];
      assert forall i :: 0 < i < |trail| ==> trail[i] == rest[i - 1];
      assert Audited(rest, ref) <==> Audited(trail, ref) by {
        if Audited(trail, ref) {
          var i :| 0 <= i < |trail| && trail[i].subject == Some(ref);
          assert rest[i - 1].subject == Some(ref);
        }
      }
      if TombstonesWhole(trail) {
        assert forall i :: 0 <= i < |rest| ==> rest[i] == trail[i + 1];
        assert TombstonesWhole(rest);
      }
    }
  }

  lemma AuditedAfterUpsert(trail: Trail, ref: Ref, tag: Option<Tag>, why: Why, other: Ref)
    ensures Audited(Upsert(trail, ref, tag, why), other) <==> Audited(trail, other) || other == ref
  {
    UpsertKeeps(trail, ref, tag, why);
    var now := Upsert(trail, ref, tag, why);
    if Audited(trail, other) {
      var i :| 0 <= i < |trail| && trail[i].subject == Some(other);
      assert now[i].subject == Some(other);
    }
    if other == ref && !Audited(trail, ref) {
      assert now[|trail|].subject == Some(ref);
    }
    if Audited(now, other) {
      var i :| 0 <= i < |now| && now[i].subject == Some(other);
      if i < |trail| { assert trail[i].subject == Some(other); }
    }
  }

  lemma UpsertKeepsTrailInv(trail: Trail, ref: Ref, tag: Option<Tag>, why: Why, issued: map<Ref, NaturalId>)
    requires TrailInv(trail, issued)
    requires tag.Some? ==> ref in issued && issued[ref] == tag.value.id
    ensures TrailInv(Upsert(trail, ref, tag, why), issued)
  {
    UpsertKeeps(trail, ref, tag, why);
    var now := Upsert(trail, ref, tag, why);
    assert forall i :: 0 <= i < |trail| ==> now[i].subject == trail[i].subject;
  }

  /** A tag under `x` on the later trail was there before, or is the one just written. */
  predicate OnlyNewTag(before: Trail, now: Trail, tag: Option<Tag>) {
    forall i :: 0 <= i < |now| && now[i].tag.Some? ==>
                  (i < |before| && before[i].tag == now[i].tag) || now[i].tag == tag
  }

  lemma {:induction false} UpsertAllAudits(trail: Trail, refs: seq<Ref>, tag: Option<Tag>, why: Why, other: Ref)
    ensures Audited(UpsertAll(trail, refs, tag, why), other) <==> Audited(trail, other) || other in refs
    decreases |refs|
  {
    if refs != [] {
      AuditedAfterUpsert(trail, refs[0], tag, why, other);
      UpsertAllAudits(Upsert(trail, refs[0], tag, why), refs[1..], tag, why, other);
      assert refs == [refs[0]] + refs[1..];
    }
  }

  lemma {:induction false} UpsertAllKeeps(
    trail: Trail, refs: seq<Ref>, tag: Option<Tag>, why: Why, issued: map<Ref, NaturalId>)
    requires TrailInv(trail, issued)
    requires tag.Some? ==> forall ref :: ref in refs ==> ref in issued && issued[ref] == tag.value.id
    ensures var now := UpsertAll(trail, refs, tag, why);
      && TrailInv(now, issued) && TrailKept(trail, now) && OnlyNewTag(trail, now, tag)
    decreases |refs|
  {
    if refs != [] {
      var next := Upsert(trail, refs[0], tag, why);
      UpsertKeeps(trail, refs[0], tag, why);
      UpsertKeepsTrailInv(trail, refs[0], tag, why, issued);
      UpsertAllKeeps(next, refs[1..], tag, why, issued);
      OnlyNewTagComposes(trail, next, UpsertAll(next, refs[1..], tag, why), tag);
    }
  }

  lemma OnlyNewTagComposes(a: Trail, b: Trail, c: Trail, tag: Option<Tag>)
    requires TrailKept(a, b) && OnlyNewTag(a, b, tag)
    requires TrailKept(b, c) && OnlyNewTag(b, c, tag)
    ensures OnlyNewTag(a, c, tag)
  {
    forall i | 0 <= i < |c| && c[i].tag.Some?
      ensures (i < |a| && a[i].tag == c[i].tag) || c[i].tag == tag
    {
      if i < |b| && b[i].tag == c[i].tag {
        assert (i < |a| && a[i].tag == b[i].tag) || b[i].tag == tag;
      }
    }
  }

  /** A lifted row, once lifted, stays marked so: what `TrailKept` needs to compose. */
  lemma TrailKeptComposes(a: Trail, b: Trail, c: Trail)
    requires TrailKept(a, b) && TrailKept(b, c)
    ensures TrailKept(a, c)
  {
  }

  lemma AppendKeeps(trail: Trail, row: AuditRow, issued: map<Ref, NaturalId>)
    requires TrailInv(trail, issued)
    requires row.keyName == KeyNameOf(row.tag)
    requires row.subject.Some? ==> row.tag.None? && !Audited(trail, row.subject.value)
    ensures TrailInv(trail + [row], issued) && TrailKept(trail, trail + [row])
    ensures OnlyNewTag(trail, trail + [row], row.tag)
    ensures forall other :: Audited(trail + [row], other) <==> Audited(trail, other) || row.subject == Some(other)
  {
    var now := trail + [row];
    assert forall i :: 0 <= i < |trail| ==> now[i] == trail[i];
    assert now[|trail|] == row;
    forall other ensures Audited(now, other) <==> Audited(trail, other) || row.subject == Some(other) {
      if Audited(trail, other) {
        var i :| 0 <= i < |trail| && trail[i].subject == Some(other);
        assert now[i].subject == Some(other);
      }
    }
  }

  lemma {:induction false} ExpiriesKeep(trail: Trail, refs: seq<Ref>, why: Why, issued: map<Ref, NaturalId>)
    requires TrailInv(trail, issued)
    ensures var now := AuditExpiries(trail, refs, why);
      && TrailInv(now, issued) && TrailKept(trail, now) && OnlyNewTag(trail, now, None)
      && forall other :: Audited(now, other) <==> Audited(trail, other) || other in refs
    decreases |refs|
  {
    if refs != [] {
      var next := AuditExpiry(trail, refs[0], why);
      if !Audited(trail, refs[0]) {
        AppendKeeps(trail, AuditRow(Some(refs[0]), why, None, None, None), issued);
      }
      ExpiriesKeep(next, refs[1..], why, issued);
      OnlyNewTagComposes(trail, next, AuditExpiries(next, refs[1..], why), None);
      assert refs == [refs[0]] + refs[1..];
    }
  }

  lemma LiftKeeps(trail: Trail, ring: Ring, id: NaturalId, lifting: Lifting, issued: map<Ref, NaturalId>)
    requires TrailInv(trail, issued)
    ensures var now := LiftAll(trail, ring, id, lifting);
      && TrailInv(now, issued) && TrailKept(trail, now) && OnlyNewTag(trail, now, None)
      && (forall other :: Audited(now, other) <==> Audited(trail, other))
      && !Suppressed(now, ring, id)
  {
    var now := LiftAll(trail, ring, id, lifting);
    assert forall i :: 0 <= i < |trail| ==> now[i] == LiftRow(trail[i], ring, id, lifting);
    forall other ensures Audited(now, other) <==> Audited(trail, other) {
      if Audited(trail, other) {
        var i :| 0 <= i < |trail| && trail[i].subject == Some(other);
        assert now[i].subject == Some(other);
      }
      if Audited(now, other) {
        var i :| 0 <= i < |now| && now[i].subject == Some(other);
        assert trail[i].subject == Some(other);
      }
    }
  }

  /** The trail after an erasure, for every shape of request. */
  lemma ErasureKeepsTrail(trail: Trail, subject: Subject, natural: Option<NaturalId>, targets: seq<Ref>,
                          already: bool, ring: Ring, why: Why, issued: map<Ref, NaturalId>)
    requires TrailInv(trail, issued)
    requires NamesItsSubject(subject, natural, issued)
    requires forall ref :: ref in targets ==> natural.Some? && ref in issued && issued[ref] == natural.value
    ensures var now := TrailAfterErasure(trail, subject, natural, targets, already, ring, why);
      && TrailInv(now, issued) && TrailKept(trail, now)
      && OnlyNewTag(trail, now, if natural.Some? then Tombstone(ring, natural.value) else None)
      && forall other :: Audited(now, other) <==> Audited(trail, other) || other in Audits(subject, targets)
  {
    var tag := if natural.Some? then Tombstone(ring, natural.value) else None;
    var refs := Audits(subject, targets);
    if refs == [] && tag.Some? && !already {
      AppendKeeps(trail, AuditRow(None, why, tag, KeyNameOf(tag), None), issued);
    } else {
      UpsertAllKeeps(trail, refs, tag, why, issued);
      forall other
        ensures Audited(UpsertAll(trail, refs, tag, why), other) <==> Audited(trail, other) || other in refs
      {
        UpsertAllAudits(trail, refs, tag, why, other);
      }
    }
  }

  /** The row of a reference takes the tombstone if it has none, and no other row does. */
  lemma {:induction false} UpsertFills(trail: Trail, ref: Ref, tag: Option<Tag>, why: Why, i: nat)
    requires i < |trail| && trail[i].subject == Some(ref) && forall k :: 0 <= k < i ==> trail[k].subject != Some(ref)
    ensures i < |Upsert(trail, ref, tag, why)| && Upsert(trail, ref, tag, why)[i].tag == Coalesce(trail[i].tag, tag)
    decreases i
  {
    if i > 0 {
      assert forall k :: 0 <= k < |trail[1..]| ==> trail[1..][k] == trail[k + 1];
      UpsertFills(trail[1..], ref, tag, why, i - 1);
    }
  }

  /** Rows that were there keep what they said; rows that are new say why. */
  lemma {:induction false} UpsertAllSaysWhy(trail: Trail, refs: seq<Ref>, tag: Option<Tag>, why: Why)
    ensures var now := UpsertAll(trail, refs, tag, why);
      && |trail| <= |now|
      && (forall i :: 0 <= i < |trail| ==> now[i].subject == trail[i].subject && now[i].why == trail[i].why)
      && (forall i :: |trail| <= i < |now| ==> now[i].why == why)
    decreases |refs|
  {
    hide Upsert;
    if refs != [] {
      UpsertKeeps(trail, refs[0], tag, why);
      UpsertAllSaysWhy(Upsert(trail, refs[0], tag, why), refs[1..], tag, why);
    }
  }

  /** A row an upsert adds says all there is to say. */
  predicate NewRowsTell(before: Trail, now: Trail, subjects: set<Option<Ref>>, tag: Option<Tag>, why: Why) {
    && |before| <= |now|
    && forall i :: |before| <= i < |now| ==>
         now[i].subject in subjects && now[i] == AuditRow(now[i].subject, why, tag, KeyNameOf(tag), None)
  }

  lemma {:induction false} UpsertAllAddsRows(trail: Trail, refs: seq<Ref>, tag: Option<Tag>, why: Why,
                                             subjects: set<Option<Ref>>)
    requires TombstonesWhole(trail) && forall ref :: ref in refs ==> Some(ref) in subjects
    ensures NewRowsTell(trail, UpsertAll(trail, refs, tag, why), subjects, tag, why)
    decreases |refs|
  {
    hide Upsert;
    if refs != [] {
      var next := Upsert(trail, refs[0], tag, why);
      UpsertKeeps(trail, refs[0], tag, why);
      UpsertAllKeepsNewRows(trail, next, refs[1..], tag, why, subjects);
    }
  }

  lemma {:induction false} UpsertAllKeepsNewRows(before: Trail, trail: Trail, refs: seq<Ref>, tag: Option<Tag>,
                                                 why: Why, subjects: set<Option<Ref>>)
    requires TombstonesWhole(trail) && NewRowsTell(before, trail, subjects, tag, why)
    requires forall ref :: ref in refs ==> Some(ref) in subjects
    ensures NewRowsTell(before, UpsertAll(trail, refs, tag, why), subjects, tag, why)
    decreases |refs|
  {
    hide Upsert;
    if refs != [] {
      var next := Upsert(trail, refs[0], tag, why);
      UpsertKeeps(trail, refs[0], tag, why);
      assert refs[0] in refs;
      UpsertAllKeepsNewRows(before, next, refs[1..], tag, why, subjects);
    }
  }

  /** A first audit row carries the tombstone, and later rows leave it there. */
  lemma UpsertAllTags(trail: Trail, refs: seq<Ref>, tag: Option<Tag>, why: Why)
    requires refs != [] && tag.Some? && !Audited(trail, refs[0])
    ensures exists i :: 0 <= i < |UpsertAll(trail, refs, tag, why)| && UpsertAll(trail, refs, tag, why)[i].tag == tag
  {
    var next := Upsert(trail, refs[0], tag, why);
    UpsertKeeps(trail, refs[0], tag, why);
    assert next[|trail|].tag == tag;
    UpsertAllLeavesTag(next, refs[1..], tag, why, |trail|);
    assert UpsertAll(trail, refs, tag, why)[|trail|].tag == tag;
  }

  lemma {:induction false} UpsertAllLeavesTag(trail: Trail, refs: seq<Ref>, tag: Option<Tag>, why: Why, i: nat)
    requires i < |trail| && trail[i].tag.Some?
    ensures i < |UpsertAll(trail, refs, tag, why)| && UpsertAll(trail, refs, tag, why)[i].tag == trail[i].tag
    decreases |refs|
  {
    if refs != [] {
      UpsertKeeps(trail, refs[0], tag, why);
      UpsertAllLeavesTag(Upsert(trail, refs[0], tag, why), refs[1..], tag, why, i);
    }
  }

  // ---------------------------------------------------------------- every step keeps the invariant

  lemma HeldApartWith(phases: map<Run, Phase>, lockKey: NaturalId -> int, run: Run, p: Phase)
    requires HeldApart(phases, lockKey)
    requires forall other :: other in phases && other != run ==> phases[other].Rows() !! p.Rows()
    requires p.Locks().Some? ==>
               forall other :: other in phases && other != run && phases[other].Locks().Some? ==>
                                 lockKey(phases[other].Locks().value) != lockKey(p.Locks().value)
    ensures HeldApart(phases[run := p], lockKey)
  {
  }

  lemma MoveKeepsPhaseInv(s: State, a: Action)
    requires Inv(s) && Enabled(s, a) && !Writes(a)
    ensures PhaseInv(NextPhase(s, a), s.mappings, s.issued)
  {
    var p := PhaseOf(s, a.run);
    assert PhaseInv(p, s.mappings, s.issued);
    match a
    case Select(_, refs) => SelectedIsOnItsWay(p, refs, s.mappings, s.issued);
    case LockRow(_) =>
      if p.EraseSelecting? {
        LockedIsOnItsWay(p.natural, p.targets, p.pending, s.mappings, s.issued);
      } else {
        SweptRowIsMapped(p, s.mappings, s.issued);
      }
    case SweepBatch(_, _, rows, _) => assert forall ref :: ref in Elements(rows) ==> ref in s.mappings;
    case _ =>
  }

  lemma SelectedIsOnItsWay(p: Phase, refs: seq<Ref>, mappings: Mappings, issued: map<Ref, NaturalId>)
    requires p.EraseLocked? && InEpochOrder(refs) && Elements(refs) == Linked(mappings, p.natural)
    requires MappingsInv(mappings, issued)
    ensures OnItsWay(p.natural, [], refs, mappings, issued)
  {
    assert [] + refs == refs;
    assert forall ref :: ref in refs ==> ref in Elements(refs);
  }

  /** The next row is locked, or passed over because it went. */
  lemma LockedIsOnItsWay(natural: Option<NaturalId>, targets: seq<Ref>, pending: seq<Ref>,
                         mappings: Mappings, issued: map<Ref, NaturalId>)
    requires OnItsWay(natural, targets, pending, mappings, issued) && pending != [] && MappingsInv(mappings, issued)
    ensures var locked := if pending[0] in mappings then [pending[0]] else [];
      OnItsWay(natural, targets + locked, pending[1..], mappings, issued)
  {
    var next := pending[0];
    assert pending == [next] + pending[1..];
    if next in mappings {
      assert targets + [next] + pending[1..] == targets + pending;
      assert next in Linked(mappings, natural);
    } else {
      var all, rest := targets + pending, targets + [] + pending[1..];
      assert forall i :: 0 <= i < |rest| ==> rest[i] == all[if i < |targets| then i else i + 1];
      assert next !in Linked(mappings, natural);
      assert forall ref :: ref in pending ==> ref == next || ref in pending[1..];
    }
  }

  lemma SweptRowIsMapped(p: Phase, mappings: Mappings, issued: map<Ref, NaturalId>)
    requires p.Sweeping? && p.pending != [] && PhaseInv(p, mappings, issued)
    ensures var locked := if p.pending[0] in mappings then [p.pending[0]] else [];
      PhaseInv(Sweeping(p.rows + locked, p.pending[1..], p.why), mappings, issued)
  {
    assert forall ref :: ref in p.pending[1..] ==> ref in p.pending;
  }

  /** A step takes no lock it did not hold, unless the step waited until it was free. */
  lemma MoveTakesLocks(s: State, a: Action)
    requires Enabled(s, a) && !Writes(a)
    ensures var p := PhaseOf(s, a.run); var q := NextPhase(s, a);
      && (q.Locks().None? || q.Locks() == p.Locks() || LockFree(s, a.run, q.Locks().value))
      && RowsFree(s, a.run, q.Rows() - p.Rows())
      && |q.Rows() - p.Rows()| <= 1
  {
    hide Lookup, Suppressed, Resolved, LockFree, Linked, InEpochOrder;
    MoveTakesRow(s, a);
  }

  lemma MoveTakesRow(s: State, a: Action)
    requires Enabled(s, a) && !Writes(a)
    ensures var p := PhaseOf(s, a.run); var q := NextPhase(s, a);
      RowsFree(s, a.run, q.Rows() - p.Rows()) && |q.Rows() - p.Rows()| <= 1
  {
    hide Lookup, Suppressed, Resolved, LockFree, Linked, InEpochOrder;
    var p, q := PhaseOf(s, a.run), NextPhase(s, a);
    if a.LockRow? {
      var next := p.Waiting()[0];
      assert q.Rows() - p.Rows() <= if next in s.mappings then {next} else {};
      AtMostOne(q.Rows() - p.Rows(), next);
    } else {
      assert q.Rows() - p.Rows() == {};
    }
  }

  lemma AtMostOne(refs: set<Ref>, only: Ref)
    requires refs <= {only}
    ensures |refs| <= 1
  {
    if only in refs {
      assert refs == {only};
    } else {
      assert refs == {};
    }
  }

  lemma MoveKeepsInv(s: State, a: Action)
    requires Inv(s) && Enabled(s, a) && !Writes(a)
    ensures Inv(Apply(s, a))
  {
    var p := PhaseOf(s, a.run);
    hide NextPhase, Enabled, PhaseInv, MappingsInv, TrailInv, Conserved, HeldApart;
    var q := NextPhase(s, a);
    MoveKeepsPhaseInv(s, a);
    MoveTakesLocks(s, a);
    MoveStaysApart(s, a.run, p, q);
    HeldApartWith(s.phases, s.lockKey, a.run, q);
  }

  lemma MoveStaysApart(s: State, run: Run, p: Phase, q: Phase)
    requires HeldApart(s.phases, s.lockKey) && p == PhaseOf(s, run) && RowsFree(s, run, q.Rows() - p.Rows())
    requires q.Locks().None? || q.Locks() == p.Locks() || LockFree(s, run, q.Locks().value)
    ensures forall other :: other in s.phases && other != run ==> s.phases[other].Rows() !! q.Rows()
    ensures q.Locks().Some? ==>
              forall other :: other in s.phases && other != run && s.phases[other].Locks().Some? ==>
                                s.lockKey(s.phases[other].Locks().value) != s.lockKey(q.Locks().value)
  {
    assert q.Rows() <= p.Rows() + (q.Rows() - p.Rows());
  }

  lemma InsertKeepsInv(s: State, run: Run, ref: Ref)
    requires Inv(s) && Enabled(s, Insert(run, ref))
    ensures Inv(Apply(s, Insert(run, ref)))
    ensures var p := PhaseOf(s, run);
      && Lookup(s.mappings, p.id, p.epoch).None? && ref !in s.mappings && p.RegAllowed?
      && Apply(s, Insert(run, ref)) ==
           With(s.(mappings := s.mappings[ref := Mapping(p.id, p.epoch)], issued := s.issued[ref := p.id]),
                run, Finished(Some(ref)))
  {
    var p := PhaseOf(s, run);
    var t := Apply(s, Insert(run, ref));
    assert PhaseInv(p, s.mappings, s.issued);
    assert t.mappings == s.mappings[ref := Mapping(p.id, p.epoch)];
    assert ref !in s.mappings;
    hide MappingsInv, HeldApart, PhaseInv;
    InsertKeepsMappings(s.mappings, s.issued, ref, p.id);
    forall other | other in t.phases ensures PhaseInv(t.phases[other], t.mappings, t.issued) {
      if other != run { InsertLeavesPhase(s, run, ref, other); }
    }
    HeldApartWith(s.phases, s.lockKey, run, Finished(Some(ref)));
  }

  lemma InsertKeepsMappings(mappings: Mappings, issued: map<Ref, NaturalId>, ref: Ref, id: NaturalId)
    requires MappingsInv(mappings, issued) && ref !in issued && !HasMapping(mappings, id, ref.epoch)
    ensures MappingsInv(mappings[ref := Mapping(id, ref.epoch)], issued[ref := id])
  {
    var now := mappings[ref := Mapping(id, ref.epoch)];
    forall a, b | a in now && b in now && now[a] == now[b] ensures a == b {
      assert a != ref && b != ref ==> a in mappings && b in mappings;
    }
  }

  lemma InsertLeavesPhase(s: State, run: Run, ref: Ref, other: Run)
    requires Inv(s) && Enabled(s, Insert(run, ref)) && other in s.phases && other != run
    ensures var p := PhaseOf(s, run);
      PhaseInv(s.phases[other], s.mappings[ref := Mapping(p.id, p.epoch)], s.issued[ref := p.id])
  {
    var p := PhaseOf(s, run);
    var q := s.phases[other];
    var mappings := s.mappings[ref := Mapping(p.id, p.epoch)];
    assert run in s.phases && p.Locks() == Some(p.id);
    assert PhaseInv(q, s.mappings, s.issued);
    assert q.Locks().Some? ==> q.Locks().value != p.id;
    assert forall id :: id != p.id ==> MappedRefs(mappings, id) == MappedRefs(s.mappings, id);
    assert forall id, epoch :: id != p.id && HasMapping(mappings, id, epoch) ==> HasMapping(s.mappings, id, epoch);
  }

  /** Destroying linkages, whoever does it: rows go, and every one of them is audited. */
  lemma DestroyKeepsInv(s: State, run: Run, gone: set<Ref>, trail: Trail)
    requires Inv(s)
    requires TrailInv(trail, s.issued)
    requires forall ref :: Audited(trail, ref) <==> Audited(s.trail, ref) || ref in gone
    requires forall other :: other in s.phases && other != run ==> s.phases[other].Rows() !! gone
    ensures Inv(With(s.(mappings := s.mappings - gone, trail := trail), run, Finished(None)))
  {
    var mappings := s.mappings - gone;
    var t := With(s.(mappings := mappings, trail := trail), run, Finished(None));
    forall other | other in t.phases ensures PhaseInv(t.phases[other], mappings, s.issued) {
      if other != run {
        DestroyLeavesPhase(s.phases[other], s.mappings, gone, s.issued);
      }
    }
    HeldApartWith(s.phases, s.lockKey, run, Finished(None));
  }

  lemma DestroyLeavesPhase(p: Phase, mappings: Mappings, gone: set<Ref>, issued: map<Ref, NaturalId>)
    requires PhaseInv(p, mappings, issued) && p.Rows() !! gone
    ensures PhaseInv(p, mappings - gone, issued)
  {
    if (p.EraseSelecting? || p.EraseDecided?) && p.natural.Some? {
      assert MappedRefs(mappings - gone, p.natural.value) == MappedRefs(mappings, p.natural.value) - gone;
    }
  }

  lemma CommitEraseKeepsInv(s: State, run: Run)
    requires Inv(s) && Enabled(s, CommitErase(run))
    ensures Inv(Apply(s, CommitErase(run)))
  {
    var p := PhaseOf(s, run);
    assert PhaseInv(p, s.mappings, s.issued);
    assert forall ref :: ref in p.targets ==> ref in Elements(p.targets);
    ErasureKeepsTrail(s.trail, p.subject, p.natural, p.targets, p.already, p.ring, p.why, s.issued);
    DestroyKeepsInv(s, run, Elements(Audits(p.subject, p.targets)), Apply(s, CommitErase(run)).trail);
  }

  lemma CommitSweepKeepsInv(s: State, run: Run)
    requires Inv(s) && Enabled(s, CommitSweep(run))
    ensures Inv(Apply(s, CommitSweep(run)))
  {
    var p := PhaseOf(s, run);
    assert run in s.phases;
    ExpiriesKeep(s.trail, p.rows, p.why, s.issued);
    assert RowsFree(s, run, Elements(p.rows));
    hide Inv;
    DestroyKeepsInv(s, run, Elements(p.rows), AuditExpiries(s.trail, p.rows, p.why));
  }

  lemma LiftKeepsInv(s: State, id: NaturalId, ring: Ring, lifting: Lifting)
    requires Inv(s)
    ensures Inv(Apply(s, Lift(id, ring, lifting)))
  {
    LiftKeeps(s.trail, ring, id, lifting, s.issued);
  }

  lemma StepKeepsInv(s: State, a: Action)
    requires Inv(s) && Enabled(s, a)
    ensures Inv(Apply(s, a))
  {
    match a
    case Insert(run, ref) => InsertKeepsInv(s, run, ref);
    case CommitErase(run) => CommitEraseKeepsInv(s, run);
    case CommitSweep(run) => CommitSweepKeepsInv(s, run);
    case Lift(id, ring, lifting) => LiftKeepsInv(s, id, ring, lifting);
    case _ => MoveKeepsInv(s, a);
  }

  lemma {:induction false} RunKeepsInv(s: State, actions: seq<Action>)
    requires Inv(s) && ValidRun(s, actions)
    ensures Inv(Exec(s, actions))
    decreases |actions|
  {
    if actions != [] {
      StepKeepsInv(s, actions[0]);
      RunKeepsInv(Apply(s, actions[0]), actions[1..]);
    }
  }
}
