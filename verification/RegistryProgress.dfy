/**
 Who waits for whom in the registry, and when its transactions never block each other.

 Registrations and erasures take the advisory lock of the identifier before any row, and
 that order keeps them apart. A retention sweep takes rows and no advisory lock.
 */
module RegistryProgress {
  import opened Arithmetic
  import opened Results
  import opened Registry
  import opened RegistrySafety
  import opened RegistryTheorems

  // ---------------------------------------------------------------- going on

  predicate Unfinished(p: Phase) {
    !p.Idle? && !p.Finished?
  }

  predicate StepsOf(a: Action, run: Run) {
    !a.Lift? && !a.Abort? && a.run == run
  }

  /** A transaction that can go on, other than by giving up. */
  ghost predicate CanGoOn(s: State, run: Run) {
    && run in s.phases && Unfinished(s.phases[run])
    && exists a :: StepsOf(a, run) && Enabled(s, a)
  }

  /** Somebody is at work, and nobody can go on. */
  ghost predicate Stuck(s: State) {
    && (exists run :: run in s.phases && Unfinished(s.phases[run]))
    && forall run :: !CanGoOn(s, run)
  }

  lemma Goes(s: State, run: Run, a: Action)
    requires run in s.phases && Unfinished(s.phases[run]) && StepsOf(a, run) && Enabled(s, a)
    ensures CanGoOn(s, run)
  {
    hide Enabled;
  }

  lemma {:induction false} Oldest(refs: set<Ref>) returns (oldest: Ref)
    requires refs != {}
    ensures oldest in refs && forall ref :: ref in refs ==> oldest.epoch <= ref.epoch
    decreases refs
  {
    oldest :| oldest in refs;
    if refs != {oldest} {
      var other := Oldest(refs - {oldest});
      if other.epoch < oldest.epoch {
        oldest := other;
      }
    }
  }

  /** What is linked to one identifier can be listed by epoch. */
  lemma {:induction false} ListedByEpoch(refs: set<Ref>) returns (ordered: seq<Ref>)
    requires forall a, b :: a in refs && b in refs && a.epoch == b.epoch ==> a == b
    ensures InEpochOrder(ordered) && Elements(ordered) == refs
    decreases refs
  {
    ordered := [];
    if refs != {} {
      var oldest := Oldest(refs);
      var rest := ListedByEpoch(refs - {oldest});
      ordered := [oldest] + rest;
      assert forall k :: 0 <= k < |rest| ==> rest[k] in Elements(rest);
      assert Elements(ordered) == {oldest} + Elements(rest);
    } else {
      assert Elements([]) == {};
    }
  }

  lemma LinkedListedByEpoch(mappings: Mappings, issued: map<Ref, NaturalId>, natural: Option<NaturalId>)
    returns (ordered: seq<Ref>)
    requires MappingsInv(mappings, issued)
    ensures InEpochOrder(ordered) && Elements(ordered) == Linked(mappings, natural)
  {
    ordered := ListedByEpoch(Linked(mappings, natural));
  }

  /** There is always a token that nobody was given or asks by. */
  lemma UnheardReference(s: State, epoch: int) returns (ref: Ref)
    ensures ref.epoch == epoch && Unheard(s, ref)
  {
    var issued := set other | other in s.issued :: other.token;
    var audited := set row | row in s.trail && row.subject.Some? :: row.subject.value.token;
    var asked := set run | run in s.phases && AskedBy(s.phases[run]).Some? :: AskedBy(s.phases[run]).value.token;
    ref := Ref(epoch, Above(issued + audited + asked));
    forall i | 0 <= i < |s.trail| ensures s.trail[i].subject != Some(ref) {
      assert s.trail[i] in s.trail;
      assert s.trail[i].subject.Some? ==> s.trail[i].subject.value.token in audited;
    }
    assert ref in s.issued ==> ref.token in issued;
    forall run | run in s.phases ensures !s.phases[run].AsksBy(ref) {
      assert AskedBy(s.phases[run]).Some? ==> AskedBy(s.phases[run]).value.token in asked;
    }
  }

  function AskedBy(p: Phase): (ref: Option<Ref>)
    ensures forall other :: p.AsksBy(other) ==> ref == Some(other)
  {
    if (p.Erasing? || p.EraseResolved? || p.EraseLocked? || p.EraseSelecting? || p.EraseDecided?)
        && p.subject.Reference?
    then Some(p.subject.ref)
    else None
  }

  // ---------------------------------------------------------------- what waiting is for

  /** The next row is there, and somebody else holds it. */
  predicate WaitsFor(s: State, run: Run, ref: Ref) {
    && run in s.phases && s.phases[run].Waiting() != [] && s.phases[run].Waiting()[0] == ref
    && ref in s.mappings && !RowsFree(s, run, {ref})
  }

  predicate Holds(s: State, run: Run, ref: Ref) {
    run in s.phases && ref in s.phases[run].Rows()
  }

  lemma WaitingIsForAHolder(s: State, run: Run, ref: Ref) returns (other: Run)
    requires WaitsFor(s, run, ref)
    ensures other != run && Holds(s, other, ref)
  {
    other :| other in s.phases && other != run && !(s.phases[other].Rows() !! {ref});
  }

  /** Having reached every row, a statement is done; and an erasure that decided waits for nothing. */
  lemma PastItsRowsGoesOn(s: State, run: Run)
    requires Inv(s) && run in s.phases
    requires s.phases[run].EraseSelecting? || s.phases[run].EraseDecided? || s.phases[run].Sweeping?
    requires s.phases[run].Waiting() == []
    ensures CanGoOn(s, run)
  {
    var p := s.phases[run];
    if p.EraseSelecting? {
      Goes(s, run, Decide(run));
    } else if p.Sweeping? {
      Goes(s, run, CommitSweep(run));
    } else {
      DecidedHoldsItsRows(s, run);
      Goes(s, run, CommitErase(run));
    }
  }

  lemma DecidedHoldsItsRows(s: State, run: Run)
    requires Inv(s) && run in s.phases && s.phases[run].EraseDecided?
    ensures var p := s.phases[run]; RowsFree(s, run, Elements(Audits(p.subject, p.targets)))
  {
    var p := s.phases[run];
    assert PhaseInv(p, s.mappings, s.issued);
    if Audits(p.subject, p.targets) != p.targets {
      var ref := p.subject.ref;
      assert Elements([ref]) == {ref};
      UntargetedIsUnlinked(s, run);
      forall other | other in s.phases && other != run ensures s.phases[other].Rows() !! {ref} {
        HeldIsMapped(s, other);
      }
    }
  }

  /** An erasure by reference that found nothing to erase: the reference is linked to nobody. */
  lemma UntargetedIsUnlinked(s: State, run: Run)
    requires Inv(s) && run in s.phases && s.phases[run].EraseDecided?
    requires s.phases[run].targets == [] && s.phases[run].subject.Reference?
    ensures s.phases[run].subject.ref !in s.mappings && Linked(s.mappings, s.phases[run].natural) == {}
  {
    var p := s.phases[run];
    assert PhaseInv(p, s.mappings, s.issued);
    assert Elements([]) == {};
    if p.natural.Some? {
      MappedAreTargeted(p.natural.value, p.targets, s.mappings);
    }
  }

  lemma HeldIsMapped(s: State, run: Run)
    requires Inv(s) && run in s.phases
    ensures s.phases[run].Rows() <= s.mappings.Keys
  {
    assert PhaseInv(s.phases[run], s.mappings, s.issued);
  }

  lemma NextRowOrWaits(s: State, run: Run)
    requires run in s.phases && s.phases[run].Waiting() != []
    ensures CanGoOn(s, run) || WaitsFor(s, run, s.phases[run].Waiting()[0])
  {
    if !WaitsFor(s, run, s.phases[run].Waiting()[0]) {
      Goes(s, run, LockRow(run));
    }
  }

  /** Who is inside a statement that takes rows, or past one, can go on or waits for a row. */
  lemma AmongRows(s: State, run: Run)
    requires Inv(s) && run in s.phases
    requires s.phases[run].EraseSelecting? || s.phases[run].EraseDecided? || s.phases[run].Sweeping?
    ensures CanGoOn(s, run) || (s.phases[run].Waiting() != [] && WaitsFor(s, run, s.phases[run].Waiting()[0]))
  {
    hide Inv, CanGoOn, WaitsFor;
    if s.phases[run].Waiting() == [] {
      PastItsRowsGoesOn(s, run);
    } else {
      NextRowOrWaits(s, run);
    }
  }

  /** Who holds an advisory lock and is not among the rows waits for nothing. */
  lemma AheadOfRowsGoesOn(s: State, run: Run)
    requires Inv(s) && run in s.phases && s.phases[run].Locks().Some?
    requires !s.phases[run].EraseSelecting? && !s.phases[run].EraseDecided?
    ensures CanGoOn(s, run)
  {
    match s.phases[run]
    case RegLocked(_, _, _) => Goes(s, run, Reread(run));
    case RegReread(_, _, _) => Goes(s, run, CheckSuppressed(run));
    case RegAllowed(_, epoch, _) =>
      var ref := UnheardReference(s, epoch);
      Goes(s, run, Insert(run, ref));
    case EraseLocked(_, natural, _, _) =>
      var refs := LinkedListedByEpoch(s.mappings, s.issued, natural);
      Goes(s, run, Select(run, refs));
  }

  /** Where nobody holds an advisory lock, whoever has not reached the rows can go on. */
  lemma UnlockedGoesOn(s: State, run: Run)
    requires Inv(s) && forall other :: other in s.phases ==> s.phases[other].Locks().None?
    requires run in s.phases && Unfinished(s.phases[run]) && !s.phases[run].Sweeping?
    requires !s.phases[run].EraseSelecting? && !s.phases[run].EraseDecided?
    ensures CanGoOn(s, run)
  {
    match s.phases[run]
    case Registering(_, _, _) => Goes(s, run, FastRead(run));
    case RegMissed(_, _, _) => Goes(s, run, RegisterLock(run));
    case Erasing(_, _, _) => Goes(s, run, Resolve(run));
    case EraseResolved(_, _, _, _) => Goes(s, run, EraseLock(run));
    case EraseLocked(_, natural, _, _) =>
      var refs := LinkedListedByEpoch(s.mappings, s.issued, natural);
      Goes(s, run, Select(run, refs));
  }

  /** Where nobody can go on, somebody waits for a row. */
  lemma StuckWaitsForRow(s: State) returns (run: Run, ref: Ref)
    requires Inv(s) && Stuck(s)
    ensures WaitsFor(s, run, ref)
  {
    hide Inv, CanGoOn, WaitsFor;
    run :| run in s.phases && Unfinished(s.phases[run]);
    if other :| other in s.phases && s.phases[other].Locks().Some? {
      run := other;
      if !s.phases[run].EraseSelecting? && !s.phases[run].EraseDecided? {
        AheadOfRowsGoesOn(s, run);
      }
    } else if !s.phases[run].EraseSelecting? && !s.phases[run].EraseDecided? && !s.phases[run].Sweeping? {
      UnlockedGoesOn(s, run);
    }
    assert s.phases[run].EraseSelecting? || s.phases[run].EraseDecided? || s.phases[run].Sweeping?;
    AmongRows(s, run);
    ref := s.phases[run].Waiting()[0];
  }

  /** An erasure waits for a sweep only: two erasures of one identifier do not get past its advisory lock. */
  lemma ErasureWaitsForSweep(s: State, run: Run, ref: Ref, other: Run)
    requires Inv(s) && WaitsFor(s, run, ref) && s.phases[run].EraseSelecting?
    requires other != run && Holds(s, other, ref)
    ensures s.phases[other].Sweeping?
  {
    var p, q := s.phases[run], s.phases[other];
    assert PhaseInv(p, s.mappings, s.issued) && PhaseInv(q, s.mappings, s.issued);
    var owner := s.mappings[ref].id;
    assert p.Locks() == Some(owner);
    assert q.EraseSelecting? || q.EraseDecided? ==> Elements(q.targets) <= Linked(s.mappings, q.natural);
    assert q.EraseSelecting? || q.EraseDecided? ==> q.Locks() == Some(owner);
  }

  /** Whoever holds a row of a stuck registry waits for another. */
  lemma StuckHolderWaits(s: State, run: Run, ref: Ref)
    requires Inv(s) && Stuck(s) && Holds(s, run, ref)
    ensures s.phases[run].Waiting() != [] && WaitsFor(s, run, s.phases[run].Waiting()[0])
  {
    AmongRows(s, run);
  }

  // ---------------------------------------------------------------- one sweep at a time

  /** Two rows of one person that are still linked. */
  predicate OfOnePerson(mappings: Mappings, a: Ref, b: Ref) {
    a in mappings && b in mappings && mappings[a].id == mappings[b].id
  }

  /** A sweep that takes every person's oldest row first, whatever it does with the others. */
  predicate OldestFirst(rows: seq<Ref>, mappings: Mappings) {
    forall i, j :: 0 <= i < j < |rows| && OfOnePerson(mappings, rows[i], rows[j]) ==> OlderBefore(rows, j, mappings)
  }

  predicate OlderBefore(rows: seq<Ref>, j: nat, mappings: Mappings)
    requires j < |rows|
  {
    exists k :: 0 <= k < j && OfOnePerson(mappings, rows[k], rows[j]) && rows[k].epoch < rows[j].epoch
  }

  predicate NobodySweeps(s: State) {
    forall run :: run in s.phases ==> !s.phases[run].Sweeping?
  }

  /** One sweep at most, and it takes every person's oldest row first. */
  predicate SweepsWell(s: State) {
    && (forall a, b :: a in s.phases && b in s.phases && s.phases[a].Sweeping? && s.phases[b].Sweeping? ==> a == b)
    && (forall run :: run in s.phases ==> PlansWell(s.phases[run], s.mappings))
  }

  predicate PlansWell(p: Phase, mappings: Mappings) {
    p.Sweeping? ==> OldestFirst(p.rows + p.pending, mappings)
  }

  /** Of a person's rows all stay or all go, as an erasure leaves them. */
  predicate WholePersons(now: Mappings, before: Mappings) {
    && now.Keys <= before.Keys
    && (forall ref :: ref in now ==> now[ref] == before[ref])
    && (forall a, b :: a in before && b in before && before[a].id == before[b].id ==> (a in now <==> b in now))
  }

  lemma WholePersonsKeepPlans(rows: seq<Ref>, now: Mappings, before: Mappings)
    requires OldestFirst(rows, before) && WholePersons(now, before)
    ensures OldestFirst(rows, now)
  {
    forall i, j | 0 <= i < j < |rows| && OfOnePerson(now, rows[i], rows[j]) ensures OlderBefore(rows, j, now) {
      assert OfOnePerson(before, rows[i], rows[j]);
      var k :| 0 <= k < j && OfOnePerson(before, rows[k], rows[j]) && rows[k].epoch < rows[j].epoch;
      assert OfOnePerson(now, rows[k], rows[j]);
    }
  }

  /** A row that went may be passed over. */
  lemma PassingKeepsPlans(rows: seq<Ref>, gone: Ref, rest: seq<Ref>, mappings: Mappings)
    requires OldestFirst(rows + [gone] + rest, mappings) && gone !in mappings
    ensures OldestFirst(rows + rest, mappings)
  {
    var all, now := rows + [gone] + rest, rows + rest;
    forall i, j | 0 <= i < j < |now| && OfOnePerson(mappings, now[i], now[j]) ensures OlderBefore(now, j, mappings) {
      var x, y := if i < |rows| then i else i + 1, if j < |rows| then j else j + 1;
      assert all[x] == now[i] && all[y] == now[j];
      var k :| 0 <= k < y && OfOnePerson(mappings, all[k], all[y]) && all[k].epoch < all[y].epoch;
      var n := if k < |rows| then k else k - 1;
      assert all[k] == now[n];
    }
  }

  lemma LockRowKeepsPlan(s: State, run: Run)
    requires SweepsWell(s) && Enabled(s, LockRow(run)) && PhaseOf(s, run).Sweeping?
    ensures PlansWell(NextPhase(s, LockRow(run)), s.mappings)
  {
    var p := PhaseOf(s, run);
    assert PlansWell(p, s.mappings);
    var next, rest := p.pending[0], p.pending[1..];
    assert p.pending == [next] + rest;
    assert p.rows + p.pending == p.rows + [next] + rest;
    if next !in s.mappings {
      PassingKeepsPlans(p.rows, next, rest, s.mappings);
      assert p.rows + [] == p.rows;
    }
  }

  lemma MoveKeepsSweepsWell(s: State, a: Action)
    requires SweepsWell(s) && Enabled(s, a) && !Writes(a)
    requires a.SweepBatch? ==> NobodySweeps(s) && OldestFirst(a.rows, s.mappings)
    ensures SweepsWell(Apply(s, a))
  {
    var q := NextPhase(s, a);
    if a.LockRow? && PhaseOf(s, a.run).Sweeping? {
      LockRowKeepsPlan(s, a.run);
    } else if a.SweepBatch? {
      assert [] + a.rows == a.rows;
    }
    assert PlansWell(q, s.mappings);
    assert q.Sweeping? ==> a.SweepBatch? || PhaseOf(s, a.run).Sweeping?;
  }

  /** An erasure takes all of a person's rows or, where it found nobody, none. */
  lemma ErasureTakesWholePersons(s: State, run: Run)
    requires Inv(s) && Enabled(s, CommitErase(run))
    ensures WholePersons(Apply(s, CommitErase(run)).mappings, s.mappings)
  {
    var p := PhaseOf(s, run);
    var gone := Elements(Audits(p.subject, p.targets));
    assert PhaseInv(p, s.mappings, s.issued);
    if Audits(p.subject, p.targets) == p.targets {
      assert gone == Linked(s.mappings, p.natural);
    } else {
      UntargetedIsUnlinked(s, run);
      assert gone == {p.subject.ref};
    }
  }

  lemma CommitEraseKeepsSweepsWell(s: State, run: Run)
    requires Inv(s) && SweepsWell(s) && Enabled(s, CommitErase(run))
    ensures SweepsWell(Apply(s, CommitErase(run)))
  {
    var t := Apply(s, CommitErase(run));
    ErasureTakesWholePersons(s, run);
    hide Inv, Enabled, OldestFirst, WholePersons;
    forall other | other in t.phases ensures PlansWell(t.phases[other], t.mappings) {
      if other != run && t.phases[other].Sweeping? {
        assert PlansWell(s.phases[other], s.mappings);
        WholePersonsKeepPlans(t.phases[other].rows + t.phases[other].pending, t.mappings, s.mappings);
      }
    }
  }

  lemma InsertKeepsSweepsWell(s: State, run: Run, ref: Ref)
    requires Inv(s) && SweepsWell(s) && Enabled(s, Insert(run, ref))
    ensures SweepsWell(Apply(s, Insert(run, ref)))
  {
    InsertKeepsInv(s, run, ref);
    assert ref !in s.issued;
    hide *;
    var p := PhaseOf(s, run);
    var t := With(s.(mappings := s.mappings[ref := Mapping(p.id, p.epoch)], issued := s.issued[ref := p.id]),
                  run, Finished(Some(ref)));
    NewLinkageKeepsPlans(s, t, run, ref);
  }

  /** A new linkage is of a reference no sweep has found. */
  lemma NewLinkageKeepsPlans(s: State, t: State, run: Run, ref: Ref)
    requires Inv(s) && SweepsWell(s) && ref !in s.issued && ref !in s.mappings
    requires t.mappings.Keys == s.mappings.Keys + {ref}
    requires forall other :: other in s.mappings ==> t.mappings[other] == s.mappings[other]
    requires t.phases == s.phases[run := Finished(Some(ref))]
    ensures SweepsWell(t)
  {
    hide OldestFirst, MappingsInv, TrailInv, Conserved, HeldApart;
    forall other | other in t.phases && t.phases[other].Sweeping? ensures PlansWell(t.phases[other], t.mappings) {
      var p := s.phases[other];
      assert PhaseInv(p, s.mappings, s.issued) && PlansWell(p, s.mappings);
      var rows := p.rows + p.pending;
      assert forall x :: x in rows ==> x in Elements(p.rows) || x in Elements(p.pending);
      assert ref !in rows;
      NewRowKeepsPlan(rows, s.mappings, t.mappings);
    }
  }

  lemma NewRowKeepsPlan(rows: seq<Ref>, before: Mappings, now: Mappings)
    requires OldestFirst(rows, before)
    requires forall ref :: ref in rows ==> (ref in now <==> ref in before) && (ref in now ==> now[ref] == before[ref])
    ensures OldestFirst(rows, now)
  {
    forall i, j | 0 <= i < j < |rows| && OfOnePerson(now, rows[i], rows[j]) ensures OlderBefore(rows, j, now) {
      assert OfOnePerson(before, rows[i], rows[j]);
      var k :| 0 <= k < j && OfOnePerson(before, rows[k], rows[j]) && rows[k].epoch < rows[j].epoch;
      assert OfOnePerson(now, rows[k], rows[j]);
    }
  }

  lemma StepKeepsSweepsWell(s: State, a: Action)
    requires Inv(s) && SweepsWell(s) && Enabled(s, a)
    requires a.SweepBatch? ==> NobodySweeps(s) && OldestFirst(a.rows, s.mappings)
    ensures SweepsWell(Apply(s, a))
  {
    hide Inv, OldestFirst;
    match a
    case Insert(run, ref) => InsertKeepsSweepsWell(s, run, ref);
    case CommitErase(run) => CommitEraseKeepsSweepsWell(s, run);
    case CommitSweep(run) =>
      var t := Apply(s, a);
      assert forall other :: other in t.phases && other != run ==> !t.phases[other].Sweeping?;
    case Lift(_, _, _) =>
    case _ => MoveKeepsSweepsWell(s, a);
  }

  /** Then an erasure and the sweep never hold what the other one is waiting for. */
  lemma SweepingWellIsNeverStuck(s: State)
    requires Inv(s) && SweepsWell(s)
    ensures !Stuck(s)
  {
    if Stuck(s) {
      var first, ref := StuckWaitsForRow(s);
      var holder := WaitingIsForAHolder(s, first, ref);
      StuckHolderWaits(s, holder, ref);
      var sweep, row, erasure := first, ref, holder;
      if s.phases[first].EraseSelecting? {
        ErasureWaitsForSweep(s, first, ref, holder);
        sweep, row := holder, s.phases[holder].Waiting()[0];
        erasure := WaitingIsForAHolder(s, sweep, row);
        StuckHolderWaits(s, erasure, row);
      }
      var wanted := s.phases[erasure].Waiting()[0];
      assert !s.phases[erasure].Sweeping?;
      var other := WaitingIsForAHolder(s, erasure, wanted);
      ErasureWaitsForSweep(s, erasure, wanted, other);
      assert other == sweep;
      WantsItsOwn(s, erasure, row, wanted);
      var older := SweepHoldsOlder(s, sweep, row, wanted);
      assert !Holds(s, erasure, older);
      ErasureHoldsOldest(s, erasure, row, older);
    }
  }

  /** A sweep that holds a row of a person and wants another holds one that is older than that. */
  lemma SweepHoldsOlder(s: State, sweep: Run, row: Ref, held: Ref) returns (older: Ref)
    requires Inv(s) && SweepsWell(s) && WaitsFor(s, sweep, row) && s.phases[sweep].Sweeping?
    requires Holds(s, sweep, held) && OfOnePerson(s.mappings, held, row)
    ensures Holds(s, sweep, older) && OfOnePerson(s.mappings, older, row) && older.epoch < row.epoch
  {
    var p := s.phases[sweep];
    assert PhaseInv(p, s.mappings, s.issued) && PlansWell(p, s.mappings);
    var rows := p.rows + p.pending;
    var i :| 0 <= i < |p.rows| && p.rows[i] == held;
    var j := |p.rows|;
    assert rows[i] == held && rows[j] == row;
    assert OlderBefore(rows, j, s.mappings);
    var k :| 0 <= k < j && OfOnePerson(s.mappings, rows[k], rows[j]) && rows[k].epoch < rows[j].epoch;
    older := rows[k];
  }

  /** An erasure holds the oldest rows of its person: whatever it does not hold is younger. */
  lemma ErasureHoldsOldest(s: State, erasure: Run, row: Ref, other: Ref)
    requires Inv(s) && Holds(s, erasure, row) && s.phases[erasure].EraseSelecting?
    requires OfOnePerson(s.mappings, other, row) && !Holds(s, erasure, other)
    ensures row.epoch < other.epoch
  {
    var q := s.phases[erasure];
    assert PhaseInv(q, s.mappings, s.issued);
    assert row in Linked(s.mappings, q.natural) && other in Linked(s.mappings, q.natural);
    var m :| 0 <= m < |q.pending| && q.pending[m] == other;
    var n :| 0 <= n < |q.targets| && q.targets[n] == row;
    var all := q.targets + q.pending;
    assert all[n] == row && all[|q.targets| + m] == other;
  }

  lemma WantsItsOwn(s: State, erasure: Run, row: Ref, wanted: Ref)
    requires Inv(s) && Holds(s, erasure, row) && WaitsFor(s, erasure, wanted) && s.phases[erasure].EraseSelecting?
    ensures OfOnePerson(s.mappings, wanted, row)
  {
    var q := s.phases[erasure];
    assert PhaseInv(q, s.mappings, s.issued);
    assert row in Linked(s.mappings, q.natural);
    assert s.mappings[wanted].id == s.issued[wanted];
  }

  /** Every sweep begins when no other is under way, and takes every person's oldest row first. */
  ghost predicate SweepsInTurn(s: State, actions: seq<Action>)
    requires ValidRun(s, actions)
    decreases |actions|
  {
    actions == []
    || (&& (actions[0].SweepBatch? ==> NobodySweeps(s) && OldestFirst(actions[0].rows, s.mappings))
        && SweepsInTurn(Apply(s, actions[0]), actions[1..]))
  }

  lemma {:induction false} RunKeepsSweepsWell(s: State, actions: seq<Action>)
    requires Inv(s) && SweepsWell(s) && ValidRun(s, actions) && SweepsInTurn(s, actions)
    ensures Inv(Exec(s, actions)) && SweepsWell(Exec(s, actions))
    decreases |actions|
  {
    hide Inv, SweepsWell, Enabled, Apply, NobodySweeps, OldestFirst;
    if actions != [] {
      StepKeepsInv(s, actions[0]);
      StepKeepsSweepsWell(s, actions[0]);
      RunKeepsSweepsWell(Apply(s, actions[0]), actions[1..]);
    }
  }

  /**
   No deadlock among registrations, erasures, lifts and one sweep at a time that takes
   every person's oldest row first: in every reachable state in which some transaction is
   unfinished, one that is can take its next step.
   */
  lemma NobodyDeadlocks(lockKey: NaturalId -> int, actions: seq<Action>)
    requires ValidRun(Initial(lockKey), actions) && SweepsInTurn(Initial(lockKey), actions)
    ensures !Stuck(Exec(Initial(lockKey), actions))
  {
    RunKeepsSweepsWell(Initial(lockKey), actions);
    SweepingWellIsNeverStuck(Exec(Initial(lockKey), actions));
  }

  predicate NoSweeps(actions: seq<Action>) {
    forall i :: 0 <= i < |actions| ==> !actions[i].SweepBatch?
  }

  lemma {:induction false} WithoutSweepsInTurn(s: State, actions: seq<Action>)
    requires ValidRun(s, actions) && NoSweeps(actions)
    ensures SweepsInTurn(s, actions)
    decreases |actions|
  {
    hide Enabled, Apply;
    if actions != [] {
      assert forall i :: 0 <= i < |actions[1..]| ==> actions[1..][i] == actions[i + 1];
      WithoutSweepsInTurn(Apply(s, actions[0]), actions[1..]);
    }
  }

  /** The lock order does what it is for: without sweeps nobody ever deadlocks. */
  lemma RegistrationsAndErasuresNeverDeadlock(lockKey: NaturalId -> int, actions: seq<Action>)
    requires ValidRun(Initial(lockKey), actions) && NoSweeps(actions)
    ensures !Stuck(Exec(Initial(lockKey), actions))
  {
    WithoutSweepsInTurn(Initial(lockKey), actions);
    NobodyDeadlocks(lockKey, actions);
  }

  // ---------------------------------------------------------------- several sweeps at a time

  /** The order of the table's rows by epoch, and by token within one. */
  predicate Before(a: Ref, b: Ref) {
    a.epoch < b.epoch || (a.epoch == b.epoch && a.token < b.token)
  }

  predicate InRowOrder(rows: seq<Ref>) {
    forall i, j :: 0 <= i < j < |rows| ==> Before(rows[i], rows[j])
  }

  predicate SweepsInOrder(s: State) {
    forall run :: run in s.phases && s.phases[run].Sweeping? ==> InRowOrder(s.phases[run].rows + s.phases[run].pending)
  }

  lemma StepKeepsOrder(s: State, a: Action)
    requires Enabled(s, a) && SweepsInOrder(s)
    requires a.SweepBatch? ==> InRowOrder(a.rows)
    ensures SweepsInOrder(Apply(s, a))
  {
    if Writes(a) {
      assert forall run :: run in Apply(s, a).phases && Apply(s, a).phases[run].Sweeping? ==>
                             run in s.phases && Apply(s, a).phases[run] == s.phases[run];
    } else {
      NextKeepsOrder(s, a);
    }
  }

  lemma NextKeepsOrder(s: State, a: Action)
    requires Enabled(s, a) && SweepsInOrder(s) && !Writes(a)
    requires a.SweepBatch? ==> InRowOrder(a.rows)
    ensures var q := NextPhase(s, a); q.Sweeping? ==> InRowOrder(q.rows + q.pending)
  {
    if a.SweepBatch? {
      assert [] + a.rows == a.rows;
    } else if a.LockRow? && PhaseOf(s, a.run).Sweeping? {
      var p := PhaseOf(s, a.run);
      var next, rest := p.pending[0], p.pending[1..];
      var all, now := p.rows + p.pending, p.rows + [] + rest;
      assert p.pending == [next] + rest;
      assert p.rows + [next] + rest == all;
      assert forall i :: 0 <= i < |now| ==> now[i] == all[if i < |p.rows| then i else i + 1];
    }
  }

  /** What a statement is still to reach comes after what it holds, for an erasure as for an ordered sweep. */
  lemma WantsWhatComesAfter(s: State, run: Run, held: Ref, wanted: Ref)
    requires Inv(s) && SweepsInOrder(s) && Holds(s, run, held) && WaitsFor(s, run, wanted)
    ensures Before(held, wanted)
  {
    var p := s.phases[run];
    assert PhaseInv(p, s.mappings, s.issued);
    var locked := if p.Sweeping? then p.rows else p.targets;
    var all := locked + p.Waiting();
    var i :| 0 <= i < |locked| && locked[i] == held;
    assert all[i] == held && all[|locked|] == wanted;
  }

  lemma {:induction false} LastOf(refs: set<Ref>) returns (last: Ref)
    requires refs != {}
    ensures last in refs && forall ref :: ref in refs ==> !Before(last, ref)
    decreases refs
  {
    var some :| some in refs;
    last := some;
    if refs != {some} {
      var other := LastOf(refs - {some});
      assert forall ref :: ref in refs ==> ref == some || ref in refs - {some};
      if Before(some, other) {
        last := other;
      }
    }
  }

  function AllHeld(s: State): set<Ref> {
    set run, ref | run in s.phases && ref in s.phases[run].Rows() :: ref
  }

  /** Whoever holds the last of all locked rows waits for none of them. */
  lemma OrderedIsNeverStuck(s: State)
    requires Inv(s) && SweepsInOrder(s)
    ensures !Stuck(s)
  {
    if Stuck(s) {
      var first, ref := StuckWaitsForRow(s);
      var other := WaitingIsForAHolder(s, first, ref);
      assert forall run, row :: Holds(s, run, row) ==> row in AllHeld(s);
      var last := LastOf(AllHeld(s));
      var holder :| holder in s.phases && last in s.phases[holder].Rows();
      StuckHolderWaits(s, holder, last);
      var wanted := s.phases[holder].Waiting()[0];
      WantsWhatComesAfter(s, holder, last, wanted);
      other := WaitingIsForAHolder(s, holder, wanted);
    }
  }

  lemma {:induction false} RunKeepsOrder(s: State, actions: seq<Action>)
    requires SweepsInOrder(s) && ValidRun(s, actions)
    requires forall i :: 0 <= i < |actions| && actions[i].SweepBatch? ==> InRowOrder(actions[i].rows)
    ensures SweepsInOrder(Exec(s, actions))
    decreases |actions|
  {
    hide SweepsInOrder, Enabled, Apply, InRowOrder;
    if actions != [] {
      StepKeepsOrder(s, actions[0]);
      assert forall i :: 0 <= i < |actions[1..]| ==> actions[1..][i] == actions[i + 1];
      RunKeepsOrder(Apply(s, actions[0]), actions[1..]);
    }
  }

  /** Sweeps that take their rows by epoch and token deadlock with nobody, however many run at a time. */
  lemma OrderedSweepsNeverDeadlock(lockKey: NaturalId -> int, actions: seq<Action>)
    requires ValidRun(Initial(lockKey), actions)
    requires forall i :: 0 <= i < |actions| && actions[i].SweepBatch? ==> InRowOrder(actions[i].rows)
    ensures !Stuck(Exec(Initial(lockKey), actions))
  {
    RunKeepsInv(Initial(lockKey), actions);
    RunKeepsOrder(Initial(lockKey), actions);
    OrderedIsNeverStuck(Exec(Initial(lockKey), actions));
  }
}
