/**
 How a retention sweep and an erasure, or two sweeps, come to block each other: runs that
 end with nobody able to go on, and the exact condition for one sweep.
 */
module RegistryDeadlock {
  import opened Arithmetic
  import opened Results
  import opened Registry
  import opened RegistrySafety
  import opened RegistryTheorems
  import opened RegistryProgress

  // ---------------------------------------------------------------- how a sweep and an erasure block each other

  /** Nobody but these is at work. */
  predicate OnlyAtWork(s: State, runs: set<Run>) {
    forall run :: run in s.phases && run !in runs ==> !Unfinished(s.phases[run])
  }

  function AtWork(s: State): set<Run> {
    set run | run in s.phases && Unfinished(s.phases[run])
  }

  lemma {:induction false} Appended(actions: seq<Action>, a: Action)
    requires NoSweeps(actions) && !a.SweepBatch?
    ensures NoSweeps(actions + [a])
  {
  }

  /** Everybody else gives up, as anybody may at any time. */
  lemma {:induction false} OthersGiveUp(s: State, actions: seq<Action>, run: Run) returns (extended: seq<Action>)
    requires ValidRun(s, actions) && NoSweeps(actions)
    ensures ValidRun(s, extended) && NoSweeps(extended)
    ensures var t, u := Exec(s, actions), Exec(s, extended);
      && u == t.(phases := u.phases) && u.phases.Keys == t.phases.Keys && OnlyAtWork(u, {run})
      && (forall other :: other in t.phases && !Unfinished(t.phases[other]) ==> u.phases[other] == t.phases[other])
      && (run in t.phases ==> u.phases[run] == t.phases[run])
    decreases AtWork(Exec(s, actions)) - {run}
  {
    var t := Exec(s, actions);
    extended := actions;
    if other :| other in AtWork(t) - {run} {
      extended := Do(s, actions, Abort(other));
      var u := Exec(s, extended);
      assert u == With(t, other, Finished(None));
      assert AtWork(u) == AtWork(t) - {other};
      extended := OthersGiveUp(s, extended, run);
    } else {
      assert forall other :: other in t.phases && Unfinished(t.phases[other]) ==> other in AtWork(t);
      assert forall other :: other in AtWork(t) ==> other in AtWork(t) - {run} || other == run;
      assert OnlyAtWork(t, {run});
    }
  }

  /** A sweep that nobody disturbs locks rows that are there. */
  lemma {:induction false} SweepLocks(s: State, actions: seq<Action>, run: Run, rows: seq<Ref>, why: Why, n: nat)
    returns (extended: seq<Action>)
    requires ValidRun(s, actions) && NoSweeps(actions) && n <= |rows|
    requires var t := Exec(s, actions);
      && run in t.phases && t.phases[run] == Sweeping([], rows, why) && OnlyAtWork(t, {run})
      && forall ref :: ref in rows ==> ref in t.mappings
    ensures ValidRun(s, extended) && NoSweeps(extended)
    ensures Exec(s, extended) == With(Exec(s, actions), run, Sweeping(rows[..n], rows[n..], why))
    decreases n
  {
    hide ValidRun, Exec;
    var t := Exec(s, actions);
    if n == 0 {
      extended := actions;
      assert rows[..0] == [] && rows[0..] == rows;
      assert t == With(t, run, Sweeping([], rows, why)) by {
        assert t.phases == t.phases[run := Sweeping([], rows, why)];
      }
    } else {
      extended := SweepLocks(s, actions, run, rows, why, n - 1);
      var u := Exec(s, extended);
      assert rows[n - 1..][0] == rows[n - 1] && rows[n - 1..][1..] == rows[n..]
             && rows[..n - 1] + [rows[n - 1]] == rows[..n];
      NobodyElseHolds(u, run, {rows[n - 1]});
      Appended(extended, LockRow(run));
      extended := Do(s, extended, LockRow(run));
    }
  }

  lemma NobodyElseHolds(s: State, run: Run, refs: set<Ref>)
    requires OnlyAtWork(s, {run})
    ensures RowsFree(s, run, refs) && forall id :: LockFree(s, run, id)
  {
  }

  lemma ErasureResolves(s: State, actions: seq<Action>, run: Run, id: NaturalId, why: Why)
    returns (extended: seq<Action>)
    requires ValidRun(s, actions) && NoSweeps(actions) && run !in Exec(s, actions).phases
    ensures ValidRun(s, extended) && NoSweeps(extended)
    ensures Exec(s, extended) == With(Exec(s, actions), run, EraseResolved(Natural(id), Some(id), [], why))
  {
    hide ValidRun, Exec, NoSweeps;
    var t := Exec(s, actions);
    Appended(actions, BeginErase(run, Natural(id), [], why));
    extended := Do(s, actions, BeginErase(run, Natural(id), [], why));
    assert Exec(s, extended) == With(t, run, Erasing(Natural(id), [], why));
    Appended(extended, Resolve(run));
    extended := Do(s, extended, Resolve(run));
    assert Exec(s, extended) == With(t, run, EraseResolved(Natural(id), Some(id), [], why));
  }

  /** An erasure begins, gets its advisory lock, and finds what is linked. */
  lemma ErasureBegins(s: State, actions: seq<Action>, sweep: Run, run: Run, id: NaturalId, refs: seq<Ref>, why: Why)
    returns (extended: seq<Action>)
    requires ValidRun(s, actions) && NoSweeps(actions)
    requires var t := Exec(s, actions);
      && OnlyAtWork(t, {sweep}) && sweep in t.phases && t.phases[sweep].Locks().None? && run !in t.phases
      && InEpochOrder(refs) && Elements(refs) == Linked(t.mappings, Some(id))
    ensures ValidRun(s, extended) && NoSweeps(extended)
    ensures Exec(s, extended) == With(Exec(s, actions), run, EraseSelecting(Natural(id), Some(id), [], refs, [], why))
  {
    hide ValidRun, Exec, NoSweeps;
    extended := ErasureResolves(s, actions, run, id, why);
    var t := Exec(s, actions);
    Appended(extended, EraseLock(run));
    extended := Do(s, extended, EraseLock(run));
    assert Exec(s, extended) == With(t, run, EraseLocked(Natural(id), Some(id), [], why));
    Appended(extended, Select(run, refs));
    extended := Do(s, extended, Select(run, refs));
  }

  /** It locks one row after the other as long as the sweep holds none of them. */
  lemma {:induction false} ErasureLocks(s: State, actions: seq<Action>, sweep: Run, run: Run, id: NaturalId,
                                        refs: seq<Ref>, why: Why, n: nat)
    returns (extended: seq<Action>)
    requires ValidRun(s, actions) && NoSweeps(actions) && n <= |refs|
    requires var t := Exec(s, actions);
      && run in t.phases && t.phases[run] == EraseSelecting(Natural(id), Some(id), [], refs, [], why)
      && sweep in t.phases && sweep != run && OnlyAtWork(t, {sweep, run})
      && (forall ref :: ref in refs ==> ref in t.mappings)
      && (forall ref :: ref in refs[..n] ==> ref !in t.phases[sweep].Rows())
    ensures ValidRun(s, extended) && NoSweeps(extended)
    ensures Exec(s, extended) ==
      With(Exec(s, actions), run, EraseSelecting(Natural(id), Some(id), refs[..n], refs[n..], [], why))
    decreases n
  {
    hide ValidRun, Exec;
    var t := Exec(s, actions);
    if n == 0 {
      extended := actions;
      assert refs[..0] == [] && refs[0..] == refs;
      assert t.phases == t.phases[run := EraseSelecting(Natural(id), Some(id), [], refs, [], why)];
    } else {
      assert refs[n - 1] in refs[..n] && forall ref :: ref in refs[..n - 1] ==> ref in refs[..n];
      extended := ErasureLocks(s, actions, sweep, run, id, refs, why, n - 1);
      var u := Exec(s, extended);
      ErasureLocksNext(u, sweep, run, id, refs, why, n - 1);
      hide *;
      Appended(extended, LockRow(run));
      extended := Do(s, extended, LockRow(run));
      LastPhaseStays(t, run, EraseSelecting(Natural(id), Some(id), refs[..n - 1], refs[n - 1..], [], why),
                     EraseSelecting(Natural(id), Some(id), refs[..n], refs[n..], [], why));
    }
  }

  lemma ErasureLocksNext(s: State, sweep: Run, run: Run, id: NaturalId, refs: seq<Ref>, why: Why, n: nat)
    requires n < |refs| && run in s.phases
    requires s.phases[run] == EraseSelecting(Natural(id), Some(id), refs[..n], refs[n..], [], why)
    requires sweep in s.phases && sweep != run && OnlyAtWork(s, {sweep, run})
    requires refs[n] in s.mappings && refs[n] !in s.phases[sweep].Rows()
    ensures Enabled(s, LockRow(run))
    ensures Apply(s, LockRow(run)) ==
      With(s, run, EraseSelecting(Natural(id), Some(id), refs[..n + 1], refs[n + 1..], [], why))
  {
    assert refs[n..][0] == refs[n] && refs[n..][1..] == refs[n + 1..] && refs[..n] + [refs[n]] == refs[..n + 1];
  }

  /** Two that wait for each other, and nobody else at work. */
  lemma CrossedIsStuck(s: State, a: Run, b: Run, x: Ref, y: Ref)
    requires OnlyAtWork(s, {a, b}) && Holds(s, a, x) && Holds(s, b, y) && a != b
    requires WaitsFor(s, a, y) && WaitsFor(s, b, x)
    ensures Stuck(s)
  {
    WaitingCannotGoOn(s, a, y);
    WaitingCannotGoOn(s, b, x);
    assert forall run :: CanGoOn(s, run) ==> run in {a, b};
  }

  lemma WaitingCannotGoOn(s: State, run: Run, ref: Ref)
    requires WaitsFor(s, run, ref)
    ensures !CanGoOn(s, run) && Unfinished(s.phases[run])
  {
    forall a | StepsOf(a, run) ensures !Enabled(s, a) {
    }
  }

  /** Where the erasure meets the sweep: the first of its rows that the sweep holds. */
  lemma {:induction false} FirstHeld(refs: seq<Ref>, held: set<Ref>) returns (n: nat)
    requires exists k :: 0 <= k < |refs| && refs[k] in held
    ensures n < |refs| && refs[n] in held && forall ref :: ref in refs[..n] ==> ref !in held
  {
    if refs[0] in held {
      n := 0;
    } else {
      assert forall k :: 0 < k < |refs| ==> refs[k] == refs[1..][k - 1];
      var rest := FirstHeld(refs[1..], held);
      n := rest + 1;
      assert refs[..n] == [refs[0]] + refs[1..][..rest];
    }
  }

  /** A sweep about to take a person's oldest row after others of that person meets the erasure coming the other way. */
  lemma YoungerFirstDeadlocks(s: State, actions: seq<Action>, sweep: Run, rows: seq<Ref>, why: Why, i: nat, j: nat)
    returns (extended: seq<Action>)
    requires ValidRun(s, actions) && NoSweeps(actions) && Inv(s)
    requires var t := Exec(s, actions);
      && sweep in t.phases && t.phases[sweep] == Sweeping([], rows, why) && Distinct(rows)
      && (forall ref :: ref in rows ==> ref in t.mappings)
      && i < j < |rows| && OfOnePerson(t.mappings, rows[i], rows[j]) && !OlderBefore(rows, j, t.mappings)
    ensures ValidRun(s, extended) && NoSweeps(extended) && Stuck(Exec(s, extended))
  {
    RunKeepsInv(s, actions);
    var t := Exec(s, actions);
    extended := OthersGiveUp(s, actions, sweep);
    assert MappingsInv(t.mappings, t.issued);
    hide ValidRun, Exec, Inv, MappingsInv, Distinct, OlderBefore, InEpochOrder;
    var refs := LinkedListedByEpoch(t.mappings, t.issued, Some(t.mappings[rows[j]].id));
    ReachesHeld(t.mappings, rows, i, j, refs);
    var n := FirstHeld(refs, Elements(rows[..j]));
    OldestComesFirst(t, rows, j, refs, n);
    assert forall ref :: ref in rows[..j] <==> ref in Elements(rows[..j]);
    extended := MeetsErasure(s, extended, sweep, rows, why, j, t.mappings[rows[j]].id, refs, n);
  }

  lemma MeetsErasure(s: State, actions: seq<Action>, sweep: Run, rows: seq<Ref>, why: Why, j: nat,
                     id: NaturalId, refs: seq<Ref>, n: nat)
    returns (extended: seq<Action>)
    requires ValidRun(s, actions) && NoSweeps(actions) && j < |rows| && n < |refs|
    requires var t := Exec(s, actions);
      && OnlyAtWork(t, {sweep}) && sweep in t.phases && t.phases[sweep] == Sweeping([], rows, why)
      && (forall ref :: ref in rows ==> ref in t.mappings)
      && InEpochOrder(refs) && Elements(refs) == Linked(t.mappings, Some(id))
    requires rows[j] in refs[..n] && refs[n] in rows[..j] && forall ref :: ref in refs[..n] ==> ref !in rows[..j]
    ensures ValidRun(s, extended) && NoSweeps(extended) && Stuck(Exec(s, extended))
  {
    hide ValidRun, Exec, InEpochOrder, NoSweeps, Stuck;
    var t := Exec(s, actions);
    extended := SweepLocks(s, actions, sweep, rows, why, j);
    var swept := With(t, sweep, Sweeping(rows[..j], rows[j..], why));
    assert Exec(s, extended) == swept;
    var run := Above(t.phases.Keys);
    extended := ErasureReaches(s, extended, sweep, run, id, refs, why, n);
    AllMapped(t.mappings, id, refs);
    TheyMeet(t, sweep, rows, why, j, run, id, refs, n);
  }

  lemma AllMapped(mappings: Mappings, id: NaturalId, refs: seq<Ref>)
    requires Elements(refs) == Linked(mappings, Some(id))
    ensures forall ref :: ref in refs ==> ref in mappings
  {
    assert forall ref :: ref in refs ==> ref in Elements(refs);
  }

  lemma ErasureReaches(s: State, actions: seq<Action>, sweep: Run, run: Run, id: NaturalId, refs: seq<Ref>, why: Why,
                       n: nat)
    returns (extended: seq<Action>)
    requires ValidRun(s, actions) && NoSweeps(actions) && n <= |refs|
    requires var t := Exec(s, actions);
      && OnlyAtWork(t, {sweep}) && sweep in t.phases && t.phases[sweep].Locks().None? && run !in t.phases
      && InEpochOrder(refs) && Elements(refs) == Linked(t.mappings, Some(id))
      && (forall ref :: ref in refs[..n] ==> ref !in t.phases[sweep].Rows())
    ensures ValidRun(s, extended) && NoSweeps(extended)
    ensures Exec(s, extended) ==
      With(Exec(s, actions), run, EraseSelecting(Natural(id), Some(id), refs[..n], refs[n..], [], why))
  {
    hide ValidRun, Exec, InEpochOrder, NoSweeps;
    var t := Exec(s, actions);
    AllMapped(t.mappings, id, refs);
    extended := ErasureBegins(s, actions, sweep, run, id, refs, why);
    extended := ErasureLocks(s, extended, sweep, run, id, refs, why, n);
  }

  /** The sweep has locked `j` of its rows, and the erasure `n` of its own. */
  function Met(s: State, sweep: Run, rows: seq<Ref>, why: Why, j: nat, run: Run, id: NaturalId, refs: seq<Ref>,
               n: nat): State
    requires j <= |rows| && n <= |refs|
  {
    With(With(s, sweep, Sweeping(rows[..j], rows[j..], why)),
         run, EraseSelecting(Natural(id), Some(id), refs[..n], refs[n..], [], why))
  }

  lemma TheyMeet(s: State, sweep: Run, rows: seq<Ref>, why: Why, j: nat, run: Run, id: NaturalId, refs: seq<Ref>,
                 n: nat)
    requires OnlyAtWork(s, {sweep}) && run != sweep && j < |rows| && n < |refs|
    requires rows[j] in s.mappings && refs[n] in s.mappings
    requires rows[j] in refs[..n] && refs[n] in rows[..j]
    ensures Stuck(Met(s, sweep, rows, why, j, run, id, refs, n))
  {
    CrossedIsStuck(Met(s, sweep, rows, why, j, run, id, refs, n), sweep, run, refs[n], rows[j]);
  }

  lemma ReachesHeld(mappings: Mappings, rows: seq<Ref>, i: nat, j: nat, refs: seq<Ref>)
    requires i < j < |rows| && OfOnePerson(mappings, rows[i], rows[j])
    requires Elements(refs) == Linked(mappings, Some(mappings[rows[j]].id))
    ensures exists k :: 0 <= k < |refs| && refs[k] in Elements(rows[..j])
  {
    assert rows[i] in Linked(mappings, Some(mappings[rows[j]].id));
    assert rows[..j][i] == rows[i];
  }

  /** By the time the erasure reaches a row the sweep holds, it holds the row the sweep wants. */
  lemma OldestComesFirst(t: State, rows: seq<Ref>, j: nat, refs: seq<Ref>, n: nat)
    requires Inv(t) && Distinct(rows) && (forall ref :: ref in rows ==> ref in t.mappings) && j < |rows|
    requires !OlderBefore(rows, j, t.mappings)
    requires InEpochOrder(refs) && Elements(refs) == Linked(t.mappings, Some(t.mappings[rows[j]].id))
    requires n < |refs| && refs[n] in Elements(rows[..j])
    ensures rows[j] in refs[..n]
  {
    var row := rows[j];
    assert row in Linked(t.mappings, Some(t.mappings[row].id));
    var m :| 0 <= m < |refs| && refs[m] == row;
    var k :| 0 <= k < j && rows[k] == refs[n];
    assert refs[n] in Linked(t.mappings, Some(t.mappings[row].id));
    assert OfOnePerson(t.mappings, rows[k], row);
    assert row.epoch <= refs[n].epoch && row != refs[n];
    assert t.mappings[row] != t.mappings[refs[n]];
    assert m < n;
    assert refs[..n][m] == row;
  }

  /**
   When one sweep can be in a deadlock: exactly when it would take some person's row before
   an older one of the same batch. An erasure of that person, coming from the oldest, can
   then hold the row the sweep wants and want a row the sweep holds. It depends on the
   batch alone, whatever else is under way when the sweep begins, so long as no other sweep is.
   */
  lemma SweepDeadlocksIff(s: State, run: Run, boundary: int, rows: seq<Ref>, why: Why)
    requires Inv(s) && NobodySweeps(s) && Enabled(s, SweepBatch(run, boundary, rows, why))
    ensures var begun := Apply(s, SweepBatch(run, boundary, rows, why));
      (exists actions :: ValidRun(begun, actions) && NoSweeps(actions) && Stuck(Exec(begun, actions)))
      <==> !OldestFirst(rows, s.mappings)
  {
    var a := SweepBatch(run, boundary, rows, why);
    var begun := Apply(s, a);
    StepKeepsInv(s, a);
    if OldestFirst(rows, s.mappings) {
      StepKeepsSweepsWell(s, a) by {
        assert SweepsWell(s);
      }
      forall actions | ValidRun(begun, actions) && NoSweeps(actions) ensures !Stuck(Exec(begun, actions)) {
        WithoutSweepsInTurn(begun, actions);
        RunKeepsSweepsWell(begun, actions);
        SweepingWellIsNeverStuck(Exec(begun, actions));
      }
    } else {
      var i, j :| 0 <= i < j < |rows| && OfOnePerson(s.mappings, rows[i], rows[j]) && !OlderBefore(rows, j, s.mappings);
      var actions := YoungerFirstDeadlocks(begun, [], run, rows, why, i, j);
    }
  }

  /** An undisturbed registration links. */
  lemma Registers(s: State, actions: seq<Action>, run: Run, id: NaturalId, epoch: int, ref: Ref)
    returns (extended: seq<Action>)
    requires ValidRun(s, actions) && ref.epoch == epoch
    requires var t := Exec(s, actions);
      && PhaseOf(t, run).Idle? && (forall other :: other in t.phases ==> t.phases[other].Finished?)
      && !HasMapping(t.mappings, id, epoch) && t.trail == [] && ref !in t.issued
    ensures ValidRun(s, extended)
    ensures var t := Exec(s, actions);
      Exec(s, extended) == With(t.(mappings := t.mappings[ref := Mapping(id, epoch)], issued := t.issued[ref := id]),
                                run, Finished(Some(ref)))
  {
    hide ValidRun, Exec, Apply, Enabled, HasMapping;
    var t := Exec(s, actions);
    extended := ReadsTwice(s, actions, run, id, epoch, []);
    NobodyIsSuppressed(With(t, run, RegReread(id, epoch, [])), run);
    extended := Do(s, extended, CheckSuppressed(run));
    LastPhaseStays(t, run, RegReread(id, epoch, []), RegAllowed(id, epoch, []));
    LinksWhenAllowed(With(t, run, RegAllowed(id, epoch, [])), run, ref);
    extended := Do(s, extended, Insert(run, ref));
    LastPhaseStays(t, run, RegAllowed(id, epoch, []), Finished(Some(ref)));
  }

  lemma LastPhaseStays(s: State, run: Run, p: Phase, q: Phase)
    ensures With(With(s, run, p), run, q) == With(s, run, q)
  {
    assert s.phases[run := p][run := q] == s.phases[run := q];
  }

  lemma NobodyIsSuppressed(s: State, run: Run)
    requires PhaseOf(s, run).RegReread? && s.trail == []
    ensures Enabled(s, CheckSuppressed(run))
    ensures var p := PhaseOf(s, run); Apply(s, CheckSuppressed(run)) == With(s, run, RegAllowed(p.id, p.epoch, p.ring))
  {
  }

  lemma LinksWhenAllowed(s: State, run: Run, ref: Ref)
    requires PhaseOf(s, run).RegAllowed? && ref.epoch == PhaseOf(s, run).epoch && s.trail == [] && ref !in s.issued
    requires forall other :: other in s.phases && other != run ==> s.phases[other].Finished?
    requires !HasMapping(s.mappings, PhaseOf(s, run).id, PhaseOf(s, run).epoch)
    ensures Enabled(s, Insert(run, ref))
    ensures var p := PhaseOf(s, run);
      Apply(s, Insert(run, ref)) ==
        With(s.(mappings := s.mappings[ref := Mapping(p.id, p.epoch)], issued := s.issued[ref := p.id]),
             run, Finished(Some(ref)))
  {
    hide HasMapping;
  }

  /**
   Such a deadlock from the empty registry: a person linked in two epochs, both due, is erased
   while a sweep takes the younger one first.
   */
  lemma SweepMeetsErasure(lockKey: NaturalId -> int, id: NaturalId, older: int, younger: int, why: Why)
    returns (before: seq<Action>, after: seq<Action>)
    requires older < younger
    ensures ValidRun(Initial(lockKey), before)
    ensures var s := Exec(Initial(lockKey), before);
      var sweep := SweepBatch(2, younger + 1, [Ref(younger, 1), Ref(older, 0)], why);
      && s.mappings == map[Ref(older, 0) := Mapping(id, older), Ref(younger, 1) := Mapping(id, younger)]
      && Enabled(s, sweep) && ValidRun(Apply(s, sweep), after) && NoSweeps(after)
      && Stuck(Exec(Apply(s, sweep), after))
  {
    hide *;
    before := LinkedTwice(lockKey, id, older, younger);
    var s := Exec(Initial(lockKey), before);
    var rows := [Ref(younger, 1), Ref(older, 0)];
    BothAreDue(s, id, older, younger, why);
    SweepDeadlocksIff(s, 2, younger + 1, rows, why);
    after :| ValidRun(Apply(s, SweepBatch(2, younger + 1, rows, why)), after) && NoSweeps(after)
             && Stuck(Exec(Apply(s, SweepBatch(2, younger + 1, rows, why)), after));
  }

  lemma LinkedTwice(lockKey: NaturalId -> int, id: NaturalId, older: int, younger: int) returns (actions: seq<Action>)
    requires older < younger
    ensures ValidRun(Initial(lockKey), actions)
    ensures Exec(Initial(lockKey), actions) ==
      State(lockKey, map[Ref(older, 0) := Mapping(id, older), Ref(younger, 1) := Mapping(id, younger)], [],
            map[Ref(older, 0) := id, Ref(younger, 1) := id],
            map[0 := Finished(Some(Ref(older, 0))), 1 := Finished(Some(Ref(younger, 1)))])
    ensures Inv(Exec(Initial(lockKey), actions))
  {
    var start := Initial(lockKey);
    assert ValidRun(start, []) && Exec(start, []) == start && Inv(start);
    hide ValidRun, Exec, Inv;
    actions := Registers(start, [], 0, id, older, Ref(older, 0));
    var once := Exec(start, actions);
    assert once.mappings == map[Ref(older, 0) := Mapping(id, older)];
    actions := Registers(start, actions, 1, id, younger, Ref(younger, 1));
    RunKeepsInv(start, actions);
  }

  lemma BothAreDue(s: State, id: NaturalId, older: int, younger: int, why: Why)
    requires older < younger && 2 !in s.phases && forall run :: run in s.phases ==> s.phases[run].Finished?
    requires s.mappings == map[Ref(older, 0) := Mapping(id, older), Ref(younger, 1) := Mapping(id, younger)]
    ensures NobodySweeps(s) && Enabled(s, SweepBatch(2, younger + 1, [Ref(younger, 1), Ref(older, 0)], why))
    ensures !OldestFirst([Ref(younger, 1), Ref(older, 0)], s.mappings)
  {
    var rows := [Ref(younger, 1), Ref(older, 0)];
    assert OfOnePerson(s.mappings, rows[0], rows[1]) && !OlderBefore(rows, 1, s.mappings);
  }

  // ---------------------------------------------------------------- two sweeps

  predicate OfTwoPersons(mappings: Mappings, a: Ref, b: Ref) {
    a in mappings && b in mappings && mappings[a].id != mappings[b].id
  }

  /**
   Two sweeps that take two rows in opposite orders can block each other, though each of
   them takes every person's oldest row first.
   */
  lemma CrossingSweepsDeadlock(s: State, x: Ref, y: Ref, boundary: int, why: Why)
    returns (quiet: seq<Action>, a: Run, b: Run)
    requires OfTwoPersons(s.mappings, x, y) && s.mappings[x].epoch < boundary && s.mappings[y].epoch < boundary
    ensures OldestFirst([x, y], s.mappings) && OldestFirst([y, x], s.mappings) && NoSweeps(quiet)
    ensures var actions :=
        quiet + [SweepBatch(a, boundary, [x, y], why), SweepBatch(b, boundary, [y, x], why), LockRow(a), LockRow(b)];
      ValidRun(s, actions) && Stuck(Exec(s, actions))
  {
    a := Above(s.phases.Keys);
    b := a + 1;
    quiet := OthersGiveUp(s, [], a);
    CrossAlone(s, quiet, a, b, x, y, boundary, why);
    EachOldestFirst(s.mappings, x, y);
  }

  lemma CrossAlone(s: State, quiet: seq<Action>, a: Run, b: Run, x: Ref, y: Ref, boundary: int, why: Why)
    requires ValidRun(s, quiet) && a != b
    requires var t := Exec(s, quiet);
      && OnlyAtWork(t, {a}) && a !in t.phases && b !in t.phases
      && OfTwoPersons(t.mappings, x, y) && t.mappings[x].epoch < boundary && t.mappings[y].epoch < boundary
    ensures var actions :=
        quiet + [SweepBatch(a, boundary, [x, y], why), SweepBatch(b, boundary, [y, x], why), LockRow(a), LockRow(b)];
      ValidRun(s, actions) && Stuck(Exec(s, actions))
  {
    hide *;
    var t := Exec(s, quiet);
    var first, second := SweepBatch(a, boundary, [x, y], why), SweepBatch(b, boundary, [y, x], why);
    TheyBegin(t, a, b, x, y, boundary, why);
    TheyCross(t, a, b, x, y, why);
    var actions := Do(s, quiet, first);
    actions := Do(s, actions, second);
    actions := Do(s, actions, LockRow(a));
    actions := Do(s, actions, LockRow(b));
    assert actions == quiet + [first, second, LockRow(a), LockRow(b)];
  }

  lemma EachOldestFirst(mappings: Mappings, x: Ref, y: Ref)
    requires OfTwoPersons(mappings, x, y)
    ensures OldestFirst([x, y], mappings) && OldestFirst([y, x], mappings)
  {
  }

  /** Two sweeps, each with what it holds and what it has still to reach. */
  function Sweeps(s: State, a: Run, held: seq<Ref>, wanted: seq<Ref>, b: Run, heldToo: seq<Ref>, wantedToo: seq<Ref>,
                  why: Why): State
  {
    With(With(s, a, Sweeping(held, wanted, why)), b, Sweeping(heldToo, wantedToo, why))
  }

  lemma TheyBegin(s: State, a: Run, b: Run, x: Ref, y: Ref, boundary: int, why: Why)
    requires a !in s.phases && b !in s.phases && a != b && OfTwoPersons(s.mappings, x, y)
    requires s.mappings[x].epoch < boundary && s.mappings[y].epoch < boundary
    ensures var first, second := SweepBatch(a, boundary, [x, y], why), SweepBatch(b, boundary, [y, x], why);
      && Enabled(s, first) && Enabled(Apply(s, first), second)
      && Apply(Apply(s, first), second) == Sweeps(s, a, [], [x, y], b, [], [y, x], why)
  {
  }

  lemma LocksNext(s: State, run: Run, rows: seq<Ref>, next: Ref, rest: seq<Ref>, why: Why)
    requires run in s.phases && s.phases[run] == Sweeping(rows, [next] + rest, why)
    requires next in s.mappings && RowsFree(s, run, {next})
    ensures Enabled(s, LockRow(run)) && Apply(s, LockRow(run)) == With(s, run, Sweeping(rows + [next], rest, why))
  {
    assert ([next] + rest)[1..] == rest;
  }

  lemma TheyCross(s: State, a: Run, b: Run, x: Ref, y: Ref, why: Why)
    requires OnlyAtWork(s, {a}) && a !in s.phases && b !in s.phases && a != b && OfTwoPersons(s.mappings, x, y)
    ensures var t := Sweeps(s, a, [], [x, y], b, [], [y, x], why);
      && Enabled(t, LockRow(a)) && Enabled(Apply(t, LockRow(a)), LockRow(b))
      && Stuck(Apply(Apply(t, LockRow(a)), LockRow(b)))
  {
    hide *;
    var t := Sweeps(s, a, [], [x, y], b, [], [y, x], why);
    var u := Sweeps(s, a, [x], [y], b, [], [y, x], why);
    var v := Sweeps(s, a, [x], [y], b, [y], [x], why);
    FirstLocks(s, a, b, x, y, why);
    SecondLocks(s, a, b, x, y, why);
    AreCrossed(s, a, b, x, y, why);
    CrossedIsStuck(v, a, b, x, y);
  }

  lemma TwoSweepsMove(s: State, a: Run, b: Run, p: Phase, q: Phase, next: Phase)
    requires a != b
    ensures With(With(With(s, a, p), b, q), a, next) == With(With(s, a, next), b, q)
    ensures With(With(With(s, a, p), b, q), b, next) == With(With(s, a, p), b, next)
  {
    assert s.phases[a := p][b := q][a := next] == s.phases[a := next][b := q];
    assert s.phases[a := p][b := q][b := next] == s.phases[a := p][b := next];
  }

  lemma FirstLocks(s: State, a: Run, b: Run, x: Ref, y: Ref, why: Why)
    requires OnlyAtWork(s, {a}) && a !in s.phases && b !in s.phases && a != b && OfTwoPersons(s.mappings, x, y)
    ensures var t := Sweeps(s, a, [], [x, y], b, [], [y, x], why);
      Enabled(t, LockRow(a)) && Apply(t, LockRow(a)) == Sweeps(s, a, [x], [y], b, [], [y, x], why)
  {
    hide Enabled, Apply;
    var t, u := Sweeps(s, a, [], [x, y], b, [], [y, x], why), Sweeps(s, a, [x], [y], b, [], [y, x], why);
    assert [x, y] == [x] + [y] && [] + [x] == [x];
    assert RowsFree(t, a, {x});
    LocksNext(t, a, [], x, [y], why);
    TwoSweepsMove(s, a, b, Sweeping([], [x, y], why), Sweeping([], [y, x], why), Sweeping([x], [y], why));
  }

  lemma SecondLocks(s: State, a: Run, b: Run, x: Ref, y: Ref, why: Why)
    requires OnlyAtWork(s, {a}) && a !in s.phases && b !in s.phases && a != b && OfTwoPersons(s.mappings, x, y)
    ensures var u := Sweeps(s, a, [x], [y], b, [], [y, x], why);
      Enabled(u, LockRow(b)) && Apply(u, LockRow(b)) == Sweeps(s, a, [x], [y], b, [y], [x], why)
  {
    hide Enabled, Apply;
    var u, v := Sweeps(s, a, [x], [y], b, [], [y, x], why), Sweeps(s, a, [x], [y], b, [y], [x], why);
    assert [y, x] == [y] + [x] && [] + [y] == [y];
    LocksNext(u, b, [], y, [x], why);
    TwoSweepsMove(s, a, b, Sweeping([x], [y], why), Sweeping([], [y, x], why), Sweeping([y], [x], why));
  }

  lemma AreCrossed(s: State, a: Run, b: Run, x: Ref, y: Ref, why: Why)
    requires OnlyAtWork(s, {a}) && a !in s.phases && b !in s.phases && a != b && OfTwoPersons(s.mappings, x, y)
    ensures var v := Sweeps(s, a, [x], [y], b, [y], [x], why);
      && OnlyAtWork(v, {a, b}) && Holds(v, a, x) && Holds(v, b, y) && WaitsFor(v, a, y) && WaitsFor(v, b, x)
  {
  }
}
