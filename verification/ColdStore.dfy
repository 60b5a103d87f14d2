/**
 Appending to the cold table: the commit loop and the clean-up after it, as they are
 run, against a catalogue that other runs use at the same time.

 Every await is a call to `Interfere`. What the loop does between two awaits is one
 action of the protocol, so a whole append is one run of it among the others.
 */
module ColdStore {
  import opened Arithmetic
  import opened Results
  import opened SnapshotChain
  import opened ColdProtocol
  import opened ColdSafety

  // ---------------------------------------------------------------- what others may do

  ghost predicate RunTo(w: World, actions: seq<Action>, w': World) {
    ValidRun(w, actions) && Exec(w, actions) == w'
  }

  ghost predicate Reaches(w: World, w': World) {
    exists actions :: RunTo(w, actions, w')
  }

  ghost predicate ByOthers(me: Run, actions: seq<Action>) {
    forall a :: a in actions ==> a.Foreign? || a.run != me
  }

  ghost predicate OthersRan(w: World, w': World, me: Run) {
    exists actions :: ByOthers(me, actions) && RunTo(w, actions, w')
  }

  lemma ReachesSelf(w: World)
    ensures Reaches(w, w)
    ensures forall me :: OthersRan(w, w, me)
  {
    assert RunTo(w, [], w);
    forall me: Run
      ensures OthersRan(w, w, me)
    {
      assert ByOthers(me, []);
    }
  }

  lemma ReachesFurther(w: World, w': World, w'': World)
    requires Reaches(w, w') && Reaches(w', w'')
    ensures Reaches(w, w'')
  {
    var first :| RunTo(w, first, w');
    var second :| RunTo(w', second, w'');
    RunsCompose(w, first, second);
    assert RunTo(w, first + second, w'');
  }

  lemma StepReaches(w: World, a: Action)
    requires w.store.table.Valid() && Enabled(w, a)
    ensures Reaches(w, Apply(w, a))
  {
    OneMore(w, [a]);
    assert RunTo(w, [a], Apply(w, a));
  }

  /** A name that no longer stands for an object will not stand for one again. */
  predicate Gone(w: World, file: File) {
    file in w.store.minted && file !in w.store.objects
  }

  /** What this run can rely on while others act. */
  ghost predicate LeftAlone(w: World, w': World, me: Run) {
    && PhaseOf(w', me) == PhaseOf(w, me)
    && w.landed <= w'.landed
    && (forall i :: |w.landed| <= i < |w'.landed| ==> w'.landed[i].run != me)
    && (forall file :: Gone(w, file) ==> Gone(w', file))
  }

  lemma StepKeepsGone(w: World, a: Action)
    requires Inv(w) && Enabled(w, a)
    ensures forall file :: Gone(w, file) ==> Gone(Apply(w, a), file)
  {
    if a.Foreign? {
      LiveIsReferenced(w.store);
    }
  }

  lemma OthersStep(w: World, a: Action, me: Run)
    requires Inv(w) && Enabled(w, a) && (a.Foreign? || a.run != me)
    ensures LeftAlone(w, Apply(w, a), me)
  {
    StepKeepsGone(w, a);
    StepLogsItsOwn(w, a);
    hide Enabled, Apply, Inv;
  }

  /** A step moves its own run's phase, and logs a landing of no other run. */
  lemma StepLogsItsOwn(w: World, a: Action)
    requires w.store.table.Valid() && Enabled(w, a)
    ensures var w' := Apply(w, a);
      && (forall run :: (a.Foreign? || a.run != run) ==> PhaseOf(w', run) == PhaseOf(w, run))
      && w.landed <= w'.landed
      && (forall i :: |w.landed| <= i < |w'.landed| ==> !a.Foreign? && w'.landed[i].run == a.run)
  {
    hide RowsIn, PublishedBoundary;
  }

  lemma {:induction false} OthersLeaveAlone(w: World, actions: seq<Action>, me: Run)
    requires Inv(w) && ValidRun(w, actions) && ByOthers(me, actions)
    ensures Inv(Exec(w, actions)) && LeftAlone(w, Exec(w, actions), me)
    decreases |actions|
  {
    if actions != [] {
      assert actions[0] in actions;
      StepKeepsInv(w, actions[0]);
      OthersStep(w, actions[0], me);
      OthersLeaveAlone(Apply(w, actions[0]), actions[1..], me);
    }
  }

  /** Later landings, if any, are other runs'. */
  predicate OnlyOthersLanded(w: World, w': World, me: Run) {
    w.landed <= w'.landed && forall i :: |w.landed| <= i < |w'.landed| ==> w'.landed[i].run != me
  }

  // ---------------------------------------------------------------- fresh names

  lemma UnusedExists(used: set<nat>)
    ensures exists n: nat :: n !in used
  {
    assert Above(used) !in used;
  }

  /** All rows of a batch, however the writer splits it into files. */
  function TotalOf(parts: seq<multiset<Row>>): multiset<Row> {
    if parts == [] then multiset{} else TotalOf(parts[..|parts| - 1]) + parts[|parts| - 1]
  }

  lemma NoFilesYet(files: Objects)
    requires files == map[]
    ensures RowsIn(files, files.Keys) == TotalOf([]) && |files| == 0 && files.Keys == {}
  {
  }

  lemma TotalOfMore(parts: seq<multiset<Row>>, i: nat)
    requires i < |parts|
    ensures TotalOf(parts[..i + 1]) == TotalOf(parts[..i]) + parts[i]
  {
    assert parts[..i + 1][..i] == parts[..i];
  }

  lemma FreshWithNone(s: Store)
    ensures FreshFiles(s, {})
  {
  }

  lemma FreshWithMore(s: Store, files: set<File>, file: File)
    requires FreshFiles(s, files) && file !in s.minted + s.objects.Keys
    ensures FreshFiles(s, files + {file})
  {
  }

  lemma OneFileMore(files: Objects, file: File, rows: multiset<Row>)
    requires file !in files
    ensures var more := files[file := rows];
      && |more| == |files| + 1 && more.Keys == files.Keys + {file}
      && RowsIn(more, more.Keys) == RowsIn(files, files.Keys) + rows
  {
    var more := files[file := rows];
    RowsInRemove(more, more.Keys, file);
    assert more.Keys - {file} == files.Keys;
    RowsInSame(files, more, files.Keys);
  }

  // ---------------------------------------------------------------- what a run knows about itself

  lemma RunFacts(w: World, me: Run)
    requires Inv(w)
    ensures w.store.table.Valid()
    ensures HeldInv(w.store, PhaseOf(w, me).Holds())
    ensures PhaseOf(w, me).Ready? ==> PhaseOf(w, me).base.Valid() && PhaseOf(w, me).files <= w.store.objects.Keys
  {
    RunInv(w, me);
  }

  /** What is gone is referenced by nothing. */
  lemma GoneIsUnreferenced(w: World, files: set<File>)
    requires Inv(w) && forall file :: file in files ==> Gone(w, file)
    ensures Unreferenced(w.store.history, files)
  {
  }

  /** What landed is still there. */
  lemma LandedFilesRemain(w: World, i: nat)
    requires Inv(w) && i < |w.landed|
    ensures w.landed[i].files <= w.store.objects.Keys
  {
    assert LandedFilesInv(w.store.history, w.landed);
    forall file | file in w.landed[i].files
      ensures file in w.store.objects
    {
      assert IsReferenced(w.store.history, file);
    }
  }

  // ---------------------------------------------------------------- one pass of the loop

  /**
   One pass: the table it took its summary from, the world in which it had loaded that
   table, and the world its commit met.
   */
  datatype Pass = Pass(base: Table, loaded: World, met: World)

  /** Somebody committed after the base was loaded. */
  predicate Overtaken(pass: Pass) {
    pass.base.current != pass.met.store.table.current
  }

  /** The catalogue reported a conflict: its own, or because the base it was given was no longer current. */
  predicate LostRace(pass: Pass, fault: Answer) {
    (fault.Applied() && Overtaken(pass)) || (fault.Failed? && fault.kind == CatalogCommitConflicts)
  }

  /** The catalogue took the commit, and said so. */
  predicate WonRace(pass: Pass, fault: Answer) {
    fault.Committed? && !Overtaken(pass)
  }

  /** The base gives a summary, which publishes this boundary. */
  predicate Publishes(pass: Pass, summary: Summary, boundary: int) {
    pass.base.Valid() && PublishedBoundary(summary, pass.base) == Success(boundary)
  }

  predicate Accepts(pass: Pass, summary: Summary) {
    pass.base.Valid() && PublishedBoundary(summary, pass.base).Success?
  }

  predicate Refuses(pass: Pass, summary: Summary, why: Refusal) {
    pass.base.Valid() && PublishedBoundary(summary, pass.base) == Failure(why)
  }

  /** A pass as run `me` made it, `start` being where its append began. */
  ghost predicate IsPassOf(start: World, pass: Pass, me: Run, p: Phase) {
    && p.Ready? && p.base == pass.base == pass.loaded.store.table
    && Reaches(start, pass.loaded) && Reaches(pass.loaded, pass.met)
    && PhaseOf(pass.met, me) == p
  }

  /** The passes of one append: every pass but the last lost its race, and the next stands on a later load. */
  ghost predicate ArePassesOf(start: World, passes: seq<Pass>, me: Run, summary: Summary,
                              files: set<File>, rows: set<Row>)
  {
    && (forall k :: 0 <= k < |passes| ==>
          IsPassOf(start, passes[k], me, Ready(summary, passes[k].base, files, rows, k)))
    && (forall k :: 0 < k < |passes| ==> Reaches(passes[k - 1].met, passes[k].loaded))
    && (passes != [] ==> passes[0].base == start.store.table)
  }

  /** A lost race, after which the loop looks again. */
  predicate Retries(pass: Pass, summary: Summary, fault: Answer, reload: bool, k: nat) {
    Accepts(pass, summary) && LostRace(pass, fault) && (k + 1 < COMMIT_ATTEMPTS ==> reload)
  }

  // ---------------------------------------------------------------- the store

  datatype AppendError =
    | LoadFailed
    | WriteFailed
    | SummaryRefused(why: Refusal)
    | CatalogueError(kind: ErrorKind)
    | ConflictsExhausted

  /** What an answer says about the pass it ends, the `k`-th. */
  predicate AnswersAsMet(pass: Pass, summary: Summary, fault: Answer, reload: bool, k: nat,
                         r: Result<int, AppendError>)
  {
    match r
    case Success(boundary) => Publishes(pass, summary, boundary) && WonRace(pass, fault)
    case Failure(SummaryRefused(why)) => Refuses(pass, summary, why)
    case Failure(CatalogueError(kind)) =>
      Accepts(pass, summary) && !LostRace(pass, fault) && fault.Failed? && fault.kind == kind
    case Failure(LoadFailed) => Accepts(pass, summary) && LostRace(pass, fault) && k < 3 && !reload
    case Failure(ConflictsExhausted) => Accepts(pass, summary) && LostRace(pass, fault) && k == 3
    case Failure(WriteFailed) => false
  }

  /**
   The kinds that leave it open whether a commit landed are the two that no list can rule
   out, besides the conflict, which has an arm of its own.
   */
  lemma OnlyTheseLeaveItOpen(kind: ErrorKind)
    ensures kind in {Unexpected, Unlisted} <==> !CommitWasRefused(kind) && kind != CatalogCommitConflicts
  {
  }

  /** At most four passes; all but the last lost their race and looked again, and the answer is the last one's. */
  predicate EndsAsMet(passes: seq<Pass>, summary: Summary, faults: seq<Answer>, reloads: seq<bool>,
                      r: Result<int, AppendError>)
    requires |faults| == |reloads| == COMMIT_ATTEMPTS
  {
    && 0 < |passes| <= 4
    && (forall k :: 0 <= k < |passes| - 1 ==>
          Accepts(passes[k], summary) && LostRace(passes[k], faults[k]) && reloads[k])
    && var k := |passes| - 1; AnswersAsMet(passes[k], summary, faults[k], reloads[k], k, r)
  }

  lemma EndsWithItsLast(passes: seq<Pass>, summary: Summary, faults: seq<Answer>, reloads: seq<bool>,
                        r: Result<int, AppendError>)
    requires |faults| == |reloads| == COMMIT_ATTEMPTS && EndsAsMet(passes, summary, faults, reloads, r)
    ensures 0 < |passes| <= 4 && r != Failure(WriteFailed)
  {
  }

  /** One pass that gets its commit in is all an append needs, and it is the last. */
  lemma WonRaceIsTheAnswer(passes: seq<Pass>, summary: Summary, faults: seq<Answer>, reloads: seq<bool>,
                           r: Result<int, AppendError>, k: nat)
    requires |faults| == |reloads| == COMMIT_ATTEMPTS && EndsAsMet(passes, summary, faults, reloads, r)
    requires k < |passes| && Accepts(passes[k], summary) && WonRace(passes[k], faults[k])
    ensures k == |passes| - 1 && r == PublishedAs(passes[k], summary)
  {
  }

  function PublishedAs(pass: Pass, summary: Summary): Result<int, AppendError>
    requires Accepts(pass, summary)
  {
    Success(PublishedBoundary(summary, pass.base).value)
  }

  /**
   With a catalogue that answers, an append whose summary every base accepts lands, unless
   somebody else commits between its load and its commit four times over.
   */
  lemma OnlyFourOvertakingsStopIt(passes: seq<Pass>, summary: Summary, faults: seq<Answer>, reloads: seq<bool>,
                                  r: Result<int, AppendError>)
    requires |faults| == |reloads| == COMMIT_ATTEMPTS && EndsAsMet(passes, summary, faults, reloads, r)
    requires forall k :: 0 <= k < 4 ==> faults[k] == Committed && reloads[k]
    requires forall k :: 0 <= k < |passes| ==> Accepts(passes[k], summary)
    ensures r.Success? || r == Failure(ConflictsExhausted)
    ensures r.Failure? <==> |passes| == 4 && forall k :: 0 <= k < 4 ==> Overtaken(passes[k])
  {
    var last := |passes| - 1;
    assert faults[last] == Committed && reloads[last];
    if r.Success? {
      assert !Overtaken(passes[last]);
    }
  }

  lemma NoPassYet(start: World, me: Run, summary: Summary, files: set<File>, rows: set<Row>)
    ensures ArePassesOf(start, [], me, summary, files, rows)
  {
  }

  lemma PassIsMade(start: World, pass: Pass, me: Run, p: Phase)
    requires p.Ready? && p.base == pass.base == pass.loaded.store.table && PhaseOf(pass.met, me) == p
    requires Reaches(start, pass.loaded) && Reaches(pass.loaded, pass.met)
    ensures IsPassOf(start, pass, me, p)
  {
  }

  lemma OnePassMore(start: World, passes: seq<Pass>, pass: Pass, me: Run, summary: Summary,
                    files: set<File>, rows: set<Row>)
    requires ArePassesOf(start, passes, me, summary, files, rows)
    requires IsPassOf(start, pass, me, Ready(summary, pass.base, files, rows, |passes|))
    requires if passes == [] then pass.base == start.store.table else Reaches(passes[|passes| - 1].met, pass.loaded)
    ensures ArePassesOf(start, passes + [pass], me, summary, files, rows)
  {
    hide IsPassOf, Reaches;
    var more := passes + [pass];
    forall k | 0 <= k < |more|
      ensures IsPassOf(start, more[k], me, Ready(summary, more[k].base, files, rows, k))
    {
      assert k < |passes| ==> more[k] == passes[k];
    }
  }

  class ColdStore {
    var world: World

    /** Any number of actions of other runs. The body is one thing others may do: nothing. */
    method Interfere(me: Run)
      requires Inv(world)
      modifies this
      ensures OthersRan(old(world), world, me)
    {
      ReachesSelf(world);
    }

    method Await(me: Run)
      requires Inv(world)
      modifies this
      ensures Inv(world) && LeftAlone(old(world), world, me)
      ensures forall start :: Reaches(start, old(world)) ==> Reaches(start, world)
    {
      ghost var before := world;
      Interfere(me);
      ghost var actions :| ByOthers(me, actions) && RunTo(before, actions, world);
      OthersLeaveAlone(before, actions, me);
      assert Reaches(before, world);
      forall start | Reaches(start, before)
        ensures Reaches(start, world)
      {
        ReachesFurther(start, before, world);
      }
    }

    method Take(a: Action)
      requires Inv(world) && Enabled(world, a)
      modifies this
      ensures world == Apply(old(world), a) && Inv(world)
      ensures forall start :: Reaches(start, old(world)) ==> Reaches(start, world)
    {
      StepKeepsInv(world, a);
      StepReaches(world, a);
      forall start | Reaches(start, world)
        ensures Reaches(start, Apply(world, a))
      {
        ReachesFurther(start, world, Apply(world, a));
      }
      world := Apply(world, a);
    }

    /**
     One compare-and-swap. The catalogue answers as `fault` says, except that it
     reports a conflict whenever the base it is given is no longer current.
     */
    method Commit(me: Run, at: int, fault: Answer) returns (id: Id, answer: Answer)
      requires Inv(world) && PhaseOf(world, me).Ready? && fault.Truthful()
      modifies this
      ensures old(PhaseOf(world, me).base.Valid())
      ensures Enabled(old(world), Attempt(me, id, at, answer))
      ensures world == Apply(old(world), Attempt(me, id, at, answer)) && Inv(world)
      ensures forall start :: Reaches(start, old(world)) ==> Reaches(start, world)
      ensures answer == if fault.Applied() && old(PhaseOf(world, me).base.current != world.store.table.current)
                        then Failed(CatalogCommitConflicts, false) else fault
    {
      assert PhaseInv(world.store, PhaseOf(world, me));
      UnusedExists(world.store.history.Keys);
      id :| id !in world.store.history.Keys;
      answer := fault;
      if fault.Applied() && PhaseOf(world, me).base.current != world.store.table.current {
        answer := Failed(CatalogCommitConflicts, false);
      }
      Take(Attempt(me, id, at, answer));
    }

    method DrawName(used: set<File>) returns (file: File)
      ensures file !in used
    {
      UnusedExists(used);
      file :| file !in used;
    }

    /** A data file for each part of the rows, under names nobody has used. */
    method DrawFiles(parts: seq<multiset<Row>>) returns (files: Objects)
      ensures FreshFiles(world.store, files.Keys) && |files| == |parts|
      ensures RowsIn(files, files.Keys) == TotalOf(parts)
    {
      hide RowsIn, TotalOf, FreshFiles;
      files := map[];
      FreshWithNone(world.store);
      NoFilesYet(files);
      for i := 0 to |parts|
        invariant FreshFiles(world.store, files.Keys) && |files| == i
        invariant RowsIn(files, files.Keys) == TotalOf(parts[..i])
      {
        var file := DrawName(world.store.minted + world.store.objects.Keys + files.Keys);
        TotalOfMore(parts, i);
        OneFileMore(files, file, parts[i]);
        FreshWithMore(world.store, files.Keys, file);
        files := files[file := parts[i]];
      }
      assert parts[..|parts|] == parts;
    }

    /**
     Clean up after a commit that did not land. Nothing is touched when the
     commit may have landed, nor when the re-read fails; what the re-read reports as
     referenced is kept.
     */
    method Discard(me: Run, files: set<File>, refused: bool, reread: Option<set<File>>, deletable: set<File>)
      returns (removed: set<File>, kept: set<File>)
      requires Inv(world)
      requires refused ==> PhaseOf(world, me) == Discarding(files)
      modifies this
      ensures Inv(world)
      ensures forall start :: Reaches(start, old(world)) ==> Reaches(start, world)
      ensures OnlyOthersLanded(old(world), world, me)
      ensures !refused ==> world == old(world)
      ensures refused ==> Unreferenced(world.store.history, files)
      ensures if refused && reread.Some?
              then removed == files * deletable - reread.value && kept == files * reread.value
              else removed == kept == {}
      ensures removed !! world.store.objects.Keys
    {
      hide Inv, Reaches;
      removed, kept := {}, {};
      RunFacts(world, me);
      if !refused || files == {} {
        return;
      }
      Await(me);
      RunFacts(world, me);
      if reread.None? {
        Take(Abort(me));
        return;
      }
      Take(ReadReferenced(me, reread.value));
      removed, kept := DeleteOrphans(me, files, reread.value, deletable);
      GoneIsUnreferenced(world, removed);
      RunFacts(world, me);
    }

    method DeleteOrphans(me: Run, files: set<File>, referenced: set<File>, deletable: set<File>)
      returns (removed: set<File>, kept: set<File>)
      requires Inv(world) && PhaseOf(world, me) == Cleaning(files, referenced)
      modifies this
      ensures Inv(world)
      ensures forall start :: Reaches(start, old(world)) ==> Reaches(start, world)
      ensures OnlyOthersLanded(old(world), world, me)
      ensures PhaseOf(world, me) == Cleaning(files - removed, referenced)
      ensures removed == files * deletable - referenced && kept == files * referenced
      ensures forall file :: file in removed ==> Gone(world, file)
    {
      hide Inv, Reaches;
      removed, kept := {}, {};
      var todo := files;
      while todo != {}
        invariant Inv(world) && todo <= files
        invariant forall start :: Reaches(start, old(world)) ==> Reaches(start, world)
        invariant OnlyOthersLanded(old(world), world, me)
        invariant PhaseOf(world, me) == Cleaning(files - removed, referenced)
        invariant forall file :: file in removed ==> Gone(world, file)
        invariant removed == (files - todo) * deletable - referenced && kept == (files - todo) * referenced
        decreases todo
      {
        var file: File :| file in todo;
        if file in referenced {
          kept := kept + {file};
        } else {
          Await(me);
          RunFacts(world, me);
          if file in deletable {
            Take(DeleteFile(me, file));
            removed := removed + {file};
          }
        }
        todo := todo - {file};
      }
    }

    ghost predicate LandedSince(start: nat, landed: Landed)
      reads this
    {
      exists i :: start <= i < |world.landed| && world.landed[i] == landed
    }

    /** Load the table and write the data files. `None` when writing them failed. */
    method Prepare(me: Run, summary: Summary, written: Option<seq<multiset<Row>>>, rows: set<Row>)
      returns (base: Table, files: Option<set<File>>, ghost loaded: World)
      requires Inv(world)
      requires if summary.Advance?
               then PhaseOf(world, me) == Planned(summary.window) && summary.step == world.store.grid
               else PhaseOf(world, me).Idle?
      requires written.Some? ==> TotalOf(written.value) == multiset(rows)
      modifies this
      ensures Inv(world) && OnlyOthersLanded(old(world), world, me)
      ensures forall start :: Reaches(start, old(world)) ==> Reaches(start, world)
      ensures base == old(world.store.table) == loaded.store.table
      ensures Reaches(old(world), loaded) && Reaches(loaded, world)
      ensures files.Some? <==> written.Some?
      ensures files.Some? ==> PhaseOf(world, me) == Ready(summary, base, files.value, rows, 0)
                              && |files.value| == |written.value|
    {
      hide Inv, Reaches;
      RunFacts(world, me);
      ReachesSelf(world);
      Take(if summary.Advance? then LoadForWindow(me) else LoadForCorrection(me));
      base := world.store.table;
      loaded := world;
      ReachesSelf(loaded);
      Await(me);
      RunFacts(world, me);
      if written.None? {
        Take(Abort(me));
        return base, None, loaded;
      }
      var drawn := DrawFiles(written.value);
      Take(WriteFiles(me, drawn, rows));
      files := Some(drawn.Keys);
    }

    /**
     One pass of the commit loop: derive the summary from `base`, and commit. `None`
     asks for another pass, on the returned base. `met` is the world the commit met.
     */
    method AttemptOnce(me: Run, p: Phase, at: int, fault: Answer, reload: bool, ghost loaded: World)
      returns (r: Option<Result<int, AppendError>>, base: Table, ghost met: World)
      requires Inv(world) && p.Ready? && PhaseOf(world, me) == p && p.attempt < COMMIT_ATTEMPTS && fault.Truthful()
      modifies this
      ensures Inv(world)
      ensures forall start :: Reaches(start, old(world)) ==> Reaches(start, met) && Reaches(start, world)
      ensures Reaches(met, world) && PhaseOf(met, me) == p
      ensures if r.None? then Retries(Pass(p.base, loaded, met), p.summary, fault, reload, p.attempt)
              else AnswersAsMet(Pass(p.base, loaded, met), p.summary, fault, reload, p.attempt, r.value)
      ensures r.None? && p.attempt + 1 < COMMIT_ATTEMPTS ==> base == world.store.table
      ensures r.Some? && r.value.Success? ==>
                && LandedSince(old(|world.landed|), Landed(me, p.summary, p.files, p.rows, r.value.value))
                && p.files <= world.store.objects.Keys
      ensures r.Some? && r.value.Failure? ==> !r.value.error.ConflictsExhausted? && !r.value.error.WriteFailed?
      ensures r.None? || (r.value.Failure? && (r.value.error.CatalogueError? ==> CommitWasRefused(r.value.error.kind)))
              ==> OnlyOthersLanded(old(world), world, me) && Unreferenced(world.store.history, p.files)
      ensures r.Some? && r.value.Failure? && r.value.error.CatalogueError? ==>
                && p.files <= world.store.objects.Keys
                && (CommitWasRefused(r.value.error.kind) ==> PhaseOf(world, me) == Discarding(p.files))
      ensures r.None? ==>
                PhaseOf(world, me) == if p.attempt + 1 < COMMIT_ATTEMPTS
                                      then Ready(p.summary, base, p.files, p.rows, p.attempt + 1)
                                      else Discarding(p.files)
    {
      hide Inv, Reaches, PublishedBoundary, CommitWasRefused;
      RunFacts(world, me);
      base := p.base;
      met := world;
      ReachesSelf(met);
      var published := PublishedBoundary(p.summary, base);
      if published.Failure? {
        Take(Attempt(me, 0, at, Failed(Unexpected, false)));
        return Some(Failure(SummaryRefused(published.error))), base, met;
      }
      Await(me);
      RunFacts(world, me);
      ghost var landed := |world.landed|;
      met := world;
      ReachesSelf(met);
      var _, answer := Commit(me, at, fault);
      if answer.Committed? {
        assert world.landed[landed] == Landed(me, p.summary, p.files, p.rows, published.value);
        LandedFilesRemain(world, landed);
        return Some(Success(published.value)), base, met;
      }
      if answer.kind != CatalogCommitConflicts {
        return Some(Failure(CatalogueError(answer.kind))), base, met;
      }
      r := None;
      if p.attempt + 1 < COMMIT_ATTEMPTS {
        var reloaded := ReloadBase(me, Lost(p.summary, p.files, p.rows, p.attempt), reload);
        if reloaded.None? {
          return Some(Failure(LoadFailed)), base, met;
        }
        base := reloaded.value;
      } else {
        RunFacts(world, me);
      }
    }

    /** Wait out a lost race, and stand on what is current now. `None` when the reload failed. */
    method ReloadBase(me: Run, p: Phase, reload: bool) returns (base: Option<Table>)
      requires Inv(world) && p.Lost? && PhaseOf(world, me) == p
      modifies this
      ensures Inv(world) && OnlyOthersLanded(old(world), world, me)
      ensures forall start :: Reaches(start, old(world)) ==> Reaches(start, world)
      ensures Unreferenced(world.store.history, p.files)
      ensures base.Some? <==> reload
      ensures base.Some? ==> base.value == world.store.table
      ensures base.Some? ==> PhaseOf(world, me) == Ready(p.summary, base.value, p.files, p.rows, p.attempt + 1)
    {
      hide Inv, Reaches;
      Await(me);
      RunFacts(world, me);
      if !reload {
        Take(Abort(me));
        return None;
      }
      Take(Reload(me));
      base := Some(world.store.table);
    }

    /**
     The commit loop. Each attempt appends the same files to the snapshot it stands on
     and takes its summary from that snapshot; an attempt that conflicts reloads first.
     `passes` is what the loop went through.
     */
    method CommitLoop(me: Run, summary: Summary, first: Table, files: set<File>, rows: set<Row>, at: int,
                      faults: seq<Answer>, reloads: seq<bool>, ghost start: World, ghost load: World)
      returns (r: Result<int, AppendError>, ghost passes: seq<Pass>)
      requires Inv(world) && PhaseOf(world, me) == Ready(summary, first, files, rows, 0)
      requires |faults| == |reloads| == COMMIT_ATTEMPTS && forall fault :: fault in faults ==> fault.Truthful()
      requires first == start.store.table == load.store.table && Reaches(start, load) && Reaches(load, world)
      modifies this
      ensures Inv(world)
      ensures forall begin :: Reaches(begin, old(world)) ==> Reaches(begin, world)
      ensures ArePassesOf(start, passes, me, summary, files, rows)
      ensures EndsAsMet(passes, summary, faults, reloads, r) && Reaches(passes[|passes| - 1].met, world)
      ensures r.Success? ==> LandedSince(old(|world.landed|), Landed(me, summary, files, rows, r.value))
      ensures r.Failure? && (r.error.CatalogueError? ==> CommitWasRefused(r.error.kind))
              ==> OnlyOthersLanded(old(world), world, me) && Unreferenced(world.store.history, files)
      ensures r.Success? || r.error.CatalogueError? ==> files <= world.store.objects.Keys
      ensures r.Failure? && (r.error.ConflictsExhausted? || (r.error.CatalogueError? && CommitWasRefused(r.error.kind)))
              ==> PhaseOf(world, me) == Discarding(files)
    {
      hide Inv, Reaches, Accepts, LostRace, Publishes, Refuses, WonRace, ArePassesOf, IsPassOf, CommitWasRefused;
      passes := [];
      NoPassYet(start, me, summary, files, rows);
      ReachesFurther(start, load, world);
      var base := first;
      ghost var loaded := load;
      for attempt := 0 to COMMIT_ATTEMPTS
        invariant Inv(world) && |passes| == attempt
        invariant forall begin :: Reaches(begin, old(world)) ==> Reaches(begin, world)
        invariant OnlyOthersLanded(old(world), world, me)
        invariant PhaseOf(world, me) ==
                  if attempt < COMMIT_ATTEMPTS then Ready(summary, base, files, rows, attempt) else Discarding(files)
        invariant ArePassesOf(start, passes, me, summary, files, rows)
        invariant forall k :: 0 <= k < attempt ==> Retries(passes[k], summary, faults[k], reloads[k], k)
        invariant attempt < COMMIT_ATTEMPTS ==>
                    base == loaded.store.table && Reaches(start, loaded) && Reaches(loaded, world)
        invariant attempt == 0 ==> base == start.store.table
        invariant attempt > 0 ==>
                    && Reaches(passes[attempt - 1].met, world) && Unreferenced(world.store.history, files)
                    && (attempt < COMMIT_ATTEMPTS ==> Reaches(passes[attempt - 1].met, loaded))
      {
        var done, next;
        ghost var met;
        done, next, met := AttemptOnce(me, Ready(summary, base, files, rows, attempt), at, faults[attempt],
                                       reloads[attempt], loaded);
        ghost var pass := Pass(base, loaded, met);
        PassIsMade(start, pass, me, Ready(summary, base, files, rows, attempt));
        OnePassMore(start, passes, pass, me, summary, files, rows);
        passes := passes + [pass];
        if done.Some? {
          return done.value, passes;
        }
        base := next;
        loaded := world;
        ReachesSelf(world);
      }
      r := Failure(ConflictsExhausted);
    }

    /**
     Write `rows` and commit them, and clean up where nothing landed.

     `written` is the rows of each file the data-file writer produced, `faults` what the
     catalogue does to each attempt, `reloads` which reloads answer, `reread` what
     the read before a deletion reports, and `deletable` which deletions succeed.

     Each answer means one thing: `WriteFailed` that writing the files did, `Success` that
     the last pass got its commit in, `SummaryRefused` that its base refused the summary,
     `CatalogueError` that the catalogue failed it otherwise than by a conflict, `LoadFailed`
     that the reload after its conflict did, `ConflictsExhausted` that it was the fourth to
     conflict. A success names an append that landed, with the boundary it published. Every
     failure but one says that nothing of this run landed; the one left open is a
     catalogue error that is not a refusal, and then every file is still there.
     */
    method AppendWithSummary(me: Run, summary: Summary, written: Option<seq<multiset<Row>>>, rows: set<Row>, at: int,
                             faults: seq<Answer>, reloads: seq<bool>, reread: Option<set<File>>, deletable: set<File>)
      returns (r: Result<int, AppendError>, files: set<File>, ghost passes: seq<Pass>)
      requires Inv(world)
      requires if summary.Advance?
               then PhaseOf(world, me) == Planned(summary.window) && summary.step == world.store.grid
               else PhaseOf(world, me).Idle?
      requires written.Some? ==> TotalOf(written.value) == multiset(rows)
      requires |faults| == |reloads| == COMMIT_ATTEMPTS && forall fault :: fault in faults ==> fault.Truthful()
      modifies this
      ensures Inv(world) && Reaches(old(world), world)
      ensures r == Failure(WriteFailed) <==> written.None?
      ensures ArePassesOf(old(world), passes, me, summary, files, rows)
      ensures if written.None? then passes == []
              else EndsAsMet(passes, summary, faults, reloads, r) && Reaches(passes[|passes| - 1].met, world)
      ensures r.Success? ==> LandedSince(old(|world.landed|), Landed(me, summary, files, rows, r.value))
      ensures r.Failure? && (r.error.CatalogueError? ==> CommitWasRefused(r.error.kind))
              ==> OnlyOthersLanded(old(world), world, me) && Unreferenced(world.store.history, files)
      ensures r.Failure? && (r.error.ConflictsExhausted? || (r.error.CatalogueError? && CommitWasRefused(r.error.kind)))
              && reread.Some?
              ==> files * deletable * world.store.objects.Keys <= reread.value
      ensures r.Success? || (r.error.CatalogueError? && !CommitWasRefused(r.error.kind))
              ==> files <= world.store.objects.Keys
      ensures written.None? || (r.Success? ==> |files| == |written.value|)
    {
      hide Inv, Reaches, ArePassesOf, EndsAsMet, CommitWasRefused;
      ReachesSelf(world);
      ghost var loaded;
      var base, names;
      base, names, loaded := Prepare(me, summary, written, rows);
      files := {};
      if names.None? {
        NoPassYet(old(world), me, summary, files, rows);
        RunFacts(world, me);
        return Failure(WriteFailed), files, [];
      }
      files := names.value;
      r, passes := CommitLoop(me, summary, base, files, rows, at, faults, reloads, old(world), loaded);
      EndsWithItsLast(passes, summary, faults, reloads, r);
      if r.Failure? && (r.error.CatalogueError? || r.error.ConflictsExhausted?) {
        var refused := r.error.ConflictsExhausted? || CommitWasRefused(r.error.kind);
        var _, _ := Discard(me, files, refused, reread, deletable);
      }
    }
  }
}
