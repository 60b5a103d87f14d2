/**
 What every interleaving of the commit protocol keeps.
 */
module ColdSafety {
  import opened Arithmetic
  import opened Results
  import opened SnapshotChain
  import opened Watermark
  import opened ColdProtocol
  import Expiry

  // ---------------------------------------------------------------- runs

  ghost predicate ValidRun(w: World, actions: seq<Action>)
    decreases |actions|
  {
    actions == [] || (w.store.table.Valid() && Enabled(w, actions[0]) && ValidRun(Apply(w, actions[0]), actions[1..]))
  }

  ghost function Exec(w: World, actions: seq<Action>): World
    requires ValidRun(w, actions)
    decreases |actions|
  {
    if actions == [] then w else Exec(Apply(w, actions[0]), actions[1..])
  }

  lemma OneMore(w: World, actions: seq<Action>)
    requires actions != [] && w.store.table.Valid() && Enabled(w, actions[0])
    requires ValidRun(Apply(w, actions[0]), actions[1..])
    ensures ValidRun(w, actions) && Exec(w, actions) == Exec(Apply(w, actions[0]), actions[1..])
  {
  }

  lemma {:induction false} RunsCompose(w: World, first: seq<Action>, second: seq<Action>)
    requires ValidRun(w, first) && ValidRun(Exec(w, first), second)
    ensures ValidRun(w, first + second) && Exec(w, first + second) == Exec(Exec(w, first), second)
    decreases |first|
  {
    if first == [] {
      assert first + second == second;
    } else {
      assert (first + second)[1..] == first[1..] + second;
      RunsCompose(Apply(w, first[0]), first[1..], second);
    }
  }

  // ---------------------------------------------------------------- the invariant

  predicate IsReferenced(history: History, file: File) {
    exists id :: id in history && file in history[id].files
  }

  predicate Unreferenced(history: History, files: set<File>) {
    forall file :: file in files ==> !IsReferenced(history, file)
  }

  /** The boundary a load would read now. */
  function BoundaryNow(s: Store): int
    requires s.table.Valid() && BoundaryOf(s.table).Success?
  {
    BoundaryOf(s.table).value
  }

  predicate TableInv(s: Store) {
    && s.table.Valid() && BoundaryOf(s.table).Success?
    && PartOf(s.table.snapshots, s.history)
    && WholeStep(s.grid) && OnGrid(BoundaryNow(s), s.grid) && BoundaryNow(s) >= 0
  }

  /** Snapshots never mention a file that is gone, or a name nobody has used. */
  predicate FileInv(s: Store) {
    forall id, file :: id in s.history && file in s.history[id].files ==> file in s.objects && file in s.minted
  }

  predicate WindowInv(s: Store, window: Window)
    requires TableInv(s)
  {
    && window.to == window.from + s.grid
    && OnGrid(window.from, s.grid)
    && 0 <= window.from <= BoundaryNow(s)
  }

  predicate SummaryInv(s: Store, summary: Summary)
    requires TableInv(s)
  {
    summary.Advance? ==> WindowInv(s, summary.window) && summary.step == s.grid
  }

  predicate BaseInv(s: Store, base: Table)
    requires TableInv(s)
  {
    && base.Valid() && PartOf(base.snapshots, s.history)
    && BoundaryOf(base).Success? && BoundaryOf(base).value <= BoundaryNow(s)
  }

  predicate HeldInv(s: Store, files: set<File>) {
    files <= s.minted && Unreferenced(s.history, files)
  }

  /** The files a run wrote are all there and hold the rows it was given, each once. */
  ghost predicate Carries(s: Store, files: set<File>, rows: set<Row>) {
    files <= s.objects.Keys && RowsIn(s.objects, files) == multiset(rows)
  }

  predicate ClearPath(t: Table, doomed: set<Id>, n: nat, v: int)
    requires t.Valid() && t.current.Some?
  {
    Finds(t.snapshots, t.current.value, Boundary, n, v) && Path(t.snapshots, t.current.value, Boundary, n, v) !! doomed
  }

  /** Expiry in flight: what it is about to remove is not on the way to the boundary. */
  ghost predicate DoomedInv(t: Table, history: History, doomed: set<Id>)
    requires t.Valid()
  {
    && doomed <= history.Keys
    && (t.current.Some? ==> exists n: nat, v :: ClearPath(t, doomed, n, v))
  }

  ghost predicate PhaseInv(s: Store, p: Phase)
    requires TableInv(s)
  {
    match p
    case Idle => true
    case Planned(window) => WindowInv(s, window)
    case Loaded(summary, base) => SummaryInv(s, summary) && BaseInv(s, base)
    case Ready(summary, base, files, rows, _) =>
      SummaryInv(s, summary) && BaseInv(s, base) && HeldInv(s, files) && Carries(s, files, rows)
    case Lost(summary, files, rows, _) => SummaryInv(s, summary) && HeldInv(s, files) && Carries(s, files, rows)
    case Discarding(files) => HeldInv(s, files)
    case Cleaning(files, _) => HeldInv(s, files)
    case Expiring(doomed) => DoomedInv(s.table, s.history, doomed)
    case Finished(_) => true
  }

  ghost predicate PhasesInv(s: Store, phases: map<Run, Phase>)
    requires TableInv(s)
  {
    forall run :: run in phases ==> PhaseInv(s, phases[run])
  }

  /** No file is held by two runs. */
  predicate HoldApart(phases: map<Run, Phase>) {
    forall a, b :: a in phases && b in phases && a != b ==> phases[a].Holds() !! phases[b].Holds()
  }

  /** The windows archived, oldest first. */
  function Archived(landed: seq<Landed>): seq<Window> {
    if landed == [] then []
    else
      var last := landed[|landed| - 1];
      Archived(landed[..|landed| - 1]) + if last.summary.Advance? then [last.summary.window] else []
  }

  /** The archived windows tile `[0, boundary)`. */
  predicate TilingInv(s: Store, landed: seq<Landed>)
    requires TableInv(s)
  {
    Tiles(Archived(landed), 0, s.grid) && |Archived(landed)| * s.grid == BoundaryNow(s)
  }

  /** Each run landed once, and then ended. */
  predicate OnceInv(landed: seq<Landed>, phases: map<Run, Phase>) {
    && (forall i :: 0 <= i < |landed| ==> landed[i].run in phases && phases[landed[i].run].Finished?)
    && (forall i, j :: 0 <= i < j < |landed| ==> landed[i].run != landed[j].run)
  }

  /** Each file landed once, and some snapshot references it. */
  predicate LandedFilesInv(history: History, landed: seq<Landed>) {
    && (forall i, file :: 0 <= i < |landed| && file in landed[i].files ==> IsReferenced(history, file))
    && (forall i, j :: 0 <= i < j < |landed| ==> landed[i].files !! landed[j].files)
  }

  /** Every landed copy of every row. */
  function ColdRows(landed: seq<Landed>): multiset<Row> {
    if landed == [] then multiset{}
    else ColdRows(landed[..|landed| - 1]) + multiset(landed[|landed| - 1].rows)
  }

  /** A scan of the current snapshot returns what landed, neither less nor more. */
  ghost predicate ReadInv(s: Store, landed: seq<Landed>)
    requires TableInv(s)
  {
    ColdRead(s) == ColdRows(landed)
  }

  ghost predicate Inv(w: World) {
    && TableInv(w.store) && FileInv(w.store)
    && PhasesInv(w.store, w.phases) && HoldApart(w.phases)
    && TilingInv(w.store, w.landed)
    && OnceInv(w.landed, w.phases)
    && LandedFilesInv(w.store.history, w.landed)
    && ReadInv(w.store, w.landed)
  }

  lemma InitialInv(grid: int)
    requires WholeStep(grid)
    ensures Inv(Initial(grid))
  {
  }

  lemma RunInv(w: World, run: Run)
    requires Inv(w)
    ensures PhaseInv(w.store, PhaseOf(w, run))
  {
  }

  // ---------------------------------------------------------------- the rows of data files

  /** The rows of one file. */
  function RowsOf(objects: Objects, file: File): multiset<Row> {
    if file in objects then objects[file] else multiset{}
  }

  lemma {:induction false} RowsInRemove(objects: Objects, files: set<File>, file: File)
    requires file in files
    ensures RowsIn(objects, files) == RowsOf(objects, file) + RowsIn(objects, files - {file})
    decreases files
  {
    var first :| first in files
      && RowsIn(objects, files)
         == (if first in objects then objects[first] else multiset{}) + RowsIn(objects, files - {first});
    if first != file {
      RowsInRemove(objects, files - {first}, file);
      RowsInRemove(objects, files - {file}, first);
      assert files - {first} - {file} == files - {file} - {first};
    }
  }

  lemma RowsInNone(objects: Objects)
    ensures RowsIn(objects, {}) == multiset{}
  {
  }

  /** Two disjoint sets of files hold the rows of both. */
  lemma {:induction false} RowsInBoth(objects: Objects, a: set<File>, b: set<File>)
    requires a !! b
    ensures RowsIn(objects, a + b) == RowsIn(objects, a) + RowsIn(objects, b)
    decreases b
  {
    hide RowsIn, RowsOf;
    if b == {} {
      assert a + b == a;
      RowsInNone(objects);
    } else {
      var file :| file in b;
      RowsInBoth(objects, a, b - {file});
      RowsInRemove(objects, a + b, file);
      RowsInRemove(objects, b, file);
      assert a + b - {file} == a + (b - {file});
    }
  }

  /** The rows of some files depend on those files alone. */
  lemma {:induction false} RowsInSame(objects: Objects, objects': Objects, files: set<File>)
    requires forall file :: file in files ==> (file in objects <==> file in objects')
    requires forall file :: file in files && file in objects ==> objects[file] == objects'[file]
    ensures RowsIn(objects, files) == RowsIn(objects', files)
    decreases files
  {
    if files != {} {
      var file :| file in files;
      RowsInRemove(objects, files, file);
      RowsInRemove(objects', files, file);
      RowsInSame(objects, objects', files - {file});
    }
  }

  /** Files that live on when the store changes are read as before. */
  lemma ReadSame(s: Store, s': Store)
    requires TableInv(s) && FileInv(s) && s'.table.Valid() && LiveFiles(s'.table) == LiveFiles(s.table)
    requires forall file :: IsReferenced(s.history, file) && file in s.objects ==>
                              file in s'.objects && s'.objects[file] == s.objects[file]
    ensures ColdRead(s') == ColdRead(s)
  {
    LiveIsReferenced(s);
    forall file | file in LiveFiles(s.table) ensures file in s.objects {
      assert s.table.current.value in s.history;
    }
    RowsInSame(s.objects, s'.objects, LiveFiles(s.table));
  }

  // ---------------------------------------------------------------- reading the boundary

  /** Two views of one history that agree on the current snapshot agree on the boundary. */
  lemma SameCurrentSameBoundary(a: Table, b: Table, history: History)
    requires a.Valid() && b.Valid() && a.current == b.current
    requires PartOf(a.snapshots, history) && PartOf(b.snapshots, history)
    requires BoundaryOf(a).Success? && BoundaryOf(b).Success?
    ensures BoundaryOf(a) == BoundaryOf(b)
    ensures LiveFiles(a) == LiveFiles(b)
  {
    if a.current.Some? {
      var id := a.current.value;
      var n := PropertyWasFound(a, Boundary);
      var m := PropertyWasFound(b, Boundary);
      FindsInWhole(a.snapshots, history, id, Boundary, n, BoundaryOf(a).value);
      FindsInWhole(b.snapshots, history, id, Boundary, m, BoundaryOf(b).value);
      FindsIsUnique(history, id, Boundary, n, BoundaryOf(a).value, m, BoundaryOf(b).value);
    }
  }

  /** On the grid, the only tile that starts at or before the boundary and ends after it starts on it. */
  lemma OnlyNextTileFits(window: Window, boundary: int, step: int)
    requires step > 0 && OnGrid(window.from, step) && OnGrid(boundary, step)
    requires window.to == window.from + step && window.from <= boundary < window.to
    ensures window.from == boundary
  {
    var a, b := window.from / step, boundary / step;
    assert window.from == step * a && boundary == step * b;
    assert (b - a) * step == boundary - window.from;
    if a != b {
      NonzeroMultiple(b - a, step);
    }
  }

  lemma LiveIsReferenced(s: Store)
    requires TableInv(s)
    ensures forall file :: file in LiveFiles(s.table) ==> IsReferenced(s.history, file)
  {
    forall file | file in LiveFiles(s.table)
      ensures IsReferenced(s.history, file)
    {
      assert s.table.current.value in s.history && file in s.history[s.table.current.value].files;
    }
  }

  lemma ReferencedStay(history: History, history': History)
    requires PartOf(history, history')
    ensures forall file :: IsReferenced(history, file) ==> IsReferenced(history', file)
  {
    forall file | IsReferenced(history, file)
      ensures IsReferenced(history', file)
    {
      var id :| id in history && file in history[id].files;
      assert id in history' && file in history'[id].files;
    }
  }

  // ---------------------------------------------------------------- what later stores keep

  /** What a suspended run relies on, besides its own files. */
  ghost predicate Grows(s: Store, s': Store)
    requires TableInv(s) && TableInv(s')
  {
    && s'.grid == s.grid
    && PartOf(s.history, s'.history)
    && s.minted <= s'.minted
    && BoundaryNow(s) <= BoundaryNow(s')
    && (forall doomed: set<Id> :: DoomedInv(s.table, s.history, doomed) ==> DoomedInv(s'.table, s'.history, doomed))
  }

  /** A suspended run's files: still there, still unreferenced. */
  predicate Untouched(s: Store, s': Store, files: set<File>) {
    && (forall file :: file in files && !IsReferenced(s.history, file) ==> !IsReferenced(s'.history, file))
    && (forall file :: file in files && file in s.objects ==> file in s'.objects && s'.objects[file] == s.objects[file])
  }

  lemma PhaseKept(s: Store, s': Store, p: Phase)
    requires TableInv(s) && TableInv(s') && Grows(s, s')
    requires PhaseInv(s, p) && Untouched(s, s', p.Holds())
    ensures PhaseInv(s', p)
  {
    if p.Ready? || p.Lost? {
      RowsInSame(s.objects, s'.objects, p.files);
    }
  }

  /** Every phase but one run's, for a step of that run. */
  lemma PhasesKept(s: Store, s': Store, phases: map<Run, Phase>, run: Run, p: Phase)
    requires TableInv(s) && TableInv(s') && PhasesInv(s, phases) && Grows(s, s')
    requires forall other :: other in phases && other != run ==> Untouched(s, s', phases[other].Holds())
    requires PhaseInv(s', p)
    ensures PhasesInv(s', phases[run := p])
  {
    forall other | other in phases && other != run
      ensures PhaseInv(s', phases[other])
    {
      PhaseKept(s, s', phases[other]);
    }
  }

  lemma HoldLess(phases: map<Run, Phase>, run: Run, p: Phase)
    requires HoldApart(phases)
    requires p.Holds() <= if run in phases then phases[run].Holds() else {}
    ensures HoldApart(phases[run := p])
  {
  }

  // ---------------------------------------------------------------- steps that commit nothing

  /** A step that changes nothing but one run's phase. */
  lemma OwnPhaseStep(w: World, run: Run, p: Phase)
    requires Inv(w) && PhaseInv(w.store, p) && p.Holds() <= PhaseOf(w, run).Holds()
    requires PhaseOf(w, run).Finished? ==> p.Finished?
    ensures Inv(With(w, run, p))
  {
    HoldLess(w.phases, run, p);
  }

  lemma PlanStep(w: World, run: Run, now: int, lag: int)
    requires Inv(w) && Enabled(w, Plan(run, now, lag))
    ensures Inv(Apply(w, Plan(run, now, lag)))
  {
    var window := NextWindow(BoundaryNow(w.store), now, lag, w.store.grid).value.value;
    OwnPhaseStep(w, run, Planned(window));
  }

  lemma LoadStep(w: World, run: Run, summary: Summary)
    requires Inv(w) && SummaryInv(w.store, summary) && !PhaseOf(w, run).Finished?
    ensures Inv(With(w, run, Loaded(summary, w.store.table)))
  {
    OwnPhaseStep(w, run, Loaded(summary, w.store.table));
  }

  lemma ReloadStep(w: World, run: Run)
    requires Inv(w) && Enabled(w, Reload(run))
    ensures Inv(Apply(w, Reload(run)))
  {
    var p := PhaseOf(w, run);
    RunInv(w, run);
    OwnPhaseStep(w, run, Ready(p.summary, w.store.table, p.files, p.rows, p.attempt + 1));
  }

  lemma ReadReferencedStep(w: World, run: Run, referenced: set<File>)
    requires Inv(w) && Enabled(w, ReadReferenced(run, referenced))
    ensures Inv(Apply(w, ReadReferenced(run, referenced)))
  {
    RunInv(w, run);
    OwnPhaseStep(w, run, Cleaning(PhaseOf(w, run).files, referenced));
  }

  lemma ChooseExpiryStep(w: World, a: Action)
    requires Inv(w) && a.ChooseExpiry? && Enabled(w, a)
    ensures Inv(Apply(w, a))
  {
    DoomedIsOffPath(w.store, a.cutoff, a.retainLast);
    OwnPhaseStep(w, a.run, Expiring(a.doomed));
  }

  lemma DoomedIsOffPath(s: Store, cutoff: int, retainLast: nat)
    requires TableInv(s)
    ensures DoomedInv(s.table, s.history, Expiry.DoomedSet(s.table, cutoff, retainLast))
  {
    var doomed := Expiry.DoomedSet(s.table, cutoff, retainLast);
    if s.table.current.Some? {
      var n := PropertyWasFound(s.table, Boundary);
      var id, v := s.table.current.value, BoundaryNow(s);
      Expiry.PathIsTrail(s.table.snapshots, id, n, v);
      forall x | x in Path(s.table.snapshots, id, Boundary, n, v)
        ensures x !in doomed
      {
        assert Expiry.OnTrail(s.table, x);
      }
      assert ClearPath(s.table, doomed, n, v);
    }
  }

  /** What a run has just written is there, nobody's, and holds its rows. */
  lemma WrittenIsCarried(s: Store, p: Phase, written: Objects, rows: set<Row>)
    requires TableInv(s) && FileInv(s) && FreshFiles(s, written.Keys) && RowsIn(written, written.Keys) == multiset(rows)
    requires p.Loaded? && PhaseInv(s, p)
    ensures TableInv(Writing(s, written))
    ensures PhaseInv(Writing(s, written), Ready(p.summary, p.base, written.Keys, rows, 0))
  {
    RowsInSame(written, Writing(s, written).objects, written.Keys);
  }

  /** Names nobody used before are held by nobody else. */
  lemma HoldFresh(phases: map<Run, Phase>, minted: set<File>, run: Run, p: Phase)
    requires HoldApart(phases) && forall other :: other in phases ==> phases[other].Holds() <= minted
    requires p.Holds() !! minted
    ensures HoldApart(phases[run := p])
  {
  }

  /** A step that lands nothing, and leaves what a scan returns alone. */
  lemma SameLog(w: World, s': Store, phases': map<Run, Phase>)
    requires Inv(w) && TableInv(s') && FileInv(s') && PhasesInv(s', phases') && HoldApart(phases')
    requires s'.grid == w.store.grid && BoundaryNow(s') == BoundaryNow(w.store)
    requires PartOf(w.store.history, s'.history) && ColdRead(s') == ColdRead(w.store)
    requires forall run :: run in w.phases && w.phases[run].Finished? ==> run in phases' && phases'[run].Finished?
    ensures Inv(World(s', w.landed, phases'))
  {
    ReferencedStay(w.store.history, s'.history);
  }

  lemma WriteFilesStep(w: World, run: Run, written: Objects, rows: set<Row>)
    requires Inv(w) && Enabled(w, WriteFiles(run, written, rows))
    ensures Inv(Apply(w, WriteFiles(run, written, rows)))
  {
    var s' := Writing(w.store, written);
    var p := PhaseOf(w, run);
    var p' := Ready(p.summary, p.base, written.Keys, rows, 0);
    RunInv(w, run);
    WritingKeeps(w.store, written);
    WrittenIsCarried(w.store, p, written, rows);
    HeldIsMinted(w);
    HoldFresh(w.phases, w.store.minted, run, p');
    hide PhaseInv, HoldApart, FreshFiles, TableInv, FileInv, Grows;
    PhasesKept(w.store, s', w.phases, run, p');
    SameLog(w, s', w.phases[run := p']);
  }

  lemma HeldIsMinted(w: World)
    requires Inv(w)
    ensures forall run :: run in w.phases ==> w.phases[run].Holds() <= w.store.minted
  {
    forall run | run in w.phases
      ensures w.phases[run].Holds() <= w.store.minted
    {
      RunInv(w, run);
    }
  }

  lemma DeleteFileStep(w: World, run: Run, file: File)
    requires Inv(w) && Enabled(w, DeleteFile(run, file))
    ensures Inv(Apply(w, DeleteFile(run, file)))
  {
    hide RowsIn, ColdRead, TilingInv, OnceInv, LandedFilesInv, ReadInv;
    var s' := w.store.(objects := w.store.objects - {file});
    var p := Cleaning(PhaseOf(w, run).files - {file}, PhaseOf(w, run).referenced);
    RunInv(w, run);
    assert file in w.phases[run].Holds();
    assert !IsReferenced(w.store.history, file);
    PhasesKept(w.store, s', w.phases, run, p);
    HoldLess(w.phases, run, p);
    ReadSame(w.store, s');
    SameLog(w, s', w.phases[run := p]);
  }

  // ---------------------------------------------------------------- expiry

  /** Removing snapshots that are not on the way to the boundary. */
  lemma ExpireGrows(s: Store, gone: set<Id>)
    requires TableInv(s) && DoomedInv(s.table, s.history, gone)
    requires s.table.current.Some? ==> s.table.current.value !in gone
    ensures var s' := s.(table := Expiry.Without(s.table, gone));
            TableInv(s') && BoundaryNow(s') == BoundaryNow(s) && Grows(s, s')
  {
    var s' := s.(table := Expiry.Without(s.table, gone));
    if s.table.current.Some? {
      var id := s.table.current.value;
      var n: nat, v :| ClearPath(s.table, gone, n, v);
      ExpiryOffPathKeepsValue(s.table, gone, Boundary, n, v);
      FindsOffPath(s.table.snapshots, gone, id, Boundary, n, v);
      forall doomed: set<Id> | DoomedInv(s.table, s.history, doomed)
        ensures DoomedInv(s'.table, s'.history, doomed)
      {
        var m: nat, u :| ClearPath(s.table, doomed, m, u);
        FindsIsUnique(s.table.snapshots, id, Boundary, m, u, n, v);
        assert ClearPath(s'.table, doomed, n, v);
      }
    }
  }

  lemma SameFilesAndHistory(s: Store, s': Store)
    requires FileInv(s) && s'.history == s.history && s'.objects == s.objects && s'.minted == s.minted
    ensures FileInv(s')
  {
  }

  /** A table that lost snapshots but not its current one: same files, same rows, same tiles. */
  lemma ExpiredStore(s: Store, gone: set<Id>, landed: seq<Landed>)
    requires TableInv(s) && FileInv(s) && TilingInv(s, landed) && ReadInv(s, landed)
    requires s.table.current.Some? ==> s.table.current.value !in gone
    requires var s' := s.(table := Expiry.Without(s.table, gone)); TableInv(s') && BoundaryNow(s') == BoundaryNow(s)
    ensures var s' := s.(table := Expiry.Without(s.table, gone));
      FileInv(s') && TilingInv(s', landed) && ReadInv(s', landed)
  {
    var s' := s.(table := Expiry.Without(s.table, gone));
    assert s.table.Valid() && s'.table.Valid();
    hide RowsIn, ColdRows, Archived, Tiles, TableInv, BoundaryOf, BoundaryNow;
    SameFilesAndHistory(s, s');
    hide FileInv;
    assert LiveFiles(s'.table) == LiveFiles(s.table);
  }

  lemma ExpiringFacts(w: World, run: Run)
    requires Inv(w) && Enabled(w, Expire(run))
    ensures PhaseOf(w, run).Expiring?
    ensures var doomed := PhaseOf(w, run).doomed;
      && run in w.phases && DoomedInv(w.store.table, w.store.history, doomed)
      && (w.store.table.current.Some? ==> w.store.table.current.value !in doomed)
      && Apply(w, Expire(run)) ==
           World(w.store.(table := Expiry.Without(w.store.table, doomed)), w.landed, w.phases[run := Finished(Ended)])
  {
    hide FileInv, TilingInv, OnceInv, LandedFilesInv, ReadInv, HoldApart, DoomedInv;
    RunInv(w, run);
  }

  lemma EndedOnce(landed: seq<Landed>, phases: map<Run, Phase>, run: Run)
    requires OnceInv(landed, phases)
    ensures OnceInv(landed, phases[run := Finished(Ended)])
  {
  }

  lemma ExpireStep(w: World, run: Run)
    requires Inv(w) && Enabled(w, Expire(run))
    ensures Inv(Apply(w, Expire(run)))
    ensures BoundaryNow(Apply(w, Expire(run)).store) == BoundaryNow(w.store)
  {
    hide TableInv, FileInv, PhasesInv, HoldApart, TilingInv, OnceInv, LandedFilesInv, ReadInv, DoomedInv,
         Enabled, Apply, BoundaryNow, BoundaryOf, Grows, PhaseInv;
    ExpiringFacts(w, run);
    var doomed := PhaseOf(w, run).doomed;
    var s' := w.store.(table := Expiry.Without(w.store.table, doomed));
    ExpireGrows(w.store, doomed);
    ExpiredStore(w.store, doomed, w.landed);
    EndedFits(s');
    PhasesKept(w.store, s', w.phases, run, Finished(Ended));
    HoldLess(w.phases, run, Finished(Ended));
    EndedOnce(w.landed, w.phases, run);
  }

  lemma EndedFits(s: Store)
    requires TableInv(s)
    ensures PhaseInv(s, Finished(Ended))
  {
  }

  // ---------------------------------------------------------------- going on

  /** A step of this run that is not giving up. */
  predicate StepsOf(a: Action, run: Run) {
    !a.Abort? && !a.Foreign? && a.run == run
  }

  /** Nobody waits for anybody: whoever has begun, and has not come to its clean-up, can go on. */
  lemma NobodyWaits(w: World, run: Run)
    requires Inv(w) && run in w.phases
    requires var p := w.phases[run]; !p.Idle? && !p.Finished? && !p.Cleaning?
    ensures exists a :: StepsOf(a, run) && Enabled(w, a)
  {
    RunInv(w, run);
    var p := w.phases[run];
    var a := match p
      case Planned(_) => LoadForWindow(run)
      case Loaded(_, _) => WriteFiles(run, map[], {})
      case Ready(_, _, _, _, _) => Attempt(run, 0, 0, Failed(Unexpected, false))
      case Lost(_, _, _, _) => Reload(run)
      case Discarding(_) => ReadReferenced(run, {})
      case Expiring(_) => Expire(run);
    assert p.Loaded? ==> RowsIn(map[], {}) == multiset{};
    assert Enabled(w, a);
  }

  // ---------------------------------------------------------------- commits

  /** A snapshot committed on top of the current one states a boundary at least as late, or none. */
  predicate Forwards(s: Store, snapshot: Snapshot)
    requires TableInv(s)
  {
    && snapshot.parent == s.table.current
    && if Boundary in snapshot.props
       then OnGrid(snapshot.props[Boundary], s.grid) && snapshot.props[Boundary] >= BoundaryNow(s)
       else s.table.current.Some?
  }

  lemma CommitGrows(s: Store, id: Id, snapshot: Snapshot)
    requires TableInv(s) && id !in s.history && Forwards(s, snapshot)
    ensures TableInv(Committing(s, id, snapshot)) && Grows(s, Committing(s, id, snapshot))
    ensures BoundaryNow(Committing(s, id, snapshot)) ==
            if Boundary in snapshot.props then snapshot.props[Boundary] else BoundaryNow(s)
  {
    var t' := Committing(s, id, snapshot).table;
    if Boundary in snapshot.props {
      PropertyIsFound(t', Boundary, 0, snapshot.props[Boundary]);
    } else {
      CommitKeepsUnstatedProperty(s.table, id, snapshot, Boundary);
    }
    forall doomed: set<Id> | DoomedInv(s.table, s.history, doomed)
      ensures DoomedInv(t', s.history[id := snapshot], doomed)
    {
      CommitKeepsDoomed(s, id, snapshot, doomed);
    }
  }

  lemma CommitKeepsDoomed(s: Store, id: Id, snapshot: Snapshot, doomed: set<Id>)
    requires TableInv(s) && id !in s.history && Forwards(s, snapshot)
    requires DoomedInv(s.table, s.history, doomed)
    ensures DoomedInv(Committing(s, id, snapshot).table, s.history[id := snapshot], doomed)
  {
    var t' := Committing(s, id, snapshot).table;
    if Boundary in snapshot.props {
      assert ClearPath(t', doomed, 0, snapshot.props[Boundary]);
    } else {
      var n: nat, v :| ClearPath(s.table, doomed, n, v);
      FindsInWhole(s.table.snapshots, t'.snapshots, s.table.current.value, Boundary, n, v);
      assert ClearPath(t', doomed, n + 1, v);
    }
  }

  /** A file that neither the current snapshot nor the commit mentions is as unreferenced as before. */
  lemma NotInCommit(s: Store, id: Id, snapshot: Snapshot, files: set<File>, file: File)
    requires TableInv(s) && snapshot.files <= LiveFiles(s.table) + files && file !in files
    requires !IsReferenced(s.history, file)
    ensures !IsReferenced(s.history[id := snapshot], file)
  {
    LiveIsReferenced(s);
  }

  lemma CommitKeepsPhases(s: Store, phases: map<Run, Phase>, id: Id, snapshot: Snapshot, files: set<File>, run: Run,
                          p: Phase)
    requires TableInv(s) && PhasesInv(s, phases) && id !in s.history && Forwards(s, snapshot)
    requires snapshot.files <= LiveFiles(s.table) + files
    requires forall other :: other in phases && other != run ==> phases[other].Holds() !! files
    requires TableInv(Committing(s, id, snapshot)) && PhaseInv(Committing(s, id, snapshot), p)
    ensures PhasesInv(Committing(s, id, snapshot), phases[run := p])
  {
    var s' := Committing(s, id, snapshot);
    CommitGrows(s, id, snapshot);
    forall other | other in phases && other != run
      ensures Untouched(s, s', phases[other].Holds())
    {
      forall file | file in phases[other].Holds() && !IsReferenced(s.history, file)
        ensures !IsReferenced(s'.history, file)
      {
        NotInCommit(s, id, snapshot, files, file);
      }
    }
    PhasesKept(s, s', phases, run, p);
  }

  lemma CommitKeepsFiles(s: Store, id: Id, snapshot: Snapshot)
    requires FileInv(s) && snapshot.files <= s.objects.Keys && snapshot.files <= s.minted
    ensures FileInv(Committing(s, id, snapshot))
  {
  }

  lemma WritingKeepsStore(s: Store, written: Objects)
    requires TableInv(s) && FileInv(s) && FreshFiles(s, written.Keys)
    ensures TableInv(Writing(s, written)) && FileInv(Writing(s, written)) && Grows(s, Writing(s, written))
  {
  }

  lemma WritingTouchesNothing(s: Store, written: Objects, held: set<File>)
    requires FreshFiles(s, written.Keys)
    ensures Untouched(s, Writing(s, written), held)
  {
  }

  lemma WritingKeeps(s: Store, written: Objects)
    requires TableInv(s) && FileInv(s) && FreshFiles(s, written.Keys)
    ensures TableInv(Writing(s, written)) && FileInv(Writing(s, written)) && Grows(s, Writing(s, written))
    ensures forall held: set<File> :: Untouched(s, Writing(s, written), held)
    ensures ColdRead(Writing(s, written)) == ColdRead(s)
  {
    WritingKeepsStore(s, written);
    forall held: set<File> ensures Untouched(s, Writing(s, written), held) {
      WritingTouchesNothing(s, written, held);
    }
    hide Untouched, Grows, ColdRead;
    ReadSame(s, Writing(s, written));
  }

  /** Others' phases while a store that only commits changes. */
  lemma AllPhasesKept(s: Store, phases: map<Run, Phase>, id: Id, snapshot: Snapshot, files: set<File>)
    requires TableInv(s) && PhasesInv(s, phases) && id !in s.history && Forwards(s, snapshot)
    requires snapshot.files <= LiveFiles(s.table) + files
    requires forall run :: run in phases ==> phases[run].Holds() !! files
    requires TableInv(Committing(s, id, snapshot))
    ensures PhasesInv(Committing(s, id, snapshot), phases)
  {
    var nobody := UnusedRun(phases);
    CommitKeepsPhases(s, phases, id, snapshot, files, nobody, Idle);
    assert phases[nobody := Idle] - {nobody} == phases;
  }

  lemma ForeignStep(w: World, id: Id, kept: set<File>, written: Objects, at: int)
    requires Inv(w) && Enabled(w, Foreign(id, kept, written, at))
    ensures Inv(Apply(w, Foreign(id, kept, written, at)))
    ensures BoundaryNow(Apply(w, Foreign(id, kept, written, at)).store) == BoundaryNow(w.store)
  {
    hide RowsIn, TilingInv, OnceInv, LandedFilesInv, ReadInv;
    var files := kept + written.Keys;
    var snapshot := ForeignSnapshot(w.store, files, at);
    var s := Writing(w.store, written);
    HeldIsMinted(w);
    WritingKeeps(w.store, written);
    forall run | run in w.phases
      ensures PhaseInv(s, w.phases[run])
    {
      PhaseKept(w.store, s, w.phases[run]);
    }
    CommitGrows(s, id, snapshot);
    LiveIsReferenced(w.store);
    CommitKeepsFiles(s, id, snapshot);
    AllPhasesKept(s, w.phases, id, snapshot, written.Keys);
    SameLog(w, Committing(s, id, snapshot), w.phases);
  }

  /** A run that has not started. */
  lemma UnusedRun(phases: map<Run, Phase>) returns (run: Run)
    ensures run !in phases
  {
    var n := Above(phases.Keys);
    run := n;
  }

  // ---------------------------------------------------------------- landing

  /**
   An attempt that lands does so on the boundary it was derived from: a correction
   republishes it, and an archival window starts on it.
   */
  lemma LandsOnCurrentBoundary(w: World, run: Run, boundary: int)
    requires Inv(w) && PhaseOf(w, run).Ready? && PhaseOf(w, run).base.current == w.store.table.current
    requires PhaseOf(w, run).base.Valid()
    requires PublishedBoundary(PhaseOf(w, run).summary, PhaseOf(w, run).base) == Success(boundary)
    ensures var summary := PhaseOf(w, run).summary;
            if summary.Preserve? then boundary == BoundaryNow(w.store)
            else summary.window.from == BoundaryNow(w.store)
                 && boundary == summary.window.to == BoundaryNow(w.store) + w.store.grid
    ensures LiveFiles(PhaseOf(w, run).base) == LiveFiles(w.store.table)
  {
    var p := PhaseOf(w, run);
    RunInv(w, run);
    SameCurrentSameBoundary(p.base, w.store.table, w.store.history);
    if p.summary.Advance? {
      OnlyNextTileFits(p.summary.window, BoundaryNow(w.store), w.store.grid);
    }
  }

  /** The archived windows after one more append. */
  lemma ArchivedAppend(landed: seq<Landed>, last: Landed)
    ensures Archived(landed + [last]) ==
            Archived(landed) + if last.summary.Advance? then [last.summary.window] else []
  {
    assert (landed + [last])[..|landed|] == landed;
  }

  lemma TilesAppend(windows: seq<Window>, step: int)
    requires Tiles(windows, 0, step)
    ensures Tiles(windows + [Window(|windows| * step, |windows| * step + step)], 0, step)
    ensures |windows + [Window(0, 0)]| * step == |windows| * step + step
  {
  }

  lemma LandingKeepsTiling(s: Store, s': Store, landed: seq<Landed>, last: Landed)
    requires TableInv(s) && TableInv(s') && TilingInv(s, landed) && s'.grid == s.grid
    requires BoundaryNow(s') == BoundaryNow(s) + if last.summary.Preserve? then 0 else s.grid
    requires last.summary.Advance? ==> last.summary.window == Window(BoundaryNow(s), BoundaryNow(s) + s.grid)
    ensures TilingInv(s', landed + [last])
  {
    ArchivedAppend(landed, last);
    if last.summary.Preserve? {
      assert Archived(landed + [last]) == Archived(landed);
    } else {
      TilesAppend(Archived(landed), s.grid);
    }
  }

  lemma LandingKeepsLanded(s: Store, landed: seq<Landed>, id: Id, snapshot: Snapshot, last: Landed)
    requires LandedFilesInv(s.history, landed) && id !in s.history
    requires last.files <= snapshot.files && Unreferenced(s.history, last.files)
    ensures LandedFilesInv(s.history[id := snapshot], landed + [last])
  {
    var history' := s.history[id := snapshot];
    ReferencedStay(s.history, history');
    forall file | file in last.files
      ensures IsReferenced(history', file)
    {
      assert id in history' && file in history'[id].files;
    }
  }

  lemma LandingKeepsOnce(landed: seq<Landed>, phases: map<Run, Phase>, last: Landed, p: Phase)
    requires OnceInv(landed, phases) && p.Finished?
    requires last.run in phases && !phases[last.run].Finished?
    ensures OnceInv(landed + [last], phases[last.run := p])
  {
  }

  lemma LandingKeepsStore(s: Store, id: Id, snapshot: Snapshot, files: set<File>)
    requires TableInv(s) && FileInv(s) && id !in s.history && Forwards(s, snapshot)
    requires files <= s.objects.Keys && files <= s.minted && snapshot.files == LiveFiles(s.table) + files
    requires Boundary in snapshot.props
    ensures TableInv(Committing(s, id, snapshot)) && FileInv(Committing(s, id, snapshot))
    ensures BoundaryNow(Committing(s, id, snapshot)) == snapshot.props[Boundary]
  {
    CommitGrows(s, id, snapshot);
    LiveIsReferenced(s);
    CommitKeepsFiles(s, id, snapshot);
  }

  /** The rows a landing adds to a scan are its own. */
  lemma LandingKeepsRead(s: Store, id: Id, snapshot: Snapshot, landed: seq<Landed>, last: Landed)
    requires TableInv(s) && ReadInv(s, landed) && TableInv(Committing(s, id, snapshot))
    requires snapshot.files == LiveFiles(s.table) + last.files
    requires Carries(s, last.files, last.rows) && Unreferenced(s.history, last.files)
    ensures ReadInv(Committing(s, id, snapshot), landed + [last])
  {
    LiveIsReferenced(s);
    RowsInBoth(s.objects, LiveFiles(s.table), last.files);
    ColdRowsAppend(landed, last);
  }

  lemma ColdRowsAppend(landed: seq<Landed>, last: Landed)
    ensures ColdRows(landed + [last]) == ColdRows(landed) + multiset(last.rows)
  {
    assert (landed + [last])[..|landed|] == landed;
  }

  /** An append by a run that then ends, on a boundary no earlier than the current one. */
  lemma LandingKeepsInv(w: World, id: Id, snapshot: Snapshot, last: Landed, p: Phase)
    requires Inv(w) && id !in w.store.history && Forwards(w.store, snapshot)
    requires last.run in w.phases && w.phases[last.run].Holds() == last.files && !w.phases[last.run].Finished?
    requires p.Finished? && Carries(w.store, last.files, last.rows) && HeldInv(w.store, last.files)
    requires snapshot.files == LiveFiles(w.store.table) + last.files && Boundary in snapshot.props
    requires snapshot.props[Boundary] == BoundaryNow(w.store) + if last.summary.Preserve? then 0 else w.store.grid
    requires last.summary.Advance? ==>
               last.summary.window == Window(BoundaryNow(w.store), BoundaryNow(w.store) + w.store.grid)
    ensures Inv(World(Committing(w.store, id, snapshot), w.landed + [last], w.phases[last.run := p]))
  {
    LandingKeepsStore(w.store, id, snapshot, last.files);
    CommitKeepsPhases(w.store, w.phases, id, snapshot, last.files, last.run, p);
    HoldLess(w.phases, last.run, p);
    LandingKeepsTiling(w.store, Committing(w.store, id, snapshot), w.landed, last);
    LandingKeepsLanded(w.store, w.landed, id, snapshot, last);
    LandingKeepsOnce(w.landed, w.phases, last, p);
    LandingKeepsRead(w.store, id, snapshot, w.landed, last);
  }

  lemma LandingStep(w: World, run: Run, id: Id, at: int, answer: Answer, boundary: int)
    requires Inv(w) && Enabled(w, Attempt(run, id, at, answer)) && answer.Applied()
    requires PublishedBoundary(PhaseOf(w, run).summary, PhaseOf(w, run).base) == Success(boundary)
    ensures Inv(Apply(w, Attempt(run, id, at, answer)))
    ensures BoundaryNow(Apply(w, Attempt(run, id, at, answer)).store) == boundary >= BoundaryNow(w.store)
  {
    hide RowsIn, ColdRead, TilingInv, OnceInv, LandedFilesInv, ReadInv, HoldApart, FileInv, PublishedBoundary;
    var p := PhaseOf(w, run);
    var last := Landed(run, p.summary, p.files, p.rows, boundary);
    var snapshot := Appended(p.base, SummaryProps(p.summary, boundary), p.files, at);
    RunInv(w, run);
    LandsOnCurrentBoundary(w, run, boundary);
    NextGridPoint(BoundaryNow(w.store), w.store.grid);
    CommitGrows(w.store, id, snapshot);
    LandingKeepsInv(w, id, snapshot, last, AfterAnswer(p, boundary, answer));
  }

  lemma AttemptStep(w: World, run: Run, id: Id, at: int, answer: Answer)
    requires Inv(w) && Enabled(w, Attempt(run, id, at, answer))
    ensures Inv(Apply(w, Attempt(run, id, at, answer)))
    ensures BoundaryNow(w.store) <= BoundaryNow(Apply(w, Attempt(run, id, at, answer)).store)
  {
    var p := PhaseOf(w, run);
    RunInv(w, run);
    match PublishedBoundary(p.summary, p.base)
    case Failure(why) =>
      OwnPhaseStep(w, run, Finished(Refused(why)));
    case Success(boundary) =>
      if answer.Applied() {
        LandingStep(w, run, id, at, answer, boundary);
      } else {
        OwnPhaseStep(w, run, AfterAnswer(p, boundary, answer));
      }
  }

  // ---------------------------------------------------------------- every step, every run

  lemma StepKeepsInv(w: World, a: Action)
    requires Inv(w) && Enabled(w, a)
    ensures Inv(Apply(w, a))
  {
    match a
    case Plan(run, now, lag) => PlanStep(w, run, now, lag);
    case LoadForWindow(run) =>
      RunInv(w, run);
      LoadStep(w, run, Advance(PhaseOf(w, run).window, w.store.grid));
    case LoadForCorrection(run) => LoadStep(w, run, Preserve);
    case WriteFiles(run, written, rows) => WriteFilesStep(w, run, written, rows);
    case Attempt(run, id, at, answer) => AttemptStep(w, run, id, at, answer);
    case Reload(run) => ReloadStep(w, run);
    case ReadReferenced(run, referenced) => ReadReferencedStep(w, run, referenced);
    case DeleteFile(run, file) => DeleteFileStep(w, run, file);
    case Abort(run) => OwnPhaseStep(w, run, Finished(Ended));
    case Foreign(id, kept, written, at) => ForeignStep(w, id, kept, written, at);
    case ChooseExpiry(_, _, _, _) => ChooseExpiryStep(w, a);
    case Expire(run) => ExpireStep(w, run);
  }

  /** No step moves the boundary backwards or forgets what landed. */
  lemma StepOnlyAdvances(w: World, a: Action)
    requires Inv(w) && Enabled(w, a) && Inv(Apply(w, a))
    ensures BoundaryNow(w.store) <= BoundaryNow(Apply(w, a).store)
    ensures w.landed <= Apply(w, a).landed && Apply(w, a).store.grid == w.store.grid
  {
    match a
    case Attempt(run, id, at, answer) => AttemptStep(w, run, id, at, answer);
    case Foreign(id, kept, written, at) => ForeignStep(w, id, kept, written, at);
    case Expire(run) => ExpireStep(w, run);
    case _ =>
  }

  lemma {:induction false} ColdRowsGrow(landed: seq<Landed>, landed': seq<Landed>)
    requires landed <= landed'
    ensures ColdRows(landed) <= ColdRows(landed')
    decreases |landed'|
  {
    if landed != landed' {
      ColdRowsGrow(landed, landed'[..|landed'| - 1]);
    }
  }

  /**
   Over every run: the invariant holds, the boundary never decreases, and what landed stays
   landed and stays readable: a scan returns it, and nothing else.
   */
  lemma {:induction false} RunKeepsInv(w: World, actions: seq<Action>)
    requires Inv(w) && ValidRun(w, actions)
    ensures Inv(Exec(w, actions))
    ensures BoundaryNow(w.store) <= BoundaryNow(Exec(w, actions).store)
    ensures w.landed <= Exec(w, actions).landed && Exec(w, actions).store.grid == w.store.grid
    ensures ColdRead(w.store) <= ColdRead(Exec(w, actions).store) == ColdRows(Exec(w, actions).landed)
    decreases |actions|
  {
    if actions != [] {
      StepKeepsInv(w, actions[0]);
      StepOnlyAdvances(w, actions[0]);
      RunKeepsInv(Apply(w, actions[0]), actions[1..]);
      ColdRowsGrow(w.landed, Apply(w, actions[0]).landed);
    }
  }

  // ---------------------------------------------------------------- the promises

  /**
   In every interleaving of archivers, corrections, expiry and foreign commits, the
   windows that landed are `[0, grid)`, `[grid, 2 * grid)`, ... up to the boundary:
   none overlaps, none is skipped, none landed twice.
   */
  lemma ArchivedWindowsTile(grid: int, actions: seq<Action>)
    requires WholeStep(grid) && ValidRun(Initial(grid), actions)
    ensures var w := Exec(Initial(grid), actions);
            && w.store.table.Valid() && BoundaryOf(w.store.table).Success?
            && Tiles(Archived(w.landed), 0, grid)
            && |Archived(w.landed)| * grid == BoundaryNow(w.store)
  {
    InitialInv(grid);
    RunKeepsInv(Initial(grid), actions);
  }

  /** No run ever lands twice, and no data file is appended by two landings. */
  lemma RunsLandOnce(grid: int, actions: seq<Action>, i: nat, j: nat)
    requires WholeStep(grid) && ValidRun(Initial(grid), actions)
    requires i < j < |Exec(Initial(grid), actions).landed|
    ensures var landed := Exec(Initial(grid), actions).landed;
            landed[i].run != landed[j].run && landed[i].files !! landed[j].files
  {
    InitialInv(grid);
    RunKeepsInv(Initial(grid), actions);
  }

  /**
   A data file that any committed snapshot references is in the object store, however
   many runs failed, and whatever the re-read before a deletion answered.
   */
  lemma ReferencedFilesSurvive(grid: int, actions: seq<Action>, id: Id, file: File)
    requires WholeStep(grid) && ValidRun(Initial(grid), actions)
    requires id in Exec(Initial(grid), actions).store.history
    requires file in Exec(Initial(grid), actions).store.history[id].files
    ensures file in Exec(Initial(grid), actions).store.objects
  {
    hide ValidRun, Exec, TableInv, PhasesInv, TilingInv, OnceInv, LandedFilesInv, ReadInv, HoldApart;
    InitialInv(grid);
    RunKeepsInv(Initial(grid), actions);
    assert FileInv(Exec(Initial(grid), actions).store);
  }

  /** A correction lands by republishing the boundary of the base it really lands on. */
  lemma CorrectionRepublishesBoundary(w: World, run: Run, id: Id, at: int, answer: Answer)
    requires Inv(w) && Enabled(w, Attempt(run, id, at, answer)) && answer.Applied()
    requires PhaseOf(w, run).summary.Preserve?
    ensures var w' := Apply(w, Attempt(run, id, at, answer));
            && w'.store.table.Valid() && w'.store.table.current == Some(id)
            && w'.store.table.snapshots[id].props == map[Boundary := BoundaryNow(w.store)]
            && BoundaryOf(w'.store.table) == BoundaryOf(w.store.table)
            && w'.landed[|w'.landed| - 1].boundary == BoundaryNow(w.store)
  {
    RunInv(w, run);
    LandsOnCurrentBoundary(w, run, BoundaryOf(PhaseOf(w, run).base).value);
    LandingStep(w, run, id, at, answer, BoundaryNow(w.store));
  }

  /** And it leaves the archival step as it reads. */
  lemma CorrectionKeepsStep(w: World, run: Run, id: Id, at: int, answer: Answer)
    requires Inv(w) && Enabled(w, Attempt(run, id, at, answer)) && answer.Applied()
    requires PhaseOf(w, run).summary.Preserve?
    ensures var w' := Apply(w, Attempt(run, id, at, answer));
            w'.store.table.Valid() && StepOf(w'.store.table) == StepOf(w.store.table)
  {
    CorrectionRepublishesBoundary(w, run, id, at, answer);
    RunInv(w, run);
    hide TilingInv, OnceInv, LandedFilesInv, ReadInv, FileInv, HoldApart, PhasesInv, PhaseInv, StepOf, BoundaryOf;
    var snapshot := Apply(w, Attempt(run, id, at, answer)).store.table.snapshots[id];
    if w.store.table.current.Some? {
      CommitKeepsUnstatedProperty(w.store.table, id, snapshot, Step);
    } else {
      NothingIsStated(w.store.table, id, snapshot);
    }
  }

  /** The first snapshot of a table has nothing to inherit. */
  lemma NothingIsStated(t: Table, id: Id, added: Snapshot)
    requires t.Valid() && t.current.None? && id !in t.snapshots && added.parent.None? && Step !in added.props
    ensures var after := Table(t.snapshots[id := added], Some(id));
            after.Valid() && StepOf(after) == StepOf(t) == Success(None)
  {
    var after := Table(t.snapshots[id := added], Some(id));
    if SummaryProperty(after, Step).Some? {
      var n := PropertyWasFound(after, Step);
    }
  }

  /** An archiver states the step its windows are cut on beside the boundary it moves to. */
  lemma AdvanceStatesItsStep(w: World, run: Run, id: Id, at: int, answer: Answer)
    requires Inv(w) && Enabled(w, Attempt(run, id, at, answer)) && answer.Applied()
    requires PhaseOf(w, run).summary.Advance?
    requires PublishedBoundary(PhaseOf(w, run).summary, PhaseOf(w, run).base).Success?
    ensures var w' := Apply(w, Attempt(run, id, at, answer));
            && w'.store.table.Valid()
            && StepOf(w'.store.table) == Success(Some(w.store.grid))
            && BoundaryOf(w'.store.table) == Success(PhaseOf(w, run).summary.window.to)
  {
    RunInv(w, run);
    var p := PhaseOf(w, run);
    var boundary := PublishedBoundary(p.summary, p.base).value;
    LandingStep(w, run, id, at, answer, boundary);
    assert p.summary.step == w.store.grid && boundary == p.summary.window.to;
    var after := Apply(w, Attempt(run, id, at, answer)).store.table;
    assert after.Valid() && after.current == Some(id);
    assert after.snapshots[id].props == map[Boundary := boundary, Step := w.store.grid];
    assert WholeStep(w.store.grid);
    hide *;
    PropertiesOfTheCurrent(after, id, boundary, w.store.grid);
  }

  lemma PropertiesOfTheCurrent(t: Table, id: Id, boundary: int, step: int)
    requires t.Valid() && t.current == Some(id) && WholeStep(step)
    requires t.snapshots[id].props == map[Boundary := boundary, Step := step]
    ensures StepOf(t) == Success(Some(step)) && BoundaryOf(t) == Success(boundary)
  {
    PropertyIsFound(t, Step, 0, step);
    PropertyIsFound(t, Boundary, 0, boundary);
  }

  /**
   An archiver standing on the current snapshot goes through exactly when its window
   is the next one. If somebody archived it in the meantime it is turned away.
   */
  lemma ArchiverLandsIffWindowIsNext(w: World, run: Run)
    requires Inv(w) && PhaseOf(w, run).Ready? && PhaseOf(w, run).summary.Advance?
    requires PhaseOf(w, run).base.Valid() && PhaseOf(w, run).base.current == w.store.table.current
    ensures var p := PhaseOf(w, run);
            var published := PublishedBoundary(p.summary, p.base);
            && (published == Success(p.summary.window.to) <==> p.summary.window.from == BoundaryNow(w.store))
            && (published == Failure(WindowAlreadyCommitted) <==> p.summary.window.to <= BoundaryNow(w.store))
            && (published.Success? <==> p.summary.window.from == BoundaryNow(w.store))
  {
    var p := PhaseOf(w, run);
    RunInv(w, run);
    SameCurrentSameBoundary(p.base, w.store.table, w.store.history);
    if p.summary.window.to > BoundaryNow(w.store) {
      OnlyNextTileFits(p.summary.window, BoundaryNow(w.store), w.store.grid);
    }
  }

  // ---------------------------------------------------------------- why the retry re-derives

  /** A retry that reuses the summary it was first built with, on whatever is current now. */
  function RetriedWithFixedSummary(w: World, run: Run, id: Id, at: int): Store
    requires w.store.table.Valid() && PhaseOf(w, run).Ready? && PhaseOf(w, run).base.Valid()
    requires BoundaryOf(PhaseOf(w, run).base).Success?
  {
    var p := PhaseOf(w, run);
    Committing(w.store, id,
               Appended(w.store.table, SummaryProps(Preserve, BoundaryOf(p.base).value), p.files, at))
  }

  /**
   Such a retry moves the boundary backwards exactly when the boundary moved after
   the correction loaded its base.
   */
  lemma FixedSummaryRetryRegresses(w: World, run: Run, id: Id, at: int)
    requires Inv(w) && PhaseOf(w, run).Ready? && PhaseOf(w, run).summary.Preserve?
    requires PhaseOf(w, run).base.Valid() && BoundaryOf(PhaseOf(w, run).base).Success? && id !in w.store.history
    ensures var after, was := RetriedWithFixedSummary(w, run, id, at).table, BoundaryOf(PhaseOf(w, run).base).value;
            && after.Valid() && BoundaryOf(after) == Success(was)
            && (BoundaryOf(after).value < BoundaryNow(w.store) <==> was != BoundaryNow(w.store))
  {
    var after := RetriedWithFixedSummary(w, run, id, at).table;
    RunInv(w, run);
    PropertyIsFound(after, Boundary, 0, BoundaryOf(PhaseOf(w, run).base).value);
  }

  /** A correction stands on the current snapshot, and an archiver's window is about to land. */
  ghost predicate WindowOvertakes(w: World, correction: Run, archiver: Run, id: Id)
    requires Inv(w)
  {
    && correction != archiver
    && PhaseOf(w, correction).Ready? && PhaseOf(w, correction).summary.Preserve?
    && PhaseOf(w, correction).base == w.store.table
    && PhaseOf(w, archiver).Ready? && PhaseOf(w, archiver).summary.Advance?
    && Enabled(w, Attempt(archiver, id, 0, Committed))
    && PublishedBoundary(PhaseOf(w, archiver).summary, PhaseOf(w, archiver).base).Success?
  }

  /**
   Whenever a window lands between a correction loading its base and retrying, the
   fixed retry takes the boundary back by the whole window.
   */
  lemma FixedSummaryRetryLosesWindow(w: World, correction: Run, archiver: Run, id: Id, retryId: Id)
    requires Inv(w) && WindowOvertakes(w, correction, archiver, id)
    requires id != retryId && retryId !in w.store.history
    ensures var w' := Apply(w, Attempt(archiver, id, 0, Committed));
            && Inv(w') && BoundaryNow(w'.store) == BoundaryNow(w.store) + w.store.grid
            && PhaseOf(w', correction) == PhaseOf(w, correction)
            && RetriedWithFixedSummary(w', correction, retryId, 0).table.Valid()
            && BoundaryOf(RetriedWithFixedSummary(w', correction, retryId, 0).table) == BoundaryOf(w.store.table)
  {
    hide RowsIn, ColdRead, TilingInv, OnceInv, LandedFilesInv, ReadInv, FileInv, HoldApart;
    var boundary := PublishedBoundary(PhaseOf(w, archiver).summary, PhaseOf(w, archiver).base).value;
    LandsOnCurrentBoundary(w, archiver, boundary);
    LandingStep(w, archiver, id, 0, Committed, boundary);
    FixedSummaryRetryRegresses(Apply(w, Attempt(archiver, id, 0, Committed)), correction, retryId, 0);
  }

  const DAY: int := 86_400 * NANOS_PER_SECOND

  lemma OneFile(file: File, rows: multiset<Row>)
    ensures RowsIn(map[file := rows], {file}) == rows
  {
    RowsInRemove(map[file := rows], {file}, file);
    assert {file} - {file} == {};
  }

  lemma Do(w: World, actions: seq<Action>, a: Action) returns (more: seq<Action>)
    requires ValidRun(w, actions) && Exec(w, actions).store.table.Valid() && Enabled(Exec(w, actions), a)
    ensures more == actions + [a] && ValidRun(w, more) && Exec(w, more) == Apply(Exec(w, actions), a)
  {
    OneMore(Exec(w, actions), [a]);
    RunsCompose(w, actions, [a]);
    more := actions + [a];
  }

  const CORRECTED := Row(1, -1)
  const METERED := Row(2, 0)

  /** A correction has written its file and is about to commit; nothing has been archived yet. */
  function CorrectionWaiting(): World {
    World(Store(DAY, Table(map[], None), map[], map[10 := multiset{CORRECTED}], {10}), [],
          map[1 := Ready(Preserve, Table(map[], None), {10}, {CORRECTED}, 0)])
  }

  lemma CorrectionSteps(w: World)
    requires w == Initial(DAY)
    ensures var loaded := With(w, 1, Loaded(Preserve, w.store.table));
      var write := WriteFiles(1, map[10 := multiset{CORRECTED}], {CORRECTED});
      && Enabled(w, LoadForCorrection(1)) && Apply(w, LoadForCorrection(1)) == loaded
      && Enabled(loaded, write) && Apply(loaded, write) == CorrectionWaiting()
  {
    OneFile(10, multiset{CORRECTED});
    assert map[10 := multiset{CORRECTED}].Keys == {10};
    hide RowsIn;
  }

  lemma CorrectionWaits() returns (actions: seq<Action>)
    ensures ValidRun(Initial(DAY), actions) && Exec(Initial(DAY), actions) == CorrectionWaiting()
  {
    var start := Initial(DAY);
    CorrectionSteps(start);
    assert ValidRun(start, []) && Exec(start, []) == start;
    hide ValidRun, Exec, Apply, Enabled;
    actions := Do(start, [], LoadForCorrection(1));
    actions := Do(start, actions, WriteFiles(1, map[10 := multiset{CORRECTED}], {CORRECTED}));
  }

  /** An archiver has written the first day's window into `file`, on the empty table. */
  function WithArchiver(w: World, run: Run, file: File): World {
    World(w.store.(objects := w.store.objects + map[file := multiset{METERED}], minted := w.store.minted + {file}),
          w.landed, w.phases[run := Ready(Advance(Window(0, DAY), DAY), Table(map[], None), {file}, {METERED}, 0)])
  }

  /** The three steps of an archiver on the empty table. */
  lemma ArchiverPlans(w: World, run: Run)
    requires w.store.table == Table(map[], None) && w.store.grid == DAY && run !in w.phases
    ensures Enabled(w, Plan(run, DAY, 0)) && Apply(w, Plan(run, DAY, 0)) == With(w, run, Planned(Window(0, DAY)))
  {
    AlignedIffOnGrid(0, DAY);
    assert NextWindow(0, DAY, 0, DAY) == Success(Some(Window(0, DAY)));
  }

  lemma ArchiverLoads(w: World, run: Run)
    requires w.store.table == Table(map[], None) && w.store.grid == DAY
    ensures var planned := With(w, run, Planned(Window(0, DAY)));
      && Enabled(planned, LoadForWindow(run))
      && Apply(planned, LoadForWindow(run)) == With(w, run, Loaded(Advance(Window(0, DAY), DAY), w.store.table))
  {
  }

  lemma ArchiverWrites(w: World, run: Run, file: File)
    requires w.store.table == Table(map[], None) && FreshFiles(w.store, {file})
    ensures var loaded := With(w, run, Loaded(Advance(Window(0, DAY), DAY), w.store.table));
      var write := WriteFiles(run, map[file := multiset{METERED}], {METERED});
      Enabled(loaded, write) && Apply(loaded, write) == WithArchiver(w, run, file)
  {
    OneFile(file, multiset{METERED});
    assert map[file := multiset{METERED}].Keys == {file};
    var loaded := With(w, run, Loaded(Advance(Window(0, DAY), DAY), w.store.table));
    var ready := Ready(Advance(Window(0, DAY), DAY), w.store.table, {file}, {METERED}, 0);
    assert loaded.phases[run := ready] == w.phases[run := ready];
    hide RowsIn, BoundaryOf, TableInv;
  }

  lemma ArchiverWaits(start: World, actions: seq<Action>, run: Run, file: File) returns (more: seq<Action>)
    requires ValidRun(start, actions)
    requires var w := Exec(start, actions);
      && w.store.table == Table(map[], None) && w.store.grid == DAY && run !in w.phases && FreshFiles(w.store, {file})
    ensures ValidRun(start, more) && Exec(start, more) == WithArchiver(Exec(start, actions), run, file)
  {
    var w := Exec(start, actions);
    ArchiverPlans(w, run);
    ArchiverLoads(w, run);
    ArchiverWrites(w, run, file);
    hide ValidRun, Exec, Apply, Enabled;
    more := Do(start, actions, Plan(run, DAY, 0));
    more := Do(start, more, LoadForWindow(run));
    more := Do(start, more, WriteFiles(run, map[file := multiset{METERED}], {METERED}));
  }

  /** An archiver of the first day stands on the empty table, ready to publish the end of the day. */
  lemma ArchiverIsReady(w: World, run: Run, file: File)
    requires w.store.table == Table(map[], None) && file !in w.store.minted
    ensures var p := PhaseOf(WithArchiver(w, run, file), run);
      && p.Ready? && p.summary == Advance(Window(0, DAY), DAY) && p.base == w.store.table && p.rows == {METERED}
      && PublishedBoundary(p.summary, p.base) == Success(DAY)
  {
  }

  /** An ordinary run from the empty table gets a correction and an archiver there. */
  lemma OvertakingIsReachable() returns (actions: seq<Action>)
    ensures ValidRun(Initial(DAY), actions) && Inv(Exec(Initial(DAY), actions))
    ensures WindowOvertakes(Exec(Initial(DAY), actions), 1, 2, 5)
  {
    hide ValidRun, Exec, Inv, WindowOvertakes;
    actions := CorrectionWaits();
    actions := ArchiverWaits(Initial(DAY), actions, 2, 20);
    InitialInv(DAY);
    RunKeepsInv(Initial(DAY), actions);
    OneWaitsForTheOther(WithArchiver(CorrectionWaiting(), 2, 20));
  }

  lemma OneWaitsForTheOther(w: World)
    requires w == WithArchiver(CorrectionWaiting(), 2, 20) && Inv(w)
    ensures WindowOvertakes(w, 1, 2, 5)
  {
    hide Inv, PublishedBoundary;
    ArchiverIsReady(CorrectionWaiting(), 2, 20);
  }

  // ---------------------------------------------------------------- why the comparison is strict

  /** What an archiver would publish if a window that ends on the boundary were let through. */
  function PublishedWithEquality(window: Window, base: Table): Result<int, Refusal>
    requires base.Valid()
  {
    match BoundaryOf(base)
    case Failure(_) => Failure(HistoryStatesNoBoundary)
    case Success(current) => if window.to < current then Failure(WindowAlreadyCommitted) else Success(window.to)
  }

  /** The last archived tile ends on the boundary. */
  lemma LastTileIsArchived(s: Store, landed: seq<Landed>, window: Window)
    requires TableInv(s) && TilingInv(s, landed) && WindowInv(s, window) && window.to == BoundaryNow(s)
    ensures Archived(landed) != [] && Archived(landed)[|Archived(landed)| - 1] == window
  {
    var n := |Archived(landed)|;
    assert n * s.grid == BoundaryNow(s) == window.from + s.grid;
    if n == 0 {
      assert false;
    }
    assert Archived(landed)[n - 1] == Window(0 + (n - 1) * s.grid, 0 + (n - 1 + 1) * s.grid);
    assert (n - 1) * s.grid + s.grid == n * s.grid;
  }

  /**
   The strict comparison is what keeps a window from landing twice. Without it, an archiver
   on the current snapshot would be let through in exactly one more case, that its window
   was the last to land; it would then append that window's rows a second time.
   */
  lemma EqualityLandsWindowTwice(w: World, run: Run, id: Id, at: int)
    requires Inv(w) && PhaseOf(w, run).Ready? && PhaseOf(w, run).summary.Advance?
    requires PhaseOf(w, run).base.Valid() && PhaseOf(w, run).base.current == w.store.table.current
    requires id !in w.store.history
    ensures var p := PhaseOf(w, run);
      var lax := PublishedWithEquality(p.summary.window, p.base);
      && (lax != PublishedBoundary(p.summary, p.base) && lax.Success? <==> p.summary.window.to == BoundaryNow(w.store))
      && (p.summary.window.to == BoundaryNow(w.store) ==>
            && Archived(w.landed) != [] && Archived(w.landed)[|Archived(w.landed)| - 1] == p.summary.window
            && var again := Committing(w.store, id, Appended(p.base, SummaryProps(p.summary, lax.value), p.files, at));
               ColdRead(again) == ColdRead(w.store) + multiset(p.rows))
  {
    var p := PhaseOf(w, run);
    RunInv(w, run);
    SameCurrentSameBoundary(p.base, w.store.table, w.store.history);
    if p.summary.window.to > BoundaryNow(w.store) {
      OnlyNextTileFits(p.summary.window, BoundaryNow(w.store), w.store.grid);
    } else if p.summary.window.to == BoundaryNow(w.store) {
      LastTileIsArchived(w.store, w.landed, p.summary.window);
      LiveIsReferenced(w.store);
      RowsInBoth(w.store.objects, LiveFiles(w.store.table), p.files);
    }
  }

  /** Run `run` has lost nothing yet, and its window is the first day. */
  predicate FirstDay(p: Phase) {
    p.Ready? && p.summary == Advance(Window(0, DAY), DAY) && p.rows == {METERED} && p.attempt == 0
  }

  /** What the landing of the first archiver leaves, as far as it can be read off the step. */
  lemma FirstLandsShape(w: World)
    requires w.store.table == Table(map[], None) && w.landed == [] && 5 !in w.store.history
    requires FirstDay(PhaseOf(w, 1)) && PhaseOf(w, 1).base == w.store.table
    requires PublishedBoundary(PhaseOf(w, 1).summary, PhaseOf(w, 1).base) == Success(DAY)
    ensures var p := PhaseOf(w, 1); var lands := Attempt(1, 5, 0, Committed);
      && Enabled(w, lands) && Apply(w, lands).landed == [Landed(1, p.summary, p.files, p.rows, DAY)]
      && PhaseOf(Apply(w, lands), 2) == PhaseOf(w, 2)
  {
    hide PublishedBoundary, RowsIn;
  }

  lemma LogIsRead(w: World)
    requires Inv(w)
    ensures w.store.table.Valid() && ColdRead(w.store) == ColdRows(w.landed)
  {
  }

  lemma FirstLands(w: World)
    requires Inv(w) && w.store.table == Table(map[], None) && w.landed == [] && 5 !in w.store.history
    requires FirstDay(PhaseOf(w, 1)) && PhaseOf(w, 1).base == w.store.table
    requires PublishedBoundary(PhaseOf(w, 1).summary, PhaseOf(w, 1).base) == Success(DAY)
    ensures var lands := Attempt(1, 5, 0, Committed); var w' := Apply(w, lands);
      && Enabled(w, lands) && Inv(w') && BoundaryNow(w'.store) == DAY
      && PhaseOf(w', 2) == PhaseOf(w, 2) && METERED in ColdRead(w'.store)
  {
    hide Inv, Apply, Enabled, ColdRead, ColdRows, PublishedBoundary;
    var p := PhaseOf(w, 1);
    FirstLandsShape(w);
    LandingStep(w, 1, 5, 0, Committed, DAY);
    LogIsRead(Apply(w, Attempt(1, 5, 0, Committed)));
    ColdRowsOfOne(Landed(1, p.summary, p.files, p.rows, DAY));
  }

  lemma ColdRowsOfOne(last: Landed)
    ensures ColdRows([last]) == multiset(last.rows)
  {
    ColdRowsAppend([], last);
    assert [] + [last] == [last];
  }

  lemma SecondReloads(w: World)
    requires Inv(w) && FirstDay(PhaseOf(w, 2)) && PhaseOf(w, 2).base.Valid()
    requires PublishedBoundary(PhaseOf(w, 2).summary, PhaseOf(w, 2).base).Success?
    ensures var lost := Attempt(2, 6, 0, Failed(CatalogCommitConflicts, false));
      && Enabled(w, lost) && Apply(w, lost).store == w.store && Enabled(Apply(w, lost), Reload(2))
    ensures var w' := Apply(Apply(w, Attempt(2, 6, 0, Failed(CatalogCommitConflicts, false))), Reload(2));
      && w'.store == w.store && PhaseOf(w', 2).Ready? && PhaseOf(w', 2).summary == Advance(Window(0, DAY), DAY)
      && PhaseOf(w', 2).rows == {METERED} && PhaseOf(w', 2).base == w.store.table
  {
  }

  /**
   And two archivers of one window get there: the second loses the race, reloads, and stands
   on a boundary its window ends on, with a row that a scan already returns.
   */
  lemma SecondArchiverIsReachable() returns (actions: seq<Action>)
    ensures ValidRun(Initial(DAY), actions)
    ensures var w := Exec(Initial(DAY), actions);
      && Inv(w) && PhaseOf(w, 2).Ready? && PhaseOf(w, 2).summary == Advance(Window(0, DAY), DAY)
      && PhaseOf(w, 2).base == w.store.table && BoundaryNow(w.store) == DAY
      && METERED in PhaseOf(w, 2).rows && METERED in ColdRead(w.store)
  {
    var start := Initial(DAY);
    InitialInv(DAY);
    actions := ArchiverWaits(start, [], 1, 10);
    var one := WithArchiver(start, 1, 10);
    ArchiverIsReady(start, 1, 10);
    actions := ArchiverWaits(start, actions, 2, 20);
    var both := WithArchiver(one, 2, 20);
    ArchiverIsReady(one, 2, 20);
    RunKeepsInv(start, actions);
    FirstLands(both);
    SecondReloads(Apply(both, Attempt(1, 5, 0, Committed)));
    hide ValidRun, Exec, Inv, Apply, Enabled;
    actions := Do(start, actions, Attempt(1, 5, 0, Committed));
    actions := Do(start, actions, Attempt(2, 6, 0, Failed(CatalogCommitConflicts, false)));
    actions := Do(start, actions, Reload(2));
    RunKeepsInv(start, actions);
  }
}
