/**
 The commit protocol of the cold tier, as a state machine over its steps.

 Any number of runs interleave: archivers, late corrections, expiry, and commits
 from tools that know nothing about tiering. A run's awaits are its step
 boundaries; between two of them any other run may take any number of steps.
 */
module ColdProtocol {
  import opened Results
  import opened SnapshotChain
  import opened Watermark
  import Expiry

  type Run = nat

  /** A reading, as far as tiering is concerned. */
  datatype Row = Row(id: nat, from: int)

  /** Data files in the object store, and the rows each holds. A name never gets other content. */
  type Objects = map<File, multiset<Row>>

  const COMMIT_ATTEMPTS: nat := 4

  // ---------------------------------------------------------------- commit answers

  datatype ErrorKind =
    | CatalogCommitConflicts
    | Unexpected
    | DataInvalid
    | FeatureUnsupported
    | NamespaceNotFound
    | TableNotFound
    | NamespaceAlreadyExists
    | TableAlreadyExists
    | PreconditionFailed
    | Unlisted

  /** The kinds that say positively that nothing was committed. Everything else may have landed. */
  predicate CommitWasRefused(kind: ErrorKind) {
    match kind
    case DataInvalid => true
    case FeatureUnsupported => true
    case NamespaceNotFound => true
    case TableNotFound => true
    case NamespaceAlreadyExists => true
    case TableAlreadyExists => true
    case PreconditionFailed => true
    case _ => false
  }

  /** What the caller hears, and whether the catalogue applied the commit all the same. */
  datatype Answer = Committed | Failed(kind: ErrorKind, applied: bool) {
    predicate Applied() {
      Committed? || applied
    }

    /** A conflict or a refusal is the truth; only the other kinds leave it open. */
    predicate Truthful() {
      Failed? && applied ==> kind != CatalogCommitConflicts && !CommitWasRefused(kind)
    }
  }

  // ---------------------------------------------------------------- the summary of a commit

  datatype Summary = Advance(window: Window, step: int) | Preserve

  datatype Refusal = HistoryStatesNoBoundary | WindowAlreadyCommitted | WindowBelowBoundary

  /** What the commit states as its boundary, read off the snapshot it is built on. */
  function PublishedBoundary(summary: Summary, base: Table): Result<int, Refusal>
    requires base.Valid()
  {
    match BoundaryOf(base)
    case Failure(_) => Failure(HistoryStatesNoBoundary)
    case Success(current) =>
      match summary
      case Preserve => Success(current)
      case Advance(window, _) =>
        if window.to <= current then Failure(WindowAlreadyCommitted)
        else
          match AdvanceTo(current, window.to)
          case Success(next) => Success(next)
          case Failure(_) => Failure(WindowBelowBoundary)
  }

  function SummaryProps(summary: Summary, boundary: int): map<Key, int> {
    match summary
    case Preserve => map[Boundary := boundary]
    case Advance(_, step) => map[Boundary := boundary, Step := step]
  }

  /** The data files a new snapshot inherits. */
  function LiveFiles(t: Table): set<File>
    requires t.Valid()
  {
    if t.current.None? then {} else t.snapshots[t.current.value].files
  }

  /** A fast append on top of `base`. */
  function Appended(base: Table, props: map<Key, int>, files: set<File>, at: int): Snapshot
    requires base.Valid()
  {
    Snapshot(base.current, props, LiveFiles(base) + files, at)
  }

  /** Every row of some data files, as often as they hold it. A file that is gone has none. */
  ghost function RowsIn(objects: Objects, files: set<File>): multiset<Row>
    decreases files
  {
    if files == {} then multiset{}
    else
      var file :| file in files;
      (if file in objects then objects[file] else multiset{}) + RowsIn(objects, files - {file})
  }

  // ---------------------------------------------------------------- the state

  datatype Outcome = Done(boundary: int) | Refused(why: Refusal) | Ended

  datatype Phase =
    | Idle
    | Planned(window: Window)
    | Loaded(summary: Summary, base: Table)
    | Ready(summary: Summary, base: Table, files: set<File>, rows: set<Row>, attempt: nat)
    | Lost(summary: Summary, files: set<File>, rows: set<Row>, attempt: nat)
    | Discarding(files: set<File>)
    | Cleaning(files: set<File>, referenced: set<File>)
    | Expiring(doomed: set<Id>)
    | Finished(outcome: Outcome)
  {
    /** Files this run wrote and has not handed to a snapshot. */
    function Holds(): set<File> {
      match this
      case Ready(_, _, files, _, _) => files
      case Lost(_, files, _, _) => files
      case Discarding(files) => files
      case Cleaning(files, _) => files
      case _ => {}
    }
  }

  /** An append that the catalogue applied, whether or not its run heard so. */
  datatype Landed = Landed(run: Run, summary: Summary, files: set<File>, rows: set<Row>, boundary: int)

  /** The table as every run sees it, and what has been written for it. */
  datatype Store = Store(
    grid: int,                  // the archival step of the deployment
    table: Table,               // what a load returns
    history: History,           // every snapshot ever committed, expired ones included
    objects: Objects,           // data files in the object store
    minted: set<File>)          // every data-file name ever used

  datatype World = World(
    store: Store,
    landed: seq<Landed>,        // appends that landed, oldest first
    phases: map<Run, Phase>)

  function PhaseOf(w: World, run: Run): Phase {
    if run in w.phases then w.phases[run] else Idle
  }

  function With(w: World, run: Run, phase: Phase): World {
    w.(phases := w.phases[run := phase])
  }

  /** What a scan of the current snapshot returns: the rows of its files that are still there. */
  ghost function ColdRead(s: Store): multiset<Row>
    requires s.table.Valid()
  {
    RowsIn(s.objects, LiveFiles(s.table))
  }

  function Initial(grid: int): World {
    World(Store(grid, Table(map[], None), map[], map[], {}), [], map[])
  }

  // ---------------------------------------------------------------- steps

  datatype Action =
    | Plan(run: Run, now: int, lag: int)
    | LoadForWindow(run: Run)
    | LoadForCorrection(run: Run)
    | WriteFiles(run: Run, written: Objects, rows: set<Row>)
    | Attempt(run: Run, id: Id, at: int, answer: Answer)
    | Reload(run: Run)
    | ReadReferenced(run: Run, referenced: set<File>)
    | DeleteFile(run: Run, file: File)
    | Abort(run: Run)
    | Foreign(id: Id, kept: set<File>, written: Objects, at: int)
    | ChooseExpiry(run: Run, cutoff: int, retainLast: nat, doomed: set<Id>)
    | Expire(run: Run)

  /** Names no writer has used: suffixes are drawn from 128 random bits. */
  predicate FreshFiles(s: Store, files: set<File>) {
    files !! s.minted && files !! s.objects.Keys
  }

  ghost predicate Enabled(w: World, a: Action)
    requires w.store.table.Valid()
  {
    match a
    case Plan(run, now, lag) =>
      && PhaseOf(w, run).Idle? && BoundaryOf(w.store.table).Success?
      && NextWindow(BoundaryOf(w.store.table).value, now, lag, w.store.grid).Success?
      && NextWindow(BoundaryOf(w.store.table).value, now, lag, w.store.grid).value.Some?
    case LoadForWindow(run) => PhaseOf(w, run).Planned?
    case LoadForCorrection(run) => PhaseOf(w, run).Idle?
    case WriteFiles(run, written, rows) =>
      && PhaseOf(w, run).Loaded? && FreshFiles(w.store, written.Keys)
      && RowsIn(written, written.Keys) == multiset(rows)
    case Attempt(run, id, at, answer) =>
      && PhaseOf(w, run).Ready? && PhaseOf(w, run).base.Valid()
      && answer.Truthful()
      && (answer.Applied() ==> id !in w.store.history && PhaseOf(w, run).base.current == w.store.table.current)
    case Reload(run) => PhaseOf(w, run).Lost?
    case ReadReferenced(run, referenced) => PhaseOf(w, run).Discarding?
    case DeleteFile(run, file) =>
      PhaseOf(w, run).Cleaning? && file in PhaseOf(w, run).files && file !in PhaseOf(w, run).referenced
    case Abort(run) => !PhaseOf(w, run).Idle? && !PhaseOf(w, run).Finished?
    case Foreign(id, kept, written, at) =>
      && w.store.table.current.Some? && id !in w.store.history
      && kept <= LiveFiles(w.store.table) && FreshFiles(w.store, written.Keys)
      && RowsIn(w.store.objects + written, kept + written.Keys) == ColdRead(w.store)
    case ChooseExpiry(run, cutoff, retainLast, doomed) =>
      PhaseOf(w, run).Idle? && Expiry.Ends(w.store.table)
          && doomed == Expiry.DoomedSet(w.store.table, cutoff, retainLast)
    case Expire(run) =>
      && PhaseOf(w, run).Expiring?
      && (w.store.table.current.Some? ==> w.store.table.current.value !in PhaseOf(w, run).doomed)
  }

  /** Making `snapshot` current, under a new id. */
  function Committing(s: Store, id: Id, snapshot: Snapshot): Store {
    s.(table := Table(s.table.snapshots[id := snapshot], Some(id)), history := s.history[id := snapshot])
  }

  function Writing(s: Store, written: Objects): Store {
    s.(objects := s.objects + written, minted := s.minted + written.Keys)
  }

  /** The snapshot another tool commits: files of its choosing that hold the same rows, and no property of ours. */
  function ForeignSnapshot(s: Store, files: set<File>, at: int): Snapshot {
    Snapshot(s.table.current, map[], files, at)
  }

  /** What a run does once its attempt has been answered. */
  function AfterAnswer(p: Phase, boundary: int, answer: Answer): Phase
    requires p.Ready?
  {
    match answer
    case Committed => Finished(Done(boundary))
    case Failed(kind, _) =>
      if kind == CatalogCommitConflicts then
        if p.attempt + 1 < COMMIT_ATTEMPTS then Lost(p.summary, p.files, p.rows, p.attempt) else Discarding(p.files)
      else if CommitWasRefused(kind) then Discarding(p.files)
      else Finished(Ended)
  }

  function Attempted(w: World, run: Run, id: Id, at: int, answer: Answer): World
    requires PhaseOf(w, run).Ready? && PhaseOf(w, run).base.Valid()
  {
    var p := PhaseOf(w, run);
    match PublishedBoundary(p.summary, p.base)
    case Failure(why) => With(w, run, Finished(Refused(why)))
    case Success(boundary) =>
      var p' := AfterAnswer(p, boundary, answer);
      if answer.Applied() then
        World(Committing(w.store, id, Appended(p.base, SummaryProps(p.summary, boundary), p.files, at)),
              w.landed + [Landed(run, p.summary, p.files, p.rows, boundary)],
              w.phases[run := p'])
      else With(w, run, p')
  }

  function Apply(w: World, a: Action): World
    requires w.store.table.Valid() && Enabled(w, a)
  {
    match a
    case Plan(run, now, lag) =>
      With(w, run, Planned(NextWindow(BoundaryOf(w.store.table).value, now, lag, w.store.grid).value.value))
    case LoadForWindow(run) => With(w, run, Loaded(Advance(PhaseOf(w, run).window, w.store.grid), w.store.table))
    case LoadForCorrection(run) => With(w, run, Loaded(Preserve, w.store.table))
    case WriteFiles(run, written, rows) =>
      With(w, run, Ready(PhaseOf(w, run).summary, PhaseOf(w, run).base, written.Keys, rows, 0))
      .(store := Writing(w.store, written))
    case Attempt(run, id, at, answer) => Attempted(w, run, id, at, answer)
    case Reload(run) =>
      var p := PhaseOf(w, run);
      With(w, run, Ready(p.summary, w.store.table, p.files, p.rows, p.attempt + 1))
    case ReadReferenced(run, referenced) => With(w, run, Cleaning(PhaseOf(w, run).files, referenced))
    case DeleteFile(run, file) =>
      With(w, run, Cleaning(PhaseOf(w, run).files - {file}, PhaseOf(w, run).referenced))
      .(store := w.store.(objects := w.store.objects - {file}))
    case Abort(run) => With(w, run, Finished(Ended))
    case Foreign(id, kept, written, at) =>
      w.(store := Committing(Writing(w.store, written), id, ForeignSnapshot(w.store, kept + written.Keys, at)))
    case ChooseExpiry(run, _, _, doomed) => With(w, run, Expiring(doomed))
    case Expire(run) =>
      With(w, run, Finished(Ended))
      .(store := w.store.(table := Expiry.Without(w.store.table, PhaseOf(w, run).doomed)))
  }
}
