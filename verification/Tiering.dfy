/**
 Both tiers together: what a unified read sees while rows move from one to the other.

 The cold half of a read is a scan of the current snapshot's files. That a foreign commit
 rewrites files and not rows is the one thing assumed about other tools.
 */
module Tiering {
  import opened Results
  import opened SnapshotChain
  import opened Watermark
  import opened ColdProtocol
  import opened ColdSafety

  datatype Tiers = Tiers(
    cold: World,
    hot: set<Row>,          // rows in PostgreSQL
    accepted: set<Row>)     // rows a write was acknowledged for, or landed for

  function HotIn(hot: set<Row>, window: Window): set<Row> {
    set row | row in hot && window.Contains(row.from)
  }

  /** How many copies of `row` a read across both tiers returns. */
  ghost function Visible(t: Tiers, row: Row): nat
    requires TableInv(t.cold.store)
  {
    if TierFor(BoundaryNow(t.cold.store), row.from) == Cold then ColdRead(t.cold.store)[row]
    else if row in t.hot then 1 else 0
  }

  // ---------------------------------------------------------------- steps

  datatype TierAction =
    | ColdAction(action: Action)
    | HotWrite(row: Row)
    | DropPartition(from: int)

  /** Rows of a late correction that is on its way to the cold tier. */
  function Correcting(p: Phase): set<Row> {
    if (p.Ready? || p.Lost?) && p.summary.Preserve? then p.rows else {}
  }

  predicate FreshRow(t: Tiers, row: Row) {
    row !in t.accepted && forall run :: run in t.cold.phases ==> row !in Correcting(t.cold.phases[run])
  }

  /** A window whose rows have been read and that has not been committed yet. */
  predicate Archiving(p: Phase, at: int) {
    (p.Ready? || p.Lost?) && p.summary.Advance? && p.summary.window.Contains(at)
  }

  /**
   Rows are routed by the boundary at the time: an archiver reads its window out of the
   hot tier, a correction carries rows its base holds to be cold, and a hot write is at
   or after the boundary. The settlement lag is what keeps a hot write out of a window
   between its being read and its commit.
   */
  ghost predicate TierEnabled(t: Tiers, a: TierAction)
    requires TableInv(t.cold.store)
  {
    match a
    case ColdAction(action) =>
      && Enabled(t.cold, action)
      && (action.WriteFiles? ==>
            var p := PhaseOf(t.cold, action.run);
            match p.summary
            case Advance(window, _) => action.rows == HotIn(t.hot, window)
            case Preserve =>
              && p.base.Valid() && BoundaryOf(p.base).Success?
              && forall row :: row in action.rows ==>
                                 FreshRow(t, row) && TierFor(BoundaryOf(p.base).value, row.from) == Cold)
    case HotWrite(row) =>
      && FreshRow(t, row) && TierFor(BoundaryNow(t.cold.store), row.from) == Hot
      && forall run :: run in t.cold.phases ==> !Archiving(t.cold.phases[run], row.from)
    case DropPartition(from) => from + t.cold.store.grid <= BoundaryNow(t.cold.store)
  }

  /** Rows a landed correction makes readable. */
  function NewlyAccepted(w: World, w': World): set<Row> {
    if |w'.landed| == |w.landed| + 1 && w'.landed[|w.landed|].summary.Preserve? then w'.landed[|w.landed|].rows else {}
  }

  function TierApply(t: Tiers, a: TierAction): Tiers
    requires TableInv(t.cold.store) && TierEnabled(t, a)
  {
    match a
    case ColdAction(action) =>
      var w' := Apply(t.cold, action);
      Tiers(w', t.hot, t.accepted + NewlyAccepted(t.cold, w'))
    case HotWrite(row) => t.(hot := t.hot + {row}, accepted := t.accepted + {row})
    case DropPartition(from) => t.(hot := t.hot - HotIn(t.hot, Window(from, from + t.cold.store.grid)))
  }

  // ---------------------------------------------------------------- the invariant

  /** Where each row is, given the boundary and what a scan of the cold tier returns. */
  ghost predicate RowsInv(boundary: int, cold: multiset<Row>, hot: set<Row>, accepted: set<Row>) {
    && (forall row :: row in cold ==> cold[row] == 1 && row.from < boundary)
    && (forall row :: row in hot && row.from < boundary ==> row in cold)
    && (forall row :: row in accepted <==> row in hot || row in cold)
  }

  predicate InFlightInv(boundary: int, hot: set<Row>, accepted: set<Row>, p: Phase) {
    && (forall row :: row in Correcting(p) ==> row.from < boundary && row !in accepted)
    && ((p.Ready? || p.Lost?) && p.summary.Advance? && p.summary.window.from == boundary
        ==> p.rows == HotIn(hot, p.summary.window))
  }

  predicate CorrectionsApart(phases: map<Run, Phase>) {
    forall a, b :: a in phases && b in phases && a != b ==> Correcting(phases[a]) !! Correcting(phases[b])
  }

  predicate AllInFlightInv(boundary: int, hot: set<Row>, accepted: set<Row>, phases: map<Run, Phase>) {
    forall run :: run in phases ==> InFlightInv(boundary, hot, accepted, phases[run])
  }

  ghost predicate TierInv(t: Tiers) {
    && Inv(t.cold)
    && RowsInv(BoundaryNow(t.cold.store), ColdRead(t.cold.store), t.hot, t.accepted)
    && AllInFlightInv(BoundaryNow(t.cold.store), t.hot, t.accepted, t.cold.phases)
    && CorrectionsApart(t.cold.phases)
  }

  /** Every accepted row is read exactly once, and nothing else is read at all. */
  lemma VisibleExactlyOnce(t: Tiers, row: Row)
    requires TierInv(t)
    ensures Visible(t, row) == if row in t.accepted then 1 else 0
  {
  }

  // ---------------------------------------------------------------- steps of the hot tier

  /** Dropping a partition takes exactly its rows out of the hot tier, and no row out of what is read. */
  lemma DropTakesItsPartition(t: Tiers, from: int, row: Row)
    requires TierInv(t) && TierEnabled(t, DropPartition(from))
    ensures var t' := TierApply(t, DropPartition(from));
      && (row in t'.hot <==> row in t.hot && !(from <= row.from < from + t.cold.store.grid))
      && t'.cold == t.cold && t'.accepted == t.accepted && Visible(t', row) == Visible(t, row)
  {
  }

  /** A new row at or after the boundary, outside every window being archived, can be written, and is read then. */
  lemma WrittenIsVisible(t: Tiers, row: Row)
    requires TierInv(t) && row !in t.accepted && BoundaryNow(t.cold.store) <= row.from
    requires forall run :: run in t.cold.phases ==>
               && row !in Correcting(t.cold.phases[run])
               && !((t.cold.phases[run].Ready? || t.cold.phases[run].Lost?) && t.cold.phases[run].summary.Advance?
                    && t.cold.phases[run].summary.window.from <= row.from < t.cold.phases[run].summary.window.to)
    ensures TierEnabled(t, HotWrite(row))
    ensures var t' := TierApply(t, HotWrite(row)); t'.cold == t.cold && Visible(t', row) == 1
  {
  }

  lemma HotWriteStep(t: Tiers, row: Row)
    requires TierInv(t) && TierEnabled(t, HotWrite(row))
    ensures TierInv(TierApply(t, HotWrite(row)))
  {
    hide ColdRead, PhasesInv, HoldApart, TilingInv, OnceInv, LandedFilesInv, FileInv, ReadInv, HotIn;
    var boundary := BoundaryNow(t.cold.store);
    forall run | run in t.cold.phases
      ensures InFlightInv(boundary, t.hot + {row}, t.accepted + {row}, t.cold.phases[run])
    {
      HotWriteKeepsInFlight(boundary, t.hot, t.accepted, t.cold.phases[run], row);
    }
  }

  lemma HotWriteKeepsInFlight(boundary: int, hot: set<Row>, accepted: set<Row>, p: Phase, row: Row)
    requires InFlightInv(boundary, hot, accepted, p)
    requires row !in Correcting(p) && !Archiving(p, row.from)
    ensures InFlightInv(boundary, hot + {row}, accepted + {row}, p)
  {
    if (p.Ready? || p.Lost?) && p.summary.Advance? {
      assert HotIn(hot + {row}, p.summary.window) == HotIn(hot, p.summary.window);
    }
  }

  lemma DropKeepsInFlight(boundary: int, hot: set<Row>, accepted: set<Row>, p: Phase, dropped: Window)
    requires InFlightInv(boundary, hot, accepted, p) && dropped.to <= boundary
    ensures InFlightInv(boundary, hot - HotIn(hot, dropped), accepted, p)
  {
    if (p.Ready? || p.Lost?) && p.summary.Advance? && p.summary.window.from == boundary {
      assert HotIn(hot - HotIn(hot, dropped), p.summary.window) == HotIn(hot, p.summary.window);
    }
  }

  lemma DropPartitionStep(t: Tiers, from: int)
    requires TierInv(t) && TierEnabled(t, DropPartition(from))
    ensures TierInv(TierApply(t, DropPartition(from)))
  {
    hide ColdRead, PhasesInv, HoldApart, TilingInv, OnceInv, LandedFilesInv, FileInv, ReadInv;
    var boundary, dropped := BoundaryNow(t.cold.store), Window(from, from + t.cold.store.grid);
    forall run | run in t.cold.phases
      ensures InFlightInv(boundary, t.hot - HotIn(t.hot, dropped), t.accepted, t.cold.phases[run])
    {
      DropKeepsInFlight(boundary, t.hot, t.accepted, t.cold.phases[run], dropped);
    }
  }

  // ---------------------------------------------------------------- steps of the cold tier

  /** An action that lands nothing leaves the boundary, the landed appends and other phases alone. */
  lemma QuietAction(w: World, a: Action)
    requires Inv(w) && Enabled(w, a) && Inv(Apply(w, a))
    requires Apply(w, a).landed == w.landed
    ensures BoundaryNow(Apply(w, a).store) == BoundaryNow(w.store)
    ensures a.Foreign? ==> Apply(w, a).phases == w.phases
    ensures !a.Foreign? ==> a.run in Apply(w, a).phases
                            && Apply(w, a).phases == w.phases[a.run := Apply(w, a).phases[a.run]]
    ensures !a.Foreign? && !a.WriteFiles? ==>
              var p, p' := PhaseOf(w, a.run), Apply(w, a).phases[a.run];
              (p'.Ready? || p'.Lost?) ==> (p.Ready? || p.Lost?) && p'.summary == p.summary && p'.rows == p.rows
  {
    assert w.store.table.Valid();
    hide *;
    QuietBoundary(w, a);
    QuietPhases(w, a);
  }

  lemma QuietBoundary(w: World, a: Action)
    requires Inv(w) && Enabled(w, a) && Inv(Apply(w, a))
    requires Apply(w, a).landed == w.landed
    ensures BoundaryNow(Apply(w, a).store) == BoundaryNow(w.store)
  {
    hide PublishedBoundary, RowsIn, NextWindow, BoundaryOf, AfterAnswer, Appended, FreshFiles,
         PhasesInv, FileInv, HoldApart, TilingInv, OnceInv, LandedFilesInv, ReadInv;
    match a
    case Foreign(id, kept, written, at) => ForeignStep(w, id, kept, written, at);
    case Expire(run) => ExpireStep(w, run);
    case Attempt(run, id, at, answer) => QuietAttempt(w, run, id, at, answer);
    case _ => assert Apply(w, a).store.table == w.store.table;
  }

  lemma QuietAttempt(w: World, run: Run, id: Id, at: int, answer: Answer)
    requires w.store.table.Valid() && Enabled(w, Attempt(run, id, at, answer))
    requires Apply(w, Attempt(run, id, at, answer)).landed == w.landed
    ensures var w' := Apply(w, Attempt(run, id, at, answer));
      && w'.store == w.store && run in w'.phases && w'.phases == w.phases[run := w'.phases[run]]
      && var p, p' := PhaseOf(w, run), w'.phases[run];
         (p'.Ready? || p'.Lost?) ==> p.Ready? && p'.summary == p.summary && p'.rows == p.rows
  {
    hide PublishedBoundary, Appended, SummaryProps;
  }

  lemma QuietPhases(w: World, a: Action)
    requires w.store.table.Valid() && Enabled(w, a) && Apply(w, a).landed == w.landed
    ensures a.Foreign? ==> Apply(w, a).phases == w.phases
    ensures !a.Foreign? ==> a.run in Apply(w, a).phases
                            && Apply(w, a).phases == w.phases[a.run := Apply(w, a).phases[a.run]]
    ensures !a.Foreign? && !a.WriteFiles? ==>
              var p, p' := PhaseOf(w, a.run), Apply(w, a).phases[a.run];
              (p'.Ready? || p'.Lost?) ==> (p.Ready? || p.Lost?) && p'.summary == p.summary && p'.rows == p.rows
  {
    hide PublishedBoundary, RowsIn, NextWindow, BoundaryOf, AfterAnswer, Appended, FreshFiles, Attempted;
    match a
    case Attempt(run, id, at, answer) => QuietAttempt(w, run, id, at, answer);
    case _ =>
  }

  lemma WriteFilesInFlight(t: Tiers, a: Action)
    requires TierInv(t) && TierEnabled(t, ColdAction(a)) && a.WriteFiles?
    ensures var p := PhaseOf(t.cold, a.run);
            var p' := Ready(p.summary, p.base, a.written.Keys, a.rows, 0);
            && InFlightInv(BoundaryNow(t.cold.store), t.hot, t.accepted, p')
            && CorrectionsApart(t.cold.phases[a.run := p'])
            && Apply(t.cold, a).phases == t.cold.phases[a.run := p']
  {
    hide ColdRead, PhasesInv, HoldApart, TilingInv, OnceInv, LandedFilesInv, FileInv, ReadInv, RowsIn;
    assert PhaseInv(t.cold.store, PhaseOf(t.cold, a.run)) by { RunInv(t.cold, a.run); }
  }

  lemma SameLogSameRead(w: World, w': World)
    requires Inv(w) && Inv(w') && w'.landed == w.landed
    ensures ColdRead(w'.store) == ColdRead(w.store)
  {
  }

  lemma QuietStep(t: Tiers, a: Action)
    requires TierInv(t) && TierEnabled(t, ColdAction(a)) && Inv(Apply(t.cold, a))
    requires Apply(t.cold, a).landed == t.cold.landed
    ensures TierInv(TierApply(t, ColdAction(a)))
  {
    hide ColdRead, Apply, Enabled, RowsInv, InFlightInv, CorrectionsApart,
         PhasesInv, HoldApart, TilingInv, OnceInv, LandedFilesInv, FileInv, ReadInv;
    QuietAction(t.cold, a);
    SameLogSameRead(t.cold, Apply(t.cold, a));
    if a.WriteFiles? {
      WriteFilesInFlight(t, a);
    } else if !a.Foreign? {
      SamePhaseRows(t, a.run, Apply(t.cold, a).phases[a.run]);
    }
    assert t.accepted + {} == t.accepted;
  }

  lemma SamePhaseRows(t: Tiers, run: Run, p: Phase)
    requires TierInv(t)
    requires (p.Ready? || p.Lost?) ==> (PhaseOf(t.cold, run).Ready? || PhaseOf(t.cold, run).Lost?)
                                       && p.summary == PhaseOf(t.cold, run).summary
                                       && p.rows == PhaseOf(t.cold, run).rows
    ensures AllInFlightInv(BoundaryNow(t.cold.store), t.hot, t.accepted, t.cold.phases[run := p])
    ensures CorrectionsApart(t.cold.phases[run := p])
  {
    assert Correcting(p) <= Correcting(PhaseOf(t.cold, run));
  }

  /** What a landing adds to the rows, whichever of the two kinds it is. */
  lemma RowsLand(boundary: int, boundary': int, cold: multiset<Row>, hot: set<Row>, accepted: set<Row>, p: Phase)
    requires RowsInv(boundary, cold, hot, accepted) && InFlightInv(boundary, hot, accepted, p) && p.Ready?
    requires if p.summary.Preserve? then boundary' == boundary
             else p.summary.window == Window(boundary, boundary') && boundary < boundary'
    ensures RowsInv(boundary', cold + multiset(p.rows), hot, accepted + Correcting(p))
  {
    var cold' := cold + multiset(p.rows);
    forall row | row in cold'
      ensures cold'[row] == 1 && row.from < boundary'
    {
      if row in p.rows {
        assert row !in cold;
      }
    }
  }

  /** The runs still in flight after a landing: no window of theirs starts on the new boundary. */
  lemma OthersAfterLanding(t: Tiers, run: Run, boundary': int, other: Run)
    requires TierInv(t) && run in t.cold.phases && t.cold.phases[run].Ready?
    requires other in t.cold.phases && other != run
    requires boundary' >= BoundaryNow(t.cold.store)
    requires t.cold.phases[run].summary.Preserve? ==> boundary' == BoundaryNow(t.cold.store)
    ensures InFlightInv(boundary', t.hot, t.accepted + Correcting(t.cold.phases[run]), t.cold.phases[other])
  {
    RunInv(t.cold, other);
    assert InFlightInv(BoundaryNow(t.cold.store), t.hot, t.accepted, t.cold.phases[other]);
  }

  lemma EndedIsNotInFlight(boundary: int, hot: set<Row>, accepted: set<Row>, p: Phase)
    requires p.Finished?
    ensures InFlightInv(boundary, hot, accepted, p) && Correcting(p) == {}
  {
  }

  lemma InFlightAfterLanding(t: Tiers, run: Run, boundary': int, p': Phase)
    requires TierInv(t) && run in t.cold.phases && t.cold.phases[run].Ready? && p'.Finished?
    requires boundary' >= BoundaryNow(t.cold.store)
    requires t.cold.phases[run].summary.Preserve? ==> boundary' == BoundaryNow(t.cold.store)
    ensures AllInFlightInv(boundary', t.hot, t.accepted + Correcting(t.cold.phases[run]), t.cold.phases[run := p'])
    ensures CorrectionsApart(t.cold.phases[run := p'])
  {
    hide Inv, ColdRead, RowsInv, InFlightInv, HotIn;
    forall other | other in t.cold.phases && other != run
      ensures InFlightInv(boundary', t.hot, t.accepted + Correcting(t.cold.phases[run]), t.cold.phases[other])
    {
      OthersAfterLanding(t, run, boundary', other);
    }
    EndedIsNotInFlight(boundary', t.hot, t.accepted + Correcting(t.cold.phases[run]), p');
  }

  /** What a landing does to the protocol's state. */
  lemma LandingShape(w: World, a: Action, boundary: int)
    requires Inv(w) && Enabled(w, a) && a.Attempt? && a.answer.Applied()
    requires PublishedBoundary(PhaseOf(w, a.run).summary, PhaseOf(w, a.run).base) == Success(boundary)
    ensures var p, p' := PhaseOf(w, a.run), AfterAnswer(PhaseOf(w, a.run), boundary, a.answer);
            && a.run in w.phases && p'.Finished?
            && Apply(w, a).landed == w.landed + [Landed(a.run, p.summary, p.files, p.rows, boundary)]
            && Apply(w, a).phases == w.phases[a.run := p']
            && NewlyAccepted(w, Apply(w, a)) == Correcting(p)
  {
  }

  lemma LandingTierStep(t: Tiers, a: Action, boundary: int)
    requires TierInv(t) && TierEnabled(t, ColdAction(a)) && a.Attempt? && a.answer.Applied()
    requires PublishedBoundary(PhaseOf(t.cold, a.run).summary, PhaseOf(t.cold, a.run).base) == Success(boundary)
    ensures TierInv(TierApply(t, ColdAction(a)))
  {
    var p := PhaseOf(t.cold, a.run);
    LandsOnCurrentBoundary(t.cold, a.run, boundary);
    LandingStep(t.cold, a.run, a.id, a.at, a.answer, boundary);
    LandingShape(t.cold, a, boundary);
    RowsOfRun(t, a.run, boundary);
    ColdRowsAppend(t.cold.landed, Landed(a.run, p.summary, p.files, p.rows, boundary));
    InFlightAfterLanding(t, a.run, boundary, AfterAnswer(p, boundary, a.answer));
  }

  lemma RowsOfRun(t: Tiers, run: Run, boundary: int)
    requires TierInv(t) && run in t.cold.phases && t.cold.phases[run].Ready?
    requires var summary, now := t.cold.phases[run].summary, BoundaryNow(t.cold.store);
             if summary.Preserve? then boundary == now
             else summary.window.from == now && summary.window.to == boundary == now + t.cold.store.grid
    ensures RowsInv(boundary, ColdRead(t.cold.store) + multiset(t.cold.phases[run].rows), t.hot,
                    t.accepted + Correcting(t.cold.phases[run]))
  {
    RowsLand(BoundaryNow(t.cold.store), boundary, ColdRead(t.cold.store), t.hot, t.accepted, t.cold.phases[run]);
  }

  lemma ColdActionStep(t: Tiers, a: Action)
    requires TierInv(t) && TierEnabled(t, ColdAction(a))
    ensures TierInv(TierApply(t, ColdAction(a)))
  {
    StepKeepsInv(t.cold, a);
    if a.Attempt? && a.answer.Applied()
       && PublishedBoundary(PhaseOf(t.cold, a.run).summary, PhaseOf(t.cold, a.run).base).Success? {
      LandingTierStep(t, a, PublishedBoundary(PhaseOf(t.cold, a.run).summary, PhaseOf(t.cold, a.run).base).value);
    } else {
      QuietStep(t, a);
    }
  }

  // ---------------------------------------------------------------- every run

  ghost predicate ValidTierRun(t: Tiers, actions: seq<TierAction>)
    decreases |actions|
  {
    actions == [] ||
    (TableInv(t.cold.store) && TierEnabled(t, actions[0]) && ValidTierRun(TierApply(t, actions[0]), actions[1..]))
  }

  ghost function TierExec(t: Tiers, actions: seq<TierAction>): Tiers
    requires ValidTierRun(t, actions)
    decreases |actions|
  {
    if actions == [] then t else TierExec(TierApply(t, actions[0]), actions[1..])
  }

  lemma {:induction false} TierRunKeepsInv(t: Tiers, actions: seq<TierAction>)
    requires TierInv(t) && ValidTierRun(t, actions)
    ensures TierInv(TierExec(t, actions)) && t.accepted <= TierExec(t, actions).accepted
    decreases |actions|
  {
    if actions != [] {
      match actions[0] {
        case ColdAction(a) => ColdActionStep(t, a);
        case HotWrite(row) => HotWriteStep(t, row);
        case DropPartition(from) => DropPartitionStep(t, from);
      }
      TierRunKeepsInv(TierApply(t, actions[0]), actions[1..]);
    }
  }

  /**
   From two empty tiers, after any interleaving of hot writes, archival, late
   corrections, partition drops, expiry and foreign commits, a read across the tiers
   returns every accepted row exactly once and no other row.
   */
  lemma EveryAcceptedRowIsReadOnce(grid: int, actions: seq<TierAction>, row: Row)
    requires WholeStep(grid) && ValidTierRun(Tiers(Initial(grid), {}, {}), actions)
    ensures var t := TierExec(Tiers(Initial(grid), {}, {}), actions);
            TableInv(t.cold.store) && Visible(t, row) == if row in t.accepted then 1 else 0
  {
    var t := Tiers(Initial(grid), {}, {});
    InitialInv(grid);
    TierRunKeepsInv(t, actions);
    VisibleExactlyOnce(TierExec(t, actions), row);
  }
}
