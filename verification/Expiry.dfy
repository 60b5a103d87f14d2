/**
 Snapshot expiry: bounding the history without losing the boundary kept in it.
 */
module Expiry {
  import opened Results
  import opened SnapshotChain
  import Watermark

  // ---------------------------------------------------------------- age order

  /** Age order: by commit time, and by id between snapshots of one instant. */
  predicate Older(snaps: History, a: Id, b: Id)
    requires a in snaps && b in snaps
  {
    snaps[a].at < snaps[b].at || (snaps[a].at == snaps[b].at && a < b)
  }

  function Newer(snaps: History, id: Id): set<Id>
    requires id in snaps
  {
    set other | other in snaps && Older(snaps, id, other)
  }

  /** Every snapshot once, oldest first. */
  ghost predicate OldestFirst(snaps: History, ordered: seq<Id>) {
    && (forall id :: id in snaps <==> id in ordered)
    && (forall i, j :: 0 <= i < j < |ordered| ==> Older(snaps, ordered[i], ordered[j]))
  }

  method SortByAge(snaps: History) returns (ordered: seq<Id>)
    ensures OldestFirst(snaps, ordered)
  {
    ordered := [];
    var left := snaps.Keys;
    while left != {}
      invariant left <= snaps.Keys
      invariant forall id :: id in snaps <==> id in ordered || id in left
      invariant forall i, j :: 0 <= i < j < |ordered| ==> Older(snaps, ordered[i], ordered[j])
      invariant forall i, id :: 0 <= i < |ordered| && id in left ==> Older(snaps, ordered[i], id)
      decreases left
    {
      var oldest: Id :| oldest in left;
      var unseen := left - {oldest};
      while unseen != {}
        invariant oldest in left && unseen <= left - {oldest}
        invariant forall id :: id in left && id !in unseen && id != oldest ==> Older(snaps, oldest, id)
        decreases unseen
      {
        var id: Id :| id in unseen;
        if Older(snaps, id, oldest) {
          oldest := id;
        }
        unseen := unseen - {id};
      }
      ordered := ordered + [oldest];
      left := left - {oldest};
    }
  }

  /** In age order, as many snapshots are newer than the one at `i` as come after it. */
  lemma NewerCount(snaps: History, ordered: seq<Id>, i: nat)
    requires OldestFirst(snaps, ordered) && i < |ordered|
    ensures |Newer(snaps, ordered[i])| == |ordered| - 1 - i
  {
    var after := ordered[i + 1..];
    DistinctCount(after);
    assert Newer(snaps, ordered[i]) == Elements(after) by {
      forall id
        ensures id in Newer(snaps, ordered[i]) <==> id in after
      {
        if id in snaps {
          var j :| 0 <= j < |ordered| && ordered[j] == id;
          assert j > i ==> after[j - i - 1] == id;
        }
      }
    }
  }

  function Elements(ids: seq<Id>): set<Id> {
    set id | id in ids
  }

  lemma {:induction false} DistinctCount(ids: seq<Id>)
    requires forall i, j :: 0 <= i < j < |ids| ==> ids[i] != ids[j]
    ensures |Elements(ids)| == |ids|
  {
    if ids != [] {
      DistinctCount(ids[1..]);
      assert Elements(ids) == {ids[0]} + Elements(ids[1..]);
    }
  }

  // ---------------------------------------------------------------- the path to the boundary

  /** The walk back from `id` ends after `n` steps, at the boundary or at the end of the chain. */
  predicate Stops(snaps: History, id: Id, n: nat)
    decreases n
  {
    && id in snaps
    && if Boundary in snaps[id].props || Parent(snaps, id).None? then n == 0
       else n > 0 && Stops(snaps, Parent(snaps, id).value, n - 1)
  }

  function Trail(snaps: History, id: Id, n: nat): set<Id>
    requires Stops(snaps, id, n)
    decreases n
  {
    if n == 0 then {id} else {id} + Trail(snaps, Parent(snaps, id).value, n - 1)
  }

  /** The chain back from the current snapshot is not a cycle without a boundary. */
  ghost predicate Ends(t: Table) {
    t.Valid() && (t.current.Some? ==> exists n: nat :: Stops(t.snapshots, t.current.value, n))
  }

  lemma {:induction false} StopsIsUnique(snaps: History, id: Id, n: nat, n': nat)
    requires Stops(snaps, id, n) && Stops(snaps, id, n')
    ensures n == n'
    decreases n
  {
    if n > 0 {
      StopsIsUnique(snaps, Parent(snaps, id).value, n - 1, n' - 1);
    }
  }

  /** Snapshots kept because a reader walks over them. */
  ghost predicate OnTrail(t: Table, id: Id)
    requires t.Valid()
  {
    t.current.Some?
    && exists n: nat :: Stops(t.snapshots, t.current.value, n) && id in Trail(t.snapshots, t.current.value, n)
  }

  lemma {:induction false} PathIsTrail(snaps: History, id: Id, n: nat, v: int)
    requires Finds(snaps, id, Boundary, n, v)
    ensures Stops(snaps, id, n) && Trail(snaps, id, n) == Path(snaps, id, Boundary, n, v)
    decreases n
  {
    if n > 0 {
      PathIsTrail(snaps, Parent(snaps, id).value, n - 1, v);
    }
  }

  /** A table whose boundary can be read can be expired. */
  lemma ReadableTableEnds(t: Table)
    requires t.Valid() && BoundaryOf(t).Success?
    ensures Ends(t)
  {
    if t.current.Some? {
      var n := PropertyWasFound(t, Boundary);
      PathIsTrail(t.snapshots, t.current.value, n, SummaryProperty(t, Boundary).value);
      assert Stops(t.snapshots, t.current.value, n);
    }
  }

  // ---------------------------------------------------------------- choosing what goes

  /** How many of the newest snapshots survive whatever their age. */
  function Kept(retainLast: nat): nat {
    if retainLast > 1 then retainLast else 1
  }

  /** The retention cutoff in the milliseconds snapshots are stamped with. */
  function CutoffMillis(now: int, retainFor: int): int {
    Watermark.UnixSeconds(now - retainFor) * 1_000
  }

  /** What expiry removes: old, not among the newest, and not on the way to the boundary. */
  ghost predicate Doomed(t: Table, cutoff: int, retainLast: nat, id: Id)
    requires t.Valid()
  {
    && id in t.snapshots
    && t.snapshots[id].at < cutoff
    && |Newer(t.snapshots, id)| >= Kept(retainLast)
    && !OnTrail(t, id)
  }

  ghost function DoomedSet(t: Table, cutoff: int, retainLast: nat): set<Id>
    requires t.Valid()
  {
    set id | id in t.snapshots && Doomed(t, cutoff, retainLast, id)
  }

  /** The newest are the end of the age order. */
  lemma NewestAreLast(snaps: History, ordered: seq<Id>, first: nat, keep: nat)
    requires OldestFirst(snaps, ordered)
    requires first == if |ordered| < keep then 0 else |ordered| - keep
    ensures forall id :: id in snaps ==> (id in ordered[first..] <==> |Newer(snaps, id)| < keep)
  {
    forall id | id in snaps
      ensures id in ordered[first..] <==> |Newer(snaps, id)| < keep
    {
      var j :| 0 <= j < |ordered| && ordered[j] == id;
      NewerCount(snaps, ordered, j);
      assert j >= first ==> ordered[first..][j - first] == id;
      if id in ordered[first..] {
        var k :| 0 <= k < |ordered[first..]| && ordered[first..][k] == id;
        assert ordered[first + k] == id;
      }
    }
  }

  /** Add the last `keep` of `ordered` to what is protected. */
  method ProtectNewest(ordered: seq<Id>, keep: nat, protected: set<Id>) returns (all: set<Id>)
    ensures var first := if |ordered| < keep then 0 else |ordered| - keep;
            forall id :: id in all <==> id in protected || id in ordered[first..]
  {
    var first := if |ordered| < keep then 0 else |ordered| - keep;
    all := protected;
    for i := first to |ordered|
      invariant forall id :: id in all <==> id in protected || id in ordered[first..i]
    {
      all := all + {ordered[i]};
      assert ordered[first..i + 1] == ordered[first..i] + [ordered[i]];
    }
    assert ordered[first..] == ordered[first..|ordered|];
  }

  method ChooseDoomed(t: Table, cutoff: int, retainLast: nat) returns (doomed: seq<Id>)
    requires Ends(t)
    ensures forall id :: id in doomed <==> Doomed(t, cutoff, retainLast, id)
    ensures forall i, j :: 0 <= i < j < |doomed| ==> doomed[i] != doomed[j]
  {
    var ordered := SortByAge(t.snapshots);
    var trail := ProtectTrail(t);
    var protected := ProtectNewest(ordered, Kept(retainLast), trail);
    doomed := [];
    for i := 0 to |ordered|
      invariant forall id :: id in doomed <==> id in ordered[..i] && t.snapshots[id].at < cutoff && id !in protected
      invariant forall a, b :: 0 <= a < b < |doomed| ==> doomed[a] != doomed[b]
    {
      var id := ordered[i];
      assert id !in ordered[..i];
      assert ordered[..i + 1] == ordered[..i] + [id];
      if t.snapshots[id].at < cutoff && id !in protected {
        doomed := doomed + [id];
      }
    }
    assert ordered[..|ordered|] == ordered;
    NewestAreLast(t.snapshots, ordered, if |ordered| < Kept(retainLast) then 0 else |ordered| - Kept(retainLast),
                  Kept(retainLast));
  }

  method ProtectTrail(t: Table) returns (protected: set<Id>)
    requires Ends(t)
    ensures forall id :: id in protected <==> OnTrail(t, id)
  {
    protected := {};
    var walk := t.current;
    if walk.None? {
      return;
    }
    ghost var n: nat :| Stops(t.snapshots, t.current.value, n);
    ghost var length, all := n, Trail(t.snapshots, t.current.value, n);
    while walk.Some?
      invariant walk.Some? ==> Stops(t.snapshots, walk.value, n)
      invariant all == protected + if walk.Some? then Trail(t.snapshots, walk.value, n) else {}
      decreases walk.Some?, n
    {
      var snapshot := walk.value;
      protected := protected + {snapshot};
      if Boundary in t.snapshots[snapshot].props {
        walk := None;
        break;
      }
      walk := Parent(t.snapshots, snapshot);
      if walk.Some? {
        n := n - 1;
      }
    }
    forall id
      ensures id in protected <==> OnTrail(t, id)
    {
      if OnTrail(t, id) {
        var k: nat :| Stops(t.snapshots, t.current.value, k) && id in Trail(t.snapshots, t.current.value, k);
        StopsIsUnique(t.snapshots, t.current.value, k, length);
      }
    }
  }

  // ---------------------------------------------------------------- what expiry keeps

  function Without(t: Table, doomed: set<Id>): Table {
    t.(snapshots := t.snapshots - doomed)
  }

  ghost function Expired(t: Table, cutoff: int, retainLast: nat): Table
    requires t.Valid()
  {
    Without(t, DoomedSet(t, cutoff, retainLast))
  }

  lemma {:induction false} TrailWithout(snaps: History, doomed: set<Id>, id: Id, n: nat)
    requires Stops(snaps, id, n) && Trail(snaps, id, n) !! doomed
    ensures Stops(snaps - doomed, id, n) && Trail(snaps - doomed, id, n) == Trail(snaps, id, n)
    decreases n
  {
    if n > 0 {
      TrailWithout(snaps, doomed, Parent(snaps, id).value, n - 1);
    }
  }

  /** The way to the boundary is the same after expiry as before it. */
  lemma TrailSurvives(t: Table, cutoff: int, retainLast: nat)
    requires Ends(t)
    ensures var left := Expired(t, cutoff, retainLast);
            Ends(left) && forall id :: OnTrail(left, id) <==> OnTrail(t, id)
  {
    var doomed := DoomedSet(t, cutoff, retainLast);
    var left := Expired(t, cutoff, retainLast);
    if t.current.Some? {
      var id := t.current.value;
      var n: nat :| Stops(t.snapshots, id, n);
      forall x | x in Trail(t.snapshots, id, n)
        ensures x !in doomed
      {
        assert OnTrail(t, x);
      }
      TrailWithout(t.snapshots, doomed, id, n);
      assert Stops(left.snapshots, id, n);
      forall x
        ensures OnTrail(left, x) <==> x in Trail(t.snapshots, id, n)
        ensures OnTrail(t, x) <==> x in Trail(t.snapshots, id, n)
      {
        if OnTrail(left, x) {
          var k: nat :| Stops(left.snapshots, id, k) && x in Trail(left.snapshots, id, k);
          StopsIsUnique(left.snapshots, id, k, n);
        }
        if OnTrail(t, x) {
          var k: nat :| Stops(t.snapshots, id, k) && x in Trail(t.snapshots, id, k);
          StopsIsUnique(t.snapshots, id, k, n);
        }
      }
    }
  }

  /**
   Expiry keeps the current snapshot, the newest `Kept(retainLast)`, and everything
   at or after the cutoff; the boundary reads as before, and the archival step as
   before or not at all.
   */
  lemma ExpiryKeepsBoundary(t: Table, cutoff: int, retainLast: nat)
    requires Ends(t)
    ensures var left := Expired(t, cutoff, retainLast);
            && left.Valid() && left.current == t.current
            && BoundaryOf(left) == BoundaryOf(t)
            && (StepOf(left) == StepOf(t) || StepOf(left) == Success(None))
            && PartOf(left.snapshots, t.snapshots)
            && (forall id :: id in t.snapshots && t.snapshots[id].at >= cutoff ==> id in left.snapshots)
            && (forall id :: id in t.snapshots && |Newer(t.snapshots, id)| < Kept(retainLast) ==> id in left.snapshots)
  {
    var doomed := DoomedSet(t, cutoff, retainLast);
    var left := Expired(t, cutoff, retainLast);
    TrailSurvives(t, cutoff, retainLast);
    if t.current.Some? {
      var id := t.current.value;
      var n: nat :| Stops(t.snapshots, id, n);
      assert id in Trail(t.snapshots, id, n);
      assert OnTrail(t, id);
      ExpiryNeverExposesOlderValue(t, doomed, Boundary);
      ExpiryNeverExposesOlderValue(t, doomed, Step);
      if SummaryProperty(t, Boundary).Some? {
        var v := SummaryProperty(t, Boundary).value;
        var m := PropertyWasFound(t, Boundary);
        PathIsTrail(t.snapshots, id, m, v);
        forall x | x in Path(t.snapshots, id, Boundary, m, v)
          ensures x !in doomed
        {
          assert OnTrail(t, x);
        }
        ExpiryOffPathKeepsValue(t, doomed, Boundary, m, v);
      }
    }
  }

  /** Snapshots committed later than one, and at least as late. */
  function After(snaps: History, id: Id): set<Id>
    requires id in snaps
  {
    set other | other in snaps && snaps[other].at > snaps[id].at
  }

  function NotBefore(snaps: History, id: Id): set<Id>
    requires id in snaps
  {
    set other | other in snaps && other != id && snaps[other].at >= snaps[id].at
  }

  /** `max(retainLast, 1)` */
  function AtLeastOne(retainLast: nat): (n: nat)
    ensures n >= 1 && n >= retainLast && (n == 1 || n == retainLast)
  {
    if retainLast == 0 then 1 else retainLast
  }

  /**
   What an operator asks for, on a table whose current snapshot states the boundary:
   nothing goes that is younger than `retainFor`, nor the current snapshot, nor one of the
   last `retainLast`; and whatever is older by a second, and is none of these, goes.
   Instants are nanoseconds, and snapshots are stamped in milliseconds.
   */
  predicate ExpiredAsAsked(t: Table, left: Table, now: int, retainFor: int, retainLast: nat, id: Id)
    requires id in t.snapshots
  {
    && (id in left.snapshots ==> left.snapshots[id] == t.snapshots[id])
    && (t.snapshots[id].at * 1_000_000 >= now - retainFor ==> id in left.snapshots)
    && (t.current == Some(id) ==> id in left.snapshots)
    && (|NotBefore(t.snapshots, id)| < AtLeastOne(retainLast) ==> id in left.snapshots)
    && (&& t.snapshots[id].at * 1_000_000 <= now - retainFor - 1_000_000_000
        && t.current != Some(id) && |After(t.snapshots, id)| >= AtLeastOne(retainLast)
        ==> id !in left.snapshots)
  }

  lemma ExpiresAsAsked(t: Table, now: int, retainFor: int, retainLast: nat, id: Id)
    requires t.Valid() && !NeedsRestamp(t) && id in t.snapshots
    ensures ExpiredAsAsked(t, Expired(t, CutoffMillis(now, retainFor), retainLast), now, retainFor, retainLast, id)
  {
    var snaps := t.snapshots;
    SubsetCount(After(snaps, id), Newer(snaps, id));
    SubsetCount(Newer(snaps, id), NotBefore(snaps, id));
    if t.current.Some? {
      assert Stops(snaps, t.current.value, 0) && t.current.value in Trail(snaps, t.current.value, 0);
      assert OnTrail(t, t.current.value);
      if OnTrail(t, id) {
        var n: nat :| Stops(snaps, t.current.value, n) && id in Trail(snaps, t.current.value, n);
        assert n == 0;
      }
    }
  }

  /** Running expiry again with the same cutoff removes nothing more. */
  lemma ExpiryIsIdempotent(t: Table, cutoff: int, retainLast: nat)
    requires Ends(t)
    ensures Expired(Expired(t, cutoff, retainLast), cutoff, retainLast) == Expired(t, cutoff, retainLast)
  {
    var left := Expired(t, cutoff, retainLast);
    TrailSurvives(t, cutoff, retainLast);
    forall id | id in left.snapshots
      ensures !Doomed(left, cutoff, retainLast, id)
    {
      assert !Doomed(t, cutoff, retainLast, id);
      FewerNewer(left.snapshots, t.snapshots, id);
    }
    assert DoomedSet(left, cutoff, retainLast) == {};
    assert left.snapshots - {} == left.snapshots;
  }

  lemma FewerNewer(part: History, whole: History, id: Id)
    requires PartOf(part, whole) && id in part
    ensures |Newer(part, id)| <= |Newer(whole, id)|
  {
    SubsetCount(Newer(part, id), Newer(whole, id));
  }

  lemma SubsetCount(part: set<Id>, whole: set<Id>)
    requires part <= whole
    ensures |part| <= |whole|
  {
    assert whole == part + (whole - part);
  }

  // ---------------------------------------------------------------- restating the boundary

  /** The current snapshot was written by something that knows nothing about tiering. */
  predicate NeedsRestamp(t: Table)
    requires t.Valid()
  {
    t.current.Some? && Boundary !in t.snapshots[t.current.value].props
  }

  /** An empty append on top of the current snapshot that republishes the boundary read below it. */
  function Restamped(t: Table, id: Id, at: int): Table
    requires t.Valid() && NeedsRestamp(t) && BoundaryOf(t).Success?
  {
    var under := t.snapshots[t.current.value];
    Table(t.snapshots[id := Snapshot(t.current, map[Boundary := BoundaryOf(t).value], under.files, at)], Some(id))
  }

  /** Restating never moves the boundary or the step, and a second time does nothing. */
  lemma RestampKeepsProperties(t: Table, id: Id, at: int)
    requires t.Valid() && NeedsRestamp(t) && BoundaryOf(t).Success? && id !in t.snapshots
    ensures var after := Restamped(t, id, at);
            && after.Valid() && !NeedsRestamp(after)
            && BoundaryOf(after) == BoundaryOf(t)
            && StepOf(after) == StepOf(t)
            && after.snapshots[id].files == t.snapshots[t.current.value].files
            && after.current == Some(id) && after.snapshots[id].parent == t.current && after.snapshots[id].at == at
            && after.snapshots.Keys == t.snapshots.Keys + {id}
            && forall other :: other in t.snapshots ==> after.snapshots[other] == t.snapshots[other]
  {
    var after := Restamped(t, id, at);
    PropertyIsFound(after, Boundary, 0, BoundaryOf(t).value);
    CommitKeepsUnstatedProperty(t, id, after.snapshots[id], Step);
  }

  // ---------------------------------------------------------------- the operations

  /** One cold table, for as long as nobody else commits to it. */
  class ColdTable {
    var table: Table

    constructor (table: Table)
      requires table.Valid()
      ensures this.table == table
    {
      this.table := table;
    }

    /** Commit no files and state the boundary again; `None` where the current snapshot states it itself. */
    method ReassertBoundary(id: Id, at: int) returns (r: Result<Option<Id>, Error>)
      requires table.Valid() && id !in table.snapshots
      modifies this
      ensures table.Valid()
      ensures r.Failure? <==> NeedsRestamp(old(table)) && BoundaryOf(old(table)).Failure?
      ensures r == Success(None) <==> !NeedsRestamp(old(table))
      ensures r.Success? && r.value.Some? ==> r.value == Some(id) && table == Restamped(old(table), id, at)
      ensures r.Failure? || r.value.None? ==> table == old(table)
      ensures BoundaryOf(table) == BoundaryOf(old(table)) && StepOf(table) == StepOf(old(table))
    {
      if !NeedsRestamp(table) {
        return Success(None);
      }
      var boundary := BoundaryOf(table);
      if boundary.Failure? {
        return Failure(boundary.error);
      }
      RestampKeepsProperties(table, id, at);
      table := Restamped(table, id, at);
      r := Success(Some(id));
    }

    /**
     Expire snapshots older than `retainFor`, keeping at least `retainLast`.
     The number expired, unless the table's history states no boundary at all.
     */
    method ExpireSnapshots(retainFor: int, retainLast: nat, now: int, id: Id, at: int)
      returns (r: Result<nat, Error>)
      requires table.Valid() && id !in table.snapshots
      modifies this
      ensures table.Valid()
      ensures r.Failure? <==> NeedsRestamp(old(table)) && BoundaryOf(old(table)).Failure?
      ensures r.Failure? ==> table == old(table)
      ensures r.Success? ==>
                var stamped := if NeedsRestamp(old(table)) then Restamped(old(table), id, at) else old(table);
                && stamped.Valid()
                && (forall snapshot :: snapshot in stamped.snapshots ==>
                      ExpiredAsAsked(stamped, table, now, retainFor, retainLast, snapshot))
                && table == Expired(stamped, CutoffMillis(now, retainFor), retainLast)
                && r.value == |stamped.snapshots| - |table.snapshots|
                && BoundaryOf(table) == BoundaryOf(old(table))
                && !NeedsRestamp(table)
    {
      var stamped := ReassertBoundary(id, at);
      if stamped.Failure? {
        return Failure(stamped.error);
      }
      StatedBoundaryIsReadable(table);
      ReadableTableEnds(table);
      ExpiryKeepsBoundary(table, CutoffMillis(now, retainFor), retainLast);
      var doomed := ChooseDoomed(table, CutoffMillis(now, retainFor), retainLast);
      forall snapshot | snapshot in table.snapshots
        ensures ExpiredAsAsked(table, Expired(table, CutoffMillis(now, retainFor), retainLast),
                               now, retainFor, retainLast, snapshot)
      {
        ExpiresAsAsked(table, now, retainFor, retainLast, snapshot);
      }
      ExpiredCount(table, CutoffMillis(now, retainFor), retainLast, doomed);
      table := Without(table, Elements(doomed));
      r := Success(|doomed|);
    }
  }

  lemma ExpiredCount(t: Table, cutoff: int, retainLast: nat, doomed: seq<Id>)
    requires t.Valid()
    requires forall id :: id in doomed <==> Doomed(t, cutoff, retainLast, id)
    requires forall i, j :: 0 <= i < j < |doomed| ==> doomed[i] != doomed[j]
    ensures Elements(doomed) == DoomedSet(t, cutoff, retainLast)
    ensures |t.snapshots| - |Expired(t, cutoff, retainLast).snapshots| == |doomed|
  {
    var gone := DoomedSet(t, cutoff, retainLast);
    assert Elements(doomed) == gone;
    DistinctCount(doomed);
    assert t.snapshots.Keys == (t.snapshots - gone).Keys + gone;
  }

  lemma StatedBoundaryIsReadable(t: Table)
    requires t.Valid() && !NeedsRestamp(t)
    ensures BoundaryOf(t).Success?
  {
    if t.current.Some? {
      PropertyIsFound(t, Boundary, 0, t.snapshots[t.current.value].props[Boundary]);
    }
  }
}
