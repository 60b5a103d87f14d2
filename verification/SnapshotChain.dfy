/**
 A table's snapshot history, and the bounded walk that reads a property out of it.

 Commits from other tools carry none of this crate's properties, so a property is
 read from the nearest ancestor that does carry it.
 */
module SnapshotChain {
  import opened Results

  type Id = nat
  type File = nat

  /** The two summary properties that are ever read back. Instants and steps are integers. */
  datatype Key = Boundary | Step

  datatype Snapshot = Snapshot(parent: Option<Id>, props: map<Key, int>, files: set<File>, at: int)

  type History = map<Id, Snapshot>

  datatype Table = Table(snapshots: History, current: Option<Id>) {
    /** The current pointer, when there is one, names a snapshot that exists. */
    predicate Valid() {
      current.Some? ==> current.value in snapshots
    }
  }

  datatype Error = NoBoundary | BadStep

  // ---------------------------------------------------------------- the walk

  /** The parent of `id`, if it names one that still resolves. */
  function Parent(snaps: History, id: Id): (p: Option<Id>)
    requires id in snaps
  {
    var p := snaps[id].parent;
    if p.Some? && p.value in snaps then p else None
  }

  /** The walk from `id`, looking at no more than `bound` snapshots. */
  function Walk(snaps: History, id: Id, key: Key, bound: nat): Option<int>
    requires id in snaps
    decreases bound
  {
    if bound == 0 then None
    else if key in snaps[id].props then Some(snaps[id].props[key])
    else if Parent(snaps, id).None? then None
    else Walk(snaps, Parent(snaps, id).value, key, bound - 1)
  }

  function SummaryProperty(t: Table, key: Key): Option<int>
    requires t.Valid()
  {
    if t.current.None? then None
    else Walk(t.snapshots, t.current.value, key, |t.snapshots| + 1)
  }

  /** The walk as it is run: a snapshot variable advanced at most once per snapshot, plus one. */
  method ReadSummaryProperty(t: Table, key: Key) returns (value: Option<int>)
    requires t.Valid()
    ensures value == SummaryProperty(t, key)
  {
    if t.current.None? {
      return None;
    }
    var snapshot := t.current.value;
    for i := 0 to |t.snapshots| + 1
      invariant snapshot in t.snapshots
      invariant SummaryProperty(t, key) == Walk(t.snapshots, snapshot, key, |t.snapshots| + 1 - i)
    {
      if key in t.snapshots[snapshot].props {
        return Some(t.snapshots[snapshot].props[key]);
      }
      var parent := Parent(t.snapshots, snapshot);
      if parent.None? {
        return None;
      }
      snapshot := parent.value;
    }
    return None;
  }

  /** The tier boundary. Nothing committed means everything is hot. */
  function BoundaryOf(t: Table): Result<int, Error>
    requires t.Valid()
  {
    if t.current.None? then Success(0)
    else
      match SummaryProperty(t, Boundary)
      case Some(v) => Success(v)
      case None => Failure(NoBoundary)
  }

  /** The step that the nearest snapshot to state one states. */
  function StepOf(t: Table): Result<Option<int>, Error>
    requires t.Valid()
  {
    match SummaryProperty(t, Step)
    case None => Success(None)
    case Some(v) => if v <= 0 then Failure(BadStep) else Success(Some(v))
  }

  // ---------------------------------------------------------------- the unbounded walk

  /** Following parents from `id` for exactly `n` steps meets `key` for the first time, as `v`. */
  predicate Finds(snaps: History, id: Id, key: Key, n: nat, v: int)
    decreases n
  {
    && id in snaps
    && if key in snaps[id].props then n == 0 && v == snaps[id].props[key]
       else n > 0 && Parent(snaps, id).Some? && Finds(snaps, Parent(snaps, id).value, key, n - 1, v)
  }

  /** The snapshots looked at on the way. */
  function Path(snaps: History, id: Id, key: Key, n: nat, v: int): (path: set<Id>)
    requires Finds(snaps, id, key, n, v)
    ensures id in path && path <= snaps.Keys
    decreases n
  {
    if n == 0 then {id} else {id} + Path(snaps, Parent(snaps, id).value, key, n - 1, v)
  }

  lemma {:induction false} FindsIsUnique(snaps: History, id: Id, key: Key, n: nat, v: int, n': nat, v': int)
    requires Finds(snaps, id, key, n, v) && Finds(snaps, id, key, n', v')
    ensures n == n' && v == v'
    decreases n
  {
    if n > 0 {
      FindsIsUnique(snaps, Parent(snaps, id).value, key, n - 1, v, n' - 1, v');
    }
  }

  /** A snapshot further from the property than `x` is not met on the way from `x`. */
  lemma {:induction false} PathAvoids(snaps: History, x: Id, key: Key, n: nat, v: int, id: Id, m: nat)
    requires Finds(snaps, x, key, n, v) && Finds(snaps, id, key, m, v) && n < m
    ensures Finds(snaps - {id}, x, key, n, v)
    decreases n
  {
    if x == id {
      FindsIsUnique(snaps, x, key, n, v, m, v);
    } else if n > 0 {
      PathAvoids(snaps, Parent(snaps, x).value, key, n - 1, v, id, m);
    }
  }

  /** The pigeonhole: a walk that finds the property visits each snapshot once at most. */
  lemma {:induction false} FindsWithinCount(snaps: History, id: Id, key: Key, n: nat, v: int)
    requires Finds(snaps, id, key, n, v)
    ensures n < |snaps|
    decreases n
  {
    var rest := snaps - {id};
    assert snaps == rest[id := snaps[id]];
    if n > 0 {
      var parent := Parent(snaps, id).value;
      PathAvoids(snaps, parent, key, n - 1, v, id, n);
      FindsWithinCount(rest, parent, key, n - 1, v);
    }
  }

  lemma {:induction false} WalkFinds(snaps: History, id: Id, key: Key, bound: nat) returns (n: nat)
    requires id in snaps && Walk(snaps, id, key, bound).Some?
    ensures n < bound && Finds(snaps, id, key, n, Walk(snaps, id, key, bound).value)
    decreases bound
  {
    if key in snaps[id].props {
      n := 0;
    } else {
      var m := WalkFinds(snaps, Parent(snaps, id).value, key, bound - 1);
      n := m + 1;
    }
  }

  lemma {:induction false} FindsWalks(snaps: History, id: Id, key: Key, bound: nat, n: nat, v: int)
    requires Finds(snaps, id, key, n, v) && n < bound
    ensures Walk(snaps, id, key, bound) == Some(v)
    decreases n
  {
    if n > 0 {
      FindsWalks(snaps, Parent(snaps, id).value, key, bound - 1, n - 1, v);
    }
  }

  /** What the unbounded walk would meet, the bounded one answers. */
  lemma PropertyIsFound(t: Table, key: Key, n: nat, v: int)
    requires t.Valid() && t.current.Some? && Finds(t.snapshots, t.current.value, key, n, v)
    ensures SummaryProperty(t, key) == Some(v)
  {
    FindsWithinCount(t.snapshots, t.current.value, key, n, v);
    FindsWalks(t.snapshots, t.current.value, key, |t.snapshots| + 1, n, v);
    assert Walk(t.snapshots, t.current.value, key, |t.snapshots| + 1) == Some(v);
  }

  lemma PropertyWasFound(t: Table, key: Key) returns (n: nat)
    requires t.Valid() && SummaryProperty(t, key).Some?
    ensures t.current.Some?
    ensures Finds(t.snapshots, t.current.value, key, n, SummaryProperty(t, key).value)
  {
    n := WalkFinds(t.snapshots, t.current.value, key, |t.snapshots| + 1);
  }

  /**
   The bound costs nothing: on any history, cyclic ones included, the bounded walk
   answers `v` exactly when following parents forever would meet the property as `v`.
   */
  lemma BoundedWalkIsComplete(t: Table, key: Key, v: int)
    requires t.Valid() && t.current.Some?
    ensures SummaryProperty(t, key) == Some(v) <==>
            exists n: nat :: Finds(t.snapshots, t.current.value, key, n, v)
  {
    if SummaryProperty(t, key) == Some(v) {
      var n := PropertyWasFound(t, key);
      assert exists n: nat :: Finds(t.snapshots, t.current.value, key, n, v);
    } else if exists n: nat :: Finds(t.snapshots, t.current.value, key, n, v) {
      var n: nat :| Finds(t.snapshots, t.current.value, key, n, v);
      PropertyIsFound(t, key, n, v);
    }
  }

  /**
   What a table says, on any history: the boundary that following parents meets first, the
   epoch where nothing was committed, and otherwise a refusal; and the step met first, if
   it is one, or none.
   */
  lemma TableSaysWhatIsMet(t: Table, n: nat, v: int)
    requires t.Valid()
    ensures t.current.None? ==> BoundaryOf(t) == Success(0) && StepOf(t) == Success(None)
    ensures t.current.Some? && Finds(t.snapshots, t.current.value, Boundary, n, v) ==> BoundaryOf(t) == Success(v)
    ensures t.current.Some? && (forall k: nat, w :: !Finds(t.snapshots, t.current.value, Boundary, k, w)) ==>
              BoundaryOf(t) == Failure(NoBoundary)
    ensures t.current.Some? && Finds(t.snapshots, t.current.value, Step, n, v) ==>
              StepOf(t) == if v > 0 then Success(Some(v)) else Failure(BadStep)
    ensures t.current.Some? && (forall k: nat, w :: !Finds(t.snapshots, t.current.value, Step, k, w)) ==>
              StepOf(t) == Success(None)
  {
    if t.current.Some? {
      if Finds(t.snapshots, t.current.value, Boundary, n, v) {
        PropertyIsFound(t, Boundary, n, v);
      }
      if Finds(t.snapshots, t.current.value, Step, n, v) {
        PropertyIsFound(t, Step, n, v);
      }
      if SummaryProperty(t, Boundary).Some? {
        var k := PropertyWasFound(t, Boundary);
      }
      if SummaryProperty(t, Step).Some? {
        var k := PropertyWasFound(t, Step);
      }
    }
  }

  // ---------------------------------------------------------------- histories that lose or gain snapshots

  /** A part of a history: snapshots never change, they are only added or expired. */
  predicate PartOf(part: History, whole: History) {
    forall id :: id in part ==> id in whole && part[id] == whole[id]
  }

  lemma {:induction false} FindsInWhole(part: History, whole: History, id: Id, key: Key, n: nat, v: int)
    requires PartOf(part, whole) && Finds(part, id, key, n, v)
    ensures Finds(whole, id, key, n, v)
    ensures Path(whole, id, key, n, v) == Path(part, id, key, n, v)
    decreases n
  {
    if n > 0 {
      FindsInWhole(part, whole, Parent(part, id).value, key, n - 1, v);
    }
  }

  lemma {:induction false} FindsOffPath(snaps: History, doomed: set<Id>, id: Id, key: Key, n: nat, v: int)
    requires Finds(snaps, id, key, n, v) && Path(snaps, id, key, n, v) !! doomed
    ensures Finds(snaps - doomed, id, key, n, v)
    ensures Path(snaps - doomed, id, key, n, v) == Path(snaps, id, key, n, v)
    decreases n
  {
    if n > 0 {
      FindsOffPath(snaps, doomed, Parent(snaps, id).value, key, n - 1, v);
    }
  }

  /**
   Whatever is expired other than the current snapshot, a property still read is the
   property that was read before: an older value is never exposed.
   */
  lemma ExpiryNeverExposesOlderValue(t: Table, doomed: set<Id>, key: Key)
    requires t.Valid() && (t.current.Some? ==> t.current.value !in doomed)
    ensures var left := t.(snapshots := t.snapshots - doomed);
            && left.Valid()
            && (SummaryProperty(left, key).Some? ==> SummaryProperty(left, key) == SummaryProperty(t, key))
  {
    var left := t.(snapshots := t.snapshots - doomed);
    if SummaryProperty(left, key).Some? {
      var id, v := t.current.value, SummaryProperty(left, key).value;
      var n := PropertyWasFound(left, key);
      FindsInWhole(left.snapshots, t.snapshots, id, key, n, v);
      PropertyIsFound(t, key, n, v);
    }
  }

  /** And it is the same property whenever the snapshots walked over are kept. */
  lemma ExpiryOffPathKeepsValue(t: Table, doomed: set<Id>, key: Key, n: nat, v: int)
    requires t.Valid() && t.current.Some? && Finds(t.snapshots, t.current.value, key, n, v)
    requires Path(t.snapshots, t.current.value, key, n, v) !! doomed
    ensures var left := t.(snapshots := t.snapshots - doomed);
            left.Valid() && SummaryProperty(left, key) == SummaryProperty(t, key) == Some(v)
  {
    FindsOffPath(t.snapshots, doomed, t.current.value, key, n, v);
    PropertyIsFound(t, key, n, v);
    PropertyIsFound(t.(snapshots := t.snapshots - doomed), key, n, v);
  }

  /** A commit on the current snapshot that does not state a property leaves it readable as it was. */
  lemma CommitKeepsUnstatedProperty(t: Table, id: Id, added: Snapshot, key: Key)
    requires t.Valid() && t.current.Some? && id !in t.snapshots
    requires added.parent == t.current && key !in added.props
    ensures var after := Table(t.snapshots[id := added], Some(id));
            after.Valid() && SummaryProperty(after, key) == SummaryProperty(t, key)
  {
    var after := Table(t.snapshots[id := added], Some(id));
    assert PartOf(t.snapshots, after.snapshots);
    if SummaryProperty(t, key).Some? {
      var v := SummaryProperty(t, key).value;
      var n := PropertyWasFound(t, key);
      FindsInWhole(t.snapshots, after.snapshots, t.current.value, key, n, v);
      PropertyIsFound(after, key, n + 1, v);
    } else if SummaryProperty(after, key).Some? {
      var v := SummaryProperty(after, key).value;
      var n := PropertyWasFound(after, key);
      PathAvoids(after.snapshots, t.current.value, key, n - 1, v, id, n);
      assert after.snapshots - {id} == t.snapshots;
      PropertyIsFound(t, key, n - 1, v);
    }
  }
}
