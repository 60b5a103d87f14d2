/**
 The subject registry as a state machine over the statements of its transactions.

 Two tables, the deletable mapping and the append-only audit trail. Reads see what is
 committed as it was when its statement began; a transaction's writes appear when it
 commits; and an advisory lock keyed by the identifier is held from the moment it is taken
 to the end of the transaction. `FOR UPDATE` and `DELETE` lock the rows they found one
 after the other, each as soon as nobody else holds it, pass over a row that went in the
 meantime, and keep what they locked until the end.
 */
module Registry {
  import opened Results

  type Run = nat
  type NaturalId = string
  type Key = nat

  /** A pseudonymous reference: its retention epoch, and 128 random bits. */
  datatype Ref = Ref(epoch: int, token: nat)

  /** The keyed hash of an identifier, which no other key and identifier share. */
  datatype Tag = Mac(key: Key, id: NaturalId)

  /** The keys of one registry, newest first. The first writes, every one reads. */
  type Ring = seq<Key>

  datatype Mapping = Mapping(id: NaturalId, epoch: int)

  datatype Trigger = Request | Retention

  datatype Why = Why(reason: string, actor: string, at: int, trigger: Trigger)

  datatype Lifting = Lifting(at: int, actor: string, reason: string)

  datatype AuditRow = AuditRow(
    subject: Option<Ref>, why: Why, tag: Option<Tag>, keyName: Option<Key>, lifted: Option<Lifting>)

  type Mappings = map<Ref, Mapping>
  type Trail = seq<AuditRow>

  // ---------------------------------------------------------------- single statements

  function Tombstones(ring: Ring, id: NaturalId): seq<Tag> {
    seq(|ring|, i requires 0 <= i < |ring| => Mac(ring[i], id))
  }

  function Tombstone(ring: Ring, id: NaturalId): Option<Tag> {
    if ring == [] then None else Some(Mac(ring[0], id))
  }

  /** Whether any key of the ring recognises the identifier as erased. */
  predicate Suppressed(trail: Trail, ring: Ring, id: NaturalId) {
    exists i :: 0 <= i < |trail| && trail[i].tag.Some? && trail[i].tag.value in Tombstones(ring, id)
  }

  /** The reference registered for an identifier in an epoch, if one is. */
  predicate HasMapping(mappings: Mappings, id: NaturalId, epoch: int) {
    exists ref :: ref in mappings && mappings[ref] == Mapping(id, epoch)
  }

  function MappedRefs(mappings: Mappings, id: NaturalId): set<Ref> {
    set ref | ref in mappings && mappings[ref].id == id
  }

  predicate Audited(trail: Trail, ref: Ref) {
    exists i :: 0 <= i < |trail| && trail[i].subject == Some(ref)
  }

  function Coalesce<T>(first: Option<T>, second: Option<T>): Option<T> {
    if first.Some? then first else second
  }

  function KeyNameOf(tag: Option<Tag>): Option<Key> {
    if tag.Some? then Some(tag.value.key) else None
  }

  /** `INSERT ... ON CONFLICT (subject_ref) DO UPDATE`, which fills an absent tombstone and changes nothing else. */
  function Upsert(trail: Trail, ref: Ref, tag: Option<Tag>, why: Why): Trail {
    if trail == [] then [AuditRow(Some(ref), why, tag, KeyNameOf(tag), None)]
    else if trail[0].subject == Some(ref) then
      [trail[0].(tag := Coalesce(trail[0].tag, tag),
                 keyName := Coalesce(trail[0].keyName, KeyNameOf(tag)))] + trail[1..]
    else [trail[0]] + Upsert(trail[1..], ref, tag, why)
  }

  function UpsertAll(trail: Trail, refs: seq<Ref>, tag: Option<Tag>, why: Why): Trail
    decreases |refs|
  {
    if refs == [] then trail else UpsertAll(Upsert(trail, refs[0], tag, why), refs[1..], tag, why)
  }

  /** `INSERT ... ON CONFLICT (subject_ref) DO NOTHING`, for a linkage that expired. */
  function AuditExpiry(trail: Trail, ref: Ref, why: Why): Trail {
    if Audited(trail, ref) then trail else trail + [AuditRow(Some(ref), why, None, None, None)]
  }

  function AuditExpiries(trail: Trail, refs: seq<Ref>, why: Why): Trail
    decreases |refs|
  {
    if refs == [] then trail else AuditExpiries(AuditExpiry(trail, refs[0], why), refs[1..], why)
  }

  function LiftRow(row: AuditRow, ring: Ring, id: NaturalId, lifting: Lifting): AuditRow {
    if row.tag.Some? && row.tag.value in Tombstones(ring, id)
    then row.(tag := None, keyName := None, lifted := Some(lifting))
    else row
  }

  function LiftAll(trail: Trail, ring: Ring, id: NaturalId, lifting: Lifting): Trail {
    seq(|trail|, i requires 0 <= i < |trail| => LiftRow(trail[i], ring, id, lifting))
  }

  // ---------------------------------------------------------------- erasure as a whole

  /** A request names one reference, or the person behind all of them. */
  datatype Subject = Reference(ref: Ref) | Natural(id: NaturalId)

  /** What gets audited: every mapping found, or the reference given when there is none. */
  function Audits(subject: Subject, targets: seq<Ref>): seq<Ref> {
    if targets == [] && subject.Reference? then [subject.ref] else targets
  }

  /** The trail after an erasure; `already` is whether the identifier was suppressed when it looked. */
  function TrailAfterErasure(trail: Trail, subject: Subject, natural: Option<NaturalId>, targets: seq<Ref>,
                             already: bool, ring: Ring, why: Why): Trail
  {
    var tag := if natural.Some? then Tombstone(ring, natural.value) else None;
    var refs := Audits(subject, targets);
    if refs == [] && tag.Some? && !already
    then trail + [AuditRow(None, why, tag, KeyNameOf(tag), None)]
    else UpsertAll(trail, refs, tag, why)
  }

  function Elements(refs: seq<Ref>): set<Ref> {
    set ref | ref in refs
  }

  /** What is linked to the identifier of a request, if it names one. */
  function Linked(mappings: Mappings, natural: Option<NaturalId>): set<Ref> {
    if natural.Some? then MappedRefs(mappings, natural.value) else {}
  }

  /** `ORDER BY epoch`. No two references of one identifier share an epoch. */
  predicate InEpochOrder(refs: seq<Ref>) {
    forall i, j :: 0 <= i < j < |refs| ==> refs[i].epoch < refs[j].epoch
  }

  // ---------------------------------------------------------------- the state

  datatype Phase =
    | Idle
    | Registering(id: NaturalId, epoch: int, ring: Ring)
    | RegMissed(id: NaturalId, epoch: int, ring: Ring)
    | RegLocked(id: NaturalId, epoch: int, ring: Ring)
    | RegReread(id: NaturalId, epoch: int, ring: Ring)
    | RegAllowed(id: NaturalId, epoch: int, ring: Ring)
    | Erasing(subject: Subject, ring: Ring, why: Why)
    | EraseResolved(subject: Subject, natural: Option<NaturalId>, ring: Ring, why: Why)
    | EraseLocked(subject: Subject, natural: Option<NaturalId>, ring: Ring, why: Why)
    | EraseSelecting(subject: Subject, natural: Option<NaturalId>, targets: seq<Ref>, pending: seq<Ref>, ring: Ring,
                     why: Why)
    | EraseDecided(subject: Subject, natural: Option<NaturalId>, targets: seq<Ref>, already: bool, ring: Ring, why: Why)
    | Sweeping(rows: seq<Ref>, pending: seq<Ref>, why: Why)
    | Finished(ref: Option<Ref>)
  {
    /** The identifier whose advisory lock this transaction holds. */
    function Locks(): Option<NaturalId> {
      match this
      case RegLocked(id, _, _) => Some(id)
      case RegReread(id, _, _) => Some(id)
      case RegAllowed(id, _, _) => Some(id)
      case EraseLocked(_, natural, _, _) => natural
      case EraseSelecting(_, natural, _, _, _, _) => natural
      case EraseDecided(_, natural, _, _, _, _) => natural
      case _ => None
    }

    /** Mapping rows this transaction has locked. */
    function Rows(): set<Ref> {
      match this
      case EraseSelecting(_, _, targets, _, _, _) => Elements(targets)
      case EraseDecided(_, _, targets, _, _, _) => Elements(targets)
      case Sweeping(rows, _, _) => Elements(rows)
      case _ => {}
    }

    /** Mapping rows a statement under way has found and not reached yet. */
    function Waiting(): seq<Ref> {
      match this
      case EraseSelecting(_, _, _, pending, _, _) => pending
      case Sweeping(_, pending, _) => pending
      case _ => []
    }

    /** Whether this is an erasure that asks by this reference. */
    predicate AsksBy(ref: Ref) {
      && (Erasing? || EraseResolved? || EraseLocked? || EraseSelecting? || EraseDecided?)
      && subject == Reference(ref)
    }
  }

  datatype State = State(
    lockKey: NaturalId -> int,      // 64 bits of a digest: two identifiers may share one
    mappings: Mappings,
    trail: Trail,
    issued: map<Ref, NaturalId>,    // every reference ever minted, and for whom
    phases: map<Run, Phase>)

  function PhaseOf(s: State, run: Run): Phase {
    if run in s.phases then s.phases[run] else Idle
  }

  function With(s: State, run: Run, p: Phase): State {
    s.(phases := s.phases[run := p])
  }

  /** Nobody else holds the advisory lock of `id`, or of an identifier that shares its key. */
  predicate LockFree(s: State, run: Run, id: NaturalId) {
    forall other :: other in s.phases && other != run && s.phases[other].Locks().Some? ==>
                      s.lockKey(s.phases[other].Locks().value) != s.lockKey(id)
  }

  predicate RowsFree(s: State, run: Run, refs: set<Ref>) {
    forall other :: other in s.phases && other != run ==> s.phases[other].Rows() !! refs
  }

  // ---------------------------------------------------------------- steps

  datatype Action =
    | BeginRegister(run: Run, id: NaturalId, epoch: int, ring: Ring)
    | FastRead(run: Run)
    | RegisterLock(run: Run)
    | Reread(run: Run)
    | CheckSuppressed(run: Run)
    | Insert(run: Run, ref: Ref)
    | BeginErase(run: Run, subject: Subject, ring: Ring, why: Why)
    | Resolve(run: Run)
    | EraseLock(run: Run)
    | Select(run: Run, refs: seq<Ref>)
    | LockRow(run: Run)
    | Decide(run: Run)
    | CommitErase(run: Run)
    | SweepBatch(run: Run, boundary: int, rows: seq<Ref>, why: Why)
    | CommitSweep(run: Run)
    | Lift(id: NaturalId, ring: Ring, lifting: Lifting)
    | Abort(run: Run)

  /**
   A new reference is drawn at random: it was never issued, nothing was audited under it, and
   nobody is asking by it.
   */
  predicate Unheard(s: State, ref: Ref) {
    && ref !in s.issued && !Audited(s.trail, ref)
    && forall run :: run in s.phases ==> !s.phases[run].AsksBy(ref)
  }

  /** Each of `refs` once. */
  predicate Distinct(refs: seq<Ref>) {
    forall i, j :: 0 <= i < j < |refs| ==> refs[i] != refs[j]
  }

  ghost predicate Enabled(s: State, a: Action) {
    match a
    case BeginRegister(run, _, _, _) => PhaseOf(s, run).Idle?
    case FastRead(run) => PhaseOf(s, run).Registering?
    case RegisterLock(run) => PhaseOf(s, run).RegMissed? && LockFree(s, run, PhaseOf(s, run).id)
    case Reread(run) => PhaseOf(s, run).RegLocked?
    case CheckSuppressed(run) => PhaseOf(s, run).RegReread?
    case Insert(run, ref) =>
      && PhaseOf(s, run).RegAllowed? && ref.epoch == PhaseOf(s, run).epoch
      && Unheard(s, ref)
    case BeginErase(run, _, _, _) => PhaseOf(s, run).Idle?
    case Resolve(run) => PhaseOf(s, run).Erasing?
    case EraseLock(run) =>
      && PhaseOf(s, run).EraseResolved?
      && (PhaseOf(s, run).natural.Some? ==> LockFree(s, run, PhaseOf(s, run).natural.value))
    case Select(run, refs) =>
      && PhaseOf(s, run).EraseLocked? && InEpochOrder(refs)
      && Elements(refs) == Linked(s.mappings, PhaseOf(s, run).natural)
    case LockRow(run) =>
      && PhaseOf(s, run).Waiting() != []
      && (PhaseOf(s, run).Waiting()[0] in s.mappings ==> RowsFree(s, run, {PhaseOf(s, run).Waiting()[0]}))
    case Decide(run) => PhaseOf(s, run).EraseSelecting? && PhaseOf(s, run).pending == []
    case CommitErase(run) =>
      && PhaseOf(s, run).EraseDecided?
      && RowsFree(s, run, Elements(Audits(PhaseOf(s, run).subject, PhaseOf(s, run).targets)))
    case SweepBatch(run, boundary, rows, _) =>
      && PhaseOf(s, run).Idle? && Distinct(rows)
      && forall ref :: ref in rows ==> ref in s.mappings && s.mappings[ref].epoch < boundary
    case CommitSweep(run) => PhaseOf(s, run).Sweeping? && PhaseOf(s, run).pending == []
    case Lift(_, _, _) => true
    case Abort(run) => !PhaseOf(s, run).Idle? && !PhaseOf(s, run).Finished?
  }

  /** Two references are never mapped to one identifier and epoch: the table's unique index. */
  predicate UniquePairs(mappings: Mappings) {
    forall a, b :: a in mappings && b in mappings && mappings[a] == mappings[b] ==> a == b
  }

  /** The reference a lookup returns, or none. */
  ghost function Lookup(mappings: Mappings, id: NaturalId, epoch: int): (found: Option<Ref>)
    ensures found.Some? <==> HasMapping(mappings, id, epoch)
    ensures found.Some? ==> found.value in mappings && mappings[found.value] == Mapping(id, epoch)
  {
    if HasMapping(mappings, id, epoch)
    then var ref :| ref in mappings && mappings[ref] == Mapping(id, epoch); Some(ref)
    else None
  }

  /** The steps that change a table, and the lift, which is one statement of its own. */
  predicate Writes(a: Action) {
    a.Insert? || a.CommitErase? || a.CommitSweep? || a.Lift?
  }

  /** Where a step that only reads or locks leaves its own transaction. */
  ghost function NextPhase(s: State, a: Action): Phase
    requires Enabled(s, a) && !Writes(a)
  {
    var p := PhaseOf(s, a.run);
    match a
    case BeginRegister(_, id, epoch, ring) => Registering(id, epoch, ring)
    case FastRead(_) =>
      var found := Lookup(s.mappings, p.id, p.epoch);
      if found.Some? then Finished(found) else RegMissed(p.id, p.epoch, p.ring)
    case RegisterLock(_) => RegLocked(p.id, p.epoch, p.ring)
    case Reread(_) =>
      var found := Lookup(s.mappings, p.id, p.epoch);
      if found.Some? then Finished(found) else RegReread(p.id, p.epoch, p.ring)
    case CheckSuppressed(_) =>
      if Suppressed(s.trail, p.ring, p.id) then Finished(None) else RegAllowed(p.id, p.epoch, p.ring)
    case BeginErase(_, subject, ring, why) => Erasing(subject, ring, why)
    case Resolve(_) => EraseResolved(p.subject, Resolved(s.mappings, p.subject), p.ring, p.why)
    case EraseLock(_) => EraseLocked(p.subject, p.natural, p.ring, p.why)
    case Select(_, refs) => EraseSelecting(p.subject, p.natural, [], refs, p.ring, p.why)
    case LockRow(_) =>
      var locked := if p.Waiting()[0] in s.mappings then [p.Waiting()[0]] else [];
      if p.Sweeping? then Sweeping(p.rows + locked, p.pending[1..], p.why)
      else EraseSelecting(p.subject, p.natural, p.targets + locked, p.pending[1..], p.ring, p.why)
    case Decide(_) =>
      var already := p.natural.Some? && Suppressed(s.trail, p.ring, p.natural.value);
      EraseDecided(p.subject, p.natural, p.targets, already, p.ring, p.why)
    case SweepBatch(_, _, rows, why) => Sweeping([], rows, why)
    case Abort(_) => Finished(None)
  }

  /** The identifier an erasure is about, read without a lock. */
  function Resolved(mappings: Mappings, subject: Subject): Option<NaturalId> {
    match subject
    case Natural(id) => Some(id)
    case Reference(ref) => if ref in mappings then Some(mappings[ref].id) else None
  }

  ghost function Apply(s: State, a: Action): State
    requires Enabled(s, a)
  {
    match a
    case Insert(run, ref) =>
      var p := PhaseOf(s, run);
      var found := Lookup(s.mappings, p.id, p.epoch);
      if found.Some? then With(s, run, Finished(found))
      else With(s.(mappings := s.mappings[ref := Mapping(p.id, p.epoch)], issued := s.issued[ref := p.id]),
                run, Finished(Some(ref)))
    case CommitErase(run) =>
      var p := PhaseOf(s, run);
      With(s.(mappings := s.mappings - Elements(Audits(p.subject, p.targets)),
              trail := TrailAfterErasure(s.trail, p.subject, p.natural, p.targets, p.already, p.ring, p.why)),
           run, Finished(None))
    case CommitSweep(run) =>
      var p := PhaseOf(s, run);
      With(s.(mappings := s.mappings - Elements(p.rows), trail := AuditExpiries(s.trail, p.rows, p.why)),
           run, Finished(None))
    case Lift(id, ring, lifting) => s.(trail := LiftAll(s.trail, ring, id, lifting))
    case _ => With(s, a.run, NextPhase(s, a))
  }

  // ---------------------------------------------------------------- runs

  ghost predicate ValidRun(s: State, actions: seq<Action>)
    decreases |actions|
  {
    actions == [] || (Enabled(s, actions[0]) && ValidRun(Apply(s, actions[0]), actions[1..]))
  }

  ghost function Exec(s: State, actions: seq<Action>): State
    requires ValidRun(s, actions)
    decreases |actions|
  {
    if actions == [] then s else Exec(Apply(s, actions[0]), actions[1..])
  }

  /** Both tables empty and nobody at work. */
  function Initial(lockKey: NaturalId -> int): State {
    State(lockKey, map[], [], map[], map[])
  }

  /** What no run can take away: rows stay where they are, and keep the subject and the reasons first written. */
  predicate TrailKept(before: Trail, now: Trail) {
    && |before| <= |now|
    && forall i :: 0 <= i < |before| ==>
                     && now[i].subject == before[i].subject && now[i].why == before[i].why
                     && (before[i].lifted.Some? ==> now[i].lifted.Some?)
                     && (before[i].tag.Some? ==> now[i].tag == before[i].tag || now[i].lifted.Some?)
  }

  // ---------------------------------------------------------------- the report on a shrunken ring

  /** The rows that name a key. */
  function RowsNaming(trail: Trail, key: Key): set<nat> {
    set i | 0 <= i < |trail| && trail[i].keyName == Some(key)
  }

  /** `orphaned_suppressions`: the count of each key that wrote a live tombstone and is not in the ring. */
  function OrphanedSuppressions(trail: Trail, ring: Ring): map<Key, nat> {
    map row | row in trail && row.keyName.Some? && row.keyName.value !in ring
      :: row.keyName.value := |RowsNaming(trail, row.keyName.value)|
  }
}
