/**
 The registry's operations as they are run one after another: registration, erasure with
 its loops over the epochs of a person, the batched retention sweep, and the lift.
 */
module SubjectStore {
  import opened Results
  import opened Text
  import opened Registry
  import opened RegistrySafety

  const SWEEP_BATCH: nat := 10_000

  datatype Refusal = BlankIdentifier | NoReason | Erased | NoKey

  datatype Record = Record(subject: Option<Ref>, why: Why)

  datatype SweepOutcome = SweepOutcome(subjects: nat, epochs: seq<int>, batches: nat, sweptAt: int)

  // ---------------------------------------------------------------- years in order

  predicate Ascending(years: seq<int>) {
    forall i, j :: 0 <= i < j < |years| ==> years[i] < years[j]
  }

  /** An ordered set of years, with one more. */
  function WithYear(years: seq<int>, year: int): (now: seq<int>)
    requires Ascending(years)
    ensures Ascending(now)
    ensures forall y :: y in now <==> y in years || y == year
  {
    if years == [] then [year]
    else if year < years[0] then [year] + years
    else if year == years[0] then years
    else
      var rest := WithYear(years[1..], year);
      assert forall y :: y in years <==> y == years[0] || y in years[1..];
      assert forall i :: 0 <= i < |rest| ==> rest[i] in years[1..] || rest[i] == year;
      [years[0]] + rest
  }

  // ---------------------------------------------------------------- what is due

  function Due(mappings: Mappings, boundary: int): set<Ref> {
    set ref | ref in mappings && mappings[ref].epoch < boundary
  }

  function Expired(ref: Ref, why: Why): AuditRow {
    AuditRow(Some(ref), why, None, None, None)
  }

  function ExpiredRows(refs: seq<Ref>, why: Why): seq<AuditRow> {
    seq(|refs|, i requires 0 <= i < |refs| => Expired(refs[i], why))
  }

  lemma {:induction false} DistinctCounts(refs: seq<Ref>)
    requires Distinct(refs)
    ensures |Elements(refs)| == |refs|
  {
    if refs != [] {
      var front := refs[..|refs| - 1];
      DistinctCounts(front);
      assert Elements(refs) == Elements(front) + {refs[|refs| - 1]};
      assert refs[|refs| - 1] !in front;
    }
  }

  lemma AuditedAfterAppend(trail: Trail, row: AuditRow, ref: Ref)
    ensures Audited(trail + [row], ref) <==> Audited(trail, ref) || row.subject == Some(ref)
  {
    var now := trail + [row];
    if Audited(trail, ref) {
      var i :| 0 <= i < |trail| && trail[i].subject == Some(ref);
      assert now[i].subject == Some(ref);
    }
    assert now[|trail|] == row;
    if Audited(now, ref) {
      var i :| 0 <= i < |now| && now[i].subject == Some(ref);
      assert i < |trail| ==> trail[i].subject == Some(ref);
    }
  }

  /** Expiring what nobody audited before is plain appending. */
  lemma {:induction false} ExpiriesAppend(trail: Trail, refs: seq<Ref>, why: Why)
    requires Distinct(refs) && forall ref :: ref in refs ==> !Audited(trail, ref)
    ensures AuditExpiries(trail, refs, why) == trail + ExpiredRows(refs, why)
    decreases |refs|
  {
    if refs != [] {
      var next := trail + [Expired(refs[0], why)];
      forall ref | ref in refs[1..] ensures !Audited(next, ref) {
        var j :| 0 <= j < |refs[1..]| && refs[1..][j] == ref;
        assert refs[j + 1] == ref && refs[0] != ref;
        AuditedAfterAppend(trail, Expired(refs[0], why), ref);
      }
      assert refs[0] in refs;
      ExpiriesAppend(next, refs[1..], why);
      assert trail + ExpiredRows(refs, why) == next + ExpiredRows(refs[1..], why);
    }
  }

  lemma ExpiredRowsTagNobody(trail: Trail, refs: seq<Ref>, why: Why)
    ensures forall ring, id :: Suppressed(trail + ExpiredRows(refs, why), ring, id) <==> Suppressed(trail, ring, id)
  {
    var now := trail + ExpiredRows(refs, why);
    forall ring, id ensures Suppressed(now, ring, id) <==> Suppressed(trail, ring, id) {
      if Suppressed(trail, ring, id) {
        var i :| 0 <= i < |trail| && trail[i].tag.Some? && trail[i].tag.value in Tombstones(ring, id);
        assert now[i] == trail[i];
      }
      if Suppressed(now, ring, id) {
        var i :| 0 <= i < |now| && now[i].tag.Some? && now[i].tag.value in Tombstones(ring, id);
        assert i < |trail| && now[i] == trail[i];
      }
    }
  }

  // ---------------------------------------------------------------- what an erasure comes to

  lemma OneMoreGone(refs: seq<Ref>, i: nat, mappings: Mappings)
    requires i < |refs|
    ensures Elements(refs[..i + 1]) == Elements(refs[..i]) + {refs[i]}
    ensures mappings - Elements(refs[..i + 1]) == mappings - Elements(refs[..i]) - {refs[i]}
  {
    assert Elements(refs[..i + 1]) == Elements(refs[..i]) + {refs[i]};
  }

  /** A reference named twice is deleted once. */
  lemma OneMoreDeleted(gone: set<Ref>, ref: Ref, live: set<Ref>)
    ensures |(gone + {ref}) * live| == |gone * live| + if ref in live && ref !in gone then 1 else 0
  {
    if ref in live && ref !in gone {
      assert (gone + {ref}) * live == gone * live + {ref};
    } else {
      assert (gone + {ref}) * live == gone * live;
    }
  }

  lemma RegisteringKeeps(mappings: Mappings, trail: Trail, issued: map<Ref, NaturalId>, id: NaturalId, epoch: int,
                         ref: Ref)
    requires MappingsInv(mappings, issued) && TrailInv(trail, issued) && Conserved(mappings, trail, issued)
    requires ref.epoch == epoch && ref !in issued && !Audited(trail, ref) && !HasMapping(mappings, id, epoch)
    ensures MappingsInv(mappings[ref := Mapping(id, epoch)], issued[ref := id])
    ensures TrailInv(trail, issued[ref := id])
    ensures Conserved(mappings[ref := Mapping(id, epoch)], trail, issued[ref := id])
  {
    assert ref !in mappings;
  }

  predicate ByEpoch(refs: seq<Ref>) {
    forall i, j :: 0 <= i < j < |refs| ==> refs[i].epoch < refs[j].epoch
  }

  lemma ByEpochIsDistinct(refs: seq<Ref>)
    requires ByEpoch(refs)
    ensures Distinct(refs)
  {
  }

  function Targets(mappings: Mappings, natural: Option<NaturalId>): set<Ref> {
    if natural.Some? then MappedRefs(mappings, natural.value) else {}
  }

  /** Linkages and trail after an erasure, told apart from the loops that make them. */
  lemma ErasureResult(mappings: Mappings, trail: Trail, issued: map<Ref, NaturalId>, subject: Subject,
                      targets: seq<Ref>, ring: Ring, why: Why)
    requires MappingsInv(mappings, issued) && TrailInv(trail, issued) && Conserved(mappings, trail, issued)
    requires Elements(targets) == Targets(mappings, Resolved(mappings, subject))
    ensures var natural := Resolved(mappings, subject);
      var refs := Audits(subject, targets);
      var already := natural.Some? && Suppressed(trail, ring, natural.value);
      var now := TrailAfterErasure(trail, subject, natural, targets, already, ring, why);
      && MappingsInv(mappings - Elements(refs), issued) && TrailInv(now, issued)
      && Conserved(mappings - Elements(refs), now, issued)
      && mappings - Elements(refs) == mappings - Elements(targets)
      && TrailKept(trail, now)
      && (forall ref :: ref in refs ==> Audited(now, ref))
  {
    var natural := Resolved(mappings, subject);
    var already := natural.Some? && Suppressed(trail, ring, natural.value);
    assert forall ref :: ref in targets ==> ref in Elements(targets);
    assert targets != [] ==> targets[0] in Elements(targets);
    ErasureKeepsTrail(trail, subject, natural, targets, already, ring, why, issued);
    if subject.Reference? {
      ReferenceIsTargeted(mappings, subject, targets);
    }
  }

  lemma ReferenceIsTargeted(mappings: Mappings, subject: Subject, targets: seq<Ref>)
    requires subject.Reference? && Elements(targets) == Targets(mappings, Resolved(mappings, subject))
    ensures subject.ref in mappings <==> targets != []
    ensures Resolved(mappings, subject).Some? ==> targets != []
  {
    assert targets != [] ==> targets[0] in Elements(targets);
    if subject.ref in mappings {
      assert subject.ref in MappedRefs(mappings, mappings[subject.ref].id);
    }
  }

  /** What an erasure reports: one record for each audited reference, or one that names none. */
  function RecordsOf(refs: seq<Ref>, tag: Option<Tag>, why: Why): seq<Record> {
    if refs == [] && tag.Some? then [Record(None, why)]
    else seq(|refs|, i requires 0 <= i < |refs| => Record(Some(refs[i]), why))
  }

  lemma RecordsNameTheTargets(refs: seq<Ref>, tag: Option<Tag>, why: Why)
    ensures forall ref :: ref in refs ==> Record(Some(ref), why) in RecordsOf(refs, tag, why)
    ensures forall record :: record in RecordsOf(refs, tag, why) ==>
      record.why == why && (record.subject.Some? ==> record.subject.value in refs)
    ensures refs != [] ==> |RecordsOf(refs, tag, why)| == |refs|
  {
    var records := RecordsOf(refs, tag, why);
    forall ref | ref in refs ensures Record(Some(ref), why) in records {
      var i :| 0 <= i < |refs| && refs[i] == ref;
      assert records[i] == Record(Some(ref), why);
    }
  }

  lemma RecordsInOrder(refs: seq<Ref>, tag: Option<Tag>, why: Why)
    requires refs != [] && ByEpoch(refs)
    ensures RecordsByEpoch(RecordsOf(refs, tag, why))
  {
    var records := RecordsOf(refs, tag, why);
    assert forall i :: 0 <= i < |refs| ==> records[i] == Record(Some(refs[i]), why);
  }

  lemma NothingIsRecorded(subject: Subject, natural: Option<NaturalId>, ring: Ring, why: Why)
    requires subject.Natural? ==> natural == Some(subject.id)
    ensures RecordsOf(if subject.Reference? then [subject.ref] else [],
                      if natural.Some? then Tombstone(ring, natural.value) else None, why)
         == RecordsOfNothing(subject, ring, why)
  {
  }

  lemma ErasureLeavesSuppressed(mappings: Mappings, trail: Trail, issued: map<Ref, NaturalId>, subject: Subject,
                                targets: seq<Ref>, ring: Ring, why: Why)
    requires Conserved(mappings, trail, issued) && MappingsInv(mappings, issued)
    requires Elements(targets) == Targets(mappings, Resolved(mappings, subject))
    requires Resolved(mappings, subject).Some? && ring != []
    ensures var id := Resolved(mappings, subject).value;
      Suppressed(TrailAfterErasure(trail, subject, Some(id), targets, Suppressed(trail, ring, id), ring, why), ring, id)
  {
    var id := Resolved(mappings, subject).value;
    var tag := Tombstone(ring, id);
    assert Tombstones(ring, id)[0] == tag.value;
    if subject.Reference? {
      ReferenceIsTargeted(mappings, subject, targets);
    }
    if targets != [] {
      assert targets[0] in Elements(targets);
      UpsertAllTags(trail, targets, tag, why);
    } else if !Suppressed(trail, ring, id) {
      var now := TrailAfterErasure(trail, subject, Some(id), targets, false, ring, why);
      assert now[|trail|].tag == tag;
    }
  }

  /** One record for each of them, oldest epoch first. */
  predicate RecordsByEpoch(records: seq<Record>) {
    && (forall i :: 0 <= i < |records| ==> records[i].subject.Some?)
    && forall i, j :: 0 <= i < j < |records| ==> records[i].subject.value.epoch < records[j].subject.value.epoch
  }

  /** Where nothing was linked: the reference asked by, or an identifier that a key can suppress, which has none. */
  function RecordsOfNothing(subject: Subject, ring: Ring, why: Why): seq<Record> {
    match subject
    case Reference(ref) => [Record(Some(ref), why)]
    case Natural(_) => if ring == [] then [] else [Record(None, why)]
  }

  /** Who a new audit row may be about: what was linked, or the reference asked by, or nobody it can name. */
  function NewSubjects(subject: Subject, targets: set<Ref>): set<Option<Ref>> {
    if targets != {} then set ref | ref in targets :: Some(ref)
    else if subject.Reference? then {Some(subject.ref)}
    else {None}
  }

  /** An erasure as its caller can check it. */
  predicate ErasedAsAsked(linked: Mappings, audited: Trail, mappings: Mappings, trail: Trail, subject: Subject,
                          ring: Ring, why: Why, records: seq<Record>, destroyed: bool)
  {
    var natural := Resolved(linked, subject);
    var targets := Targets(linked, natural);
    && mappings == linked - targets
    && TrailKept(audited, trail)
    && (destroyed <==> targets != {})
    && (natural.Some? && ring != [] ==> Suppressed(trail, ring, natural.value))
    && NewRowsTell(audited, trail, NewSubjects(subject, targets),
                   if natural.Some? && ring != [] then Some(Mac(ring[0], natural.value)) else None, why)
    && (destroyed ==> |records| == |targets| && RecordsByEpoch(records))
    && (!destroyed ==> records == RecordsOfNothing(subject, ring, why))
    && (forall record :: record in records ==>
          record.why == why && (record.subject.Some? ==> Audited(trail, record.subject.value)))
    && (forall ref :: ref in targets ==> Record(Some(ref), why) in records)
  }

  lemma ErasureIsAsAsked(mappings: Mappings, trail: Trail, issued: map<Ref, NaturalId>, subject: Subject,
                         targets: seq<Ref>, ring: Ring, why: Why)
    requires MappingsInv(mappings, issued) && TrailInv(trail, issued) && Conserved(mappings, trail, issued)
    requires ByEpoch(targets) && Elements(targets) == Targets(mappings, Resolved(mappings, subject))
    ensures var natural := Resolved(mappings, subject);
      var refs := Audits(subject, targets);
      var tag := if natural.Some? then Tombstone(ring, natural.value) else None;
      var already := natural.Some? && Suppressed(trail, ring, natural.value);
      var left, now := mappings - Elements(refs),
          TrailAfterErasure(trail, subject, natural, targets, already, ring, why);
      && MappingsInv(left, issued) && TrailInv(now, issued) && Conserved(left, now, issued)
      && ErasedAsAsked(mappings, trail, left, now, subject, ring, why, RecordsOf(refs, tag, why),
                       |Elements(refs) * mappings.Keys| > 0)
  {
    var natural := Resolved(mappings, subject);
    var refs := Audits(subject, targets);
    ErasureResult(mappings, trail, issued, subject, targets, ring, why);
    if natural.Some? && ring != [] {
      ErasureLeavesSuppressed(mappings, trail, issued, subject, targets, ring, why);
    }
    AuditsReachTargets(mappings, subject, targets);
    var already := natural.Some? && Suppressed(trail, ring, natural.value);
    NewRowsAfterErasure(mappings, trail, subject, targets, already, ring, why);
    AsAsked(mappings, trail, TrailAfterErasure(trail, subject, natural, targets, already, ring, why), subject, ring,
            why, refs);
  }

  lemma NewRowsAfterErasure(linked: Mappings, trail: Trail, subject: Subject, targets: seq<Ref>, already: bool,
                            ring: Ring, why: Why)
    requires TombstonesWhole(trail) && Elements(targets) == Targets(linked, Resolved(linked, subject))
    ensures var natural := Resolved(linked, subject);
      NewRowsTell(trail, TrailAfterErasure(trail, subject, natural, targets, already, ring, why),
                  NewSubjects(subject, Targets(linked, natural)),
                  if natural.Some? && ring != [] then Some(Mac(ring[0], natural.value)) else None, why)
  {
    var natural := Resolved(linked, subject);
    var tag := if natural.Some? then Tombstone(ring, natural.value) else None;
    var refs := Audits(subject, targets);
    assert targets != [] ==> targets[0] in Elements(targets);
    if !(refs == [] && tag.Some? && !already) {
      UpsertAllAddsRows(trail, refs, tag, why, NewSubjects(subject, Elements(targets)));
    }
  }

  lemma AsAsked(linked: Mappings, audited: Trail, now: Trail, subject: Subject, ring: Ring, why: Why, refs: seq<Ref>)
    requires TrailKept(audited, now) && forall ref :: ref in refs ==> Audited(now, ref)
    requires var natural := Resolved(linked, subject);
      NewRowsTell(audited, now, NewSubjects(subject, Targets(linked, natural)),
                  if natural.Some? && ring != [] then Some(Mac(ring[0], natural.value)) else None, why)
    requires var natural := Resolved(linked, subject);
      && (natural.Some? && ring != [] ==> Suppressed(now, ring, natural.value))
      && Elements(refs) * linked.Keys == Targets(linked, natural)
      && (Targets(linked, natural) != {} ==> refs != [] && |refs| == |Targets(linked, natural)| && ByEpoch(refs))
      && (Targets(linked, natural) == {} ==> refs == if subject.Reference? then [subject.ref] else [])
    ensures var natural := Resolved(linked, subject);
      var tag := if natural.Some? then Tombstone(ring, natural.value) else None;
      ErasedAsAsked(linked, audited, linked - Elements(refs), now, subject, ring, why, RecordsOf(refs, tag, why),
                    |Elements(refs) * linked.Keys| > 0)
  {
    hide NewRowsTell, NewSubjects;
    hide TrailKept, Suppressed, Audited, RecordsOf, Targets, RecordsByEpoch, ByEpoch, RecordsOfNothing, Tombstone;
    var natural := Resolved(linked, subject);
    var targets := Targets(linked, natural);
    var tag := if natural.Some? then Tombstone(ring, natural.value) else None;
    RecordsNameTheTargets(refs, tag, why);
    if targets == {} {
      NothingIsRecorded(subject, natural, ring, why);
    } else {
      RecordsInOrder(refs, tag, why);
    }
    assert forall ref :: ref in Elements(refs) <==> ref in refs;
    hide Elements, Resolved;
    SameLeft(linked, Elements(refs), targets);
    assert |targets| > 0 <==> targets != {};
  }

  lemma SameLeft(mappings: Mappings, gone: set<Ref>, linked: set<Ref>)
    requires gone * mappings.Keys == linked
    ensures mappings - gone == mappings - linked
  {
    assert forall ref :: ref in mappings ==> (ref in gone <==> ref in linked);
  }

  /** Of what is audited, exactly the targets were linked; and what is audited is the targets, if there are any. */
  lemma AuditsReachTargets(mappings: Mappings, subject: Subject, targets: seq<Ref>)
    requires ByEpoch(targets) && Elements(targets) == Targets(mappings, Resolved(mappings, subject))
    ensures var refs := Audits(subject, targets);
      && Elements(refs) * mappings.Keys == Elements(targets)
      && (Elements(targets) != {} ==> refs != [] && |refs| == |Elements(targets)|)
      && (|Elements(targets)| > 0 <==> Elements(targets) != {})
      && (Elements(targets) != {} ==> ByEpoch(refs))
      && (Elements(targets) == {} ==> refs == if subject.Reference? then [subject.ref] else [])
      && (forall ref :: ref in Elements(targets) ==> ref in refs)
  {
    ByEpochIsDistinct(targets);
    DistinctCounts(targets);
    assert targets != [] ==> targets[0] in Elements(targets);
    if subject.Reference? {
      ReferenceIsTargeted(mappings, subject, targets);
    }
  }

  /**
   What a record says of its reference is what the trail says, exactly when the reference was
   not audited before, or its first row said the same: a later request is reported with its
   own reasons and instant, and the row keeps the first.
   */
  lemma RecordTellsTheRowIff(trail: Trail, issued: map<Ref, NaturalId>, subject: Subject, natural: Option<NaturalId>,
                             targets: seq<Ref>, already: bool, ring: Ring, why: Why, i: nat, record: Record)
    requires TrailInv(trail, issued) && NamesItsSubject(subject, natural, issued)
    requires forall ref :: ref in targets ==> natural.Some? && ref in issued && issued[ref] == natural.value
    requires var now := TrailAfterErasure(trail, subject, natural, targets, already, ring, why);
      i < |now| && now[i].subject.Some? && now[i].subject.value in Audits(subject, targets)
    requires record.subject == TrailAfterErasure(trail, subject, natural, targets, already, ring, why)[i].subject
    requires record in RecordsOf(Audits(subject, targets),
                                 if natural.Some? then Tombstone(ring, natural.value) else None, why)
    ensures var now := TrailAfterErasure(trail, subject, natural, targets, already, ring, why);
      now[i].why == record.why <==> !Audited(trail, record.subject.value) || (i < |trail| && trail[i].why == why)
  {
    var tag := if natural.Some? then Tombstone(ring, natural.value) else None;
    var refs := Audits(subject, targets);
    var now := TrailAfterErasure(trail, subject, natural, targets, already, ring, why);
    RecordsNameTheTargets(refs, tag, why);
    UpsertAllSaysWhy(trail, refs, tag, why);
    ErasureKeepsTrail(trail, subject, natural, targets, already, ring, why, issued);
    hide RecordsOf, UpsertAll, NamesItsSubject, OnlyNewTag;
    assert now == UpsertAll(trail, refs, tag, why);
    if Audited(trail, record.subject.value) {
      var k :| 0 <= k < |trail| && trail[k].subject == record.subject;
      assert now[k].subject == record.subject;
    }
  }

  /** A reference erased twice: the second record carries the second request, the one row the first. */
  lemma RepeatIsReportedAnew(ref: Ref, ring: Ring, first: Why, again: Why)
    requires first != again
    ensures var once := TrailAfterErasure([], Reference(ref), None, [], false, ring, first);
      && once == [AuditRow(Some(ref), first, None, None, None)]
      && TrailAfterErasure(once, Reference(ref), None, [], false, ring, again) == once
      && RecordsOf(Audits(Reference(ref), []), None, again) == [Record(Some(ref), again)]
  {
    var row := AuditRow(Some(ref), first, None, None, None);
    assert [ref][1..] == [];
    assert UpsertAll([], [ref], None, first) == Upsert([], ref, None, first) == [row];
    assert Upsert([row], ref, None, again) == [row] by {
      assert [row][1..] == [];
    }
    assert UpsertAll([row], [ref], None, again) == [row];
    assert RecordsOf([ref], None, again) == [Record(Some(ref), again)];
  }

  // ---------------------------------------------------------------- the sweep's bookkeeping

  lemma TombstoneOfKey(ring: Ring, id: NaturalId, tag: Tag)
    ensures tag in Tombstones(ring, id) <==> tag.id == id && tag.key in ring
  {
    if tag.id == id && tag.key in ring {
      var k :| 0 <= k < |ring| && ring[k] == tag.key;
      assert Tombstones(ring, id)[k] == tag;
    }
  }

  /** Every batch but the last is a full one, and an empty one is not counted. */
  predicate Counted(subjects: nat, batches: nat, more: bool) {
    if more then subjects == batches * SWEEP_BATCH else batches == (subjects + SWEEP_BATCH - 1) / SWEEP_BATCH
  }

  predicate YearsTell(years: seq<int>, refs: seq<Ref>) {
    && Ascending(years)
    && (forall i :: 0 <= i < |refs| ==> refs[i].epoch in years)
    && (forall year :: year in years ==> exists i :: 0 <= i < |refs| && refs[i].epoch == year)
  }

  lemma YearsTellOf(years: seq<int>, refs: seq<Ref>)
    requires YearsTell(years, refs)
    ensures forall year :: year in years <==> exists ref :: ref in Elements(refs) && ref.epoch == year
  {
    forall year | year in years ensures exists ref :: ref in Elements(refs) && ref.epoch == year {
      var i :| 0 <= i < |refs| && refs[i].epoch == year;
      assert refs[i] in Elements(refs);
    }
  }

  datatype Tally = Tally(subjects: nat, batches: nat, epochs: seq<int>)

  /** How far a sweep has come: `order` is gone and audited, and the tally says so. */
  predicate SweptSoFar(linked: Mappings, audited: Trail, mappings: Mappings, trail: Trail, boundary: int, why: Why,
                       order: seq<Ref>, tally: Tally, more: bool)
  {
    && Distinct(order) && Elements(order) <= Due(linked, boundary)
    && (!more ==> Elements(order) == Due(linked, boundary))
    && mappings == linked - Elements(order)
    && trail == audited + ExpiredRows(order, why)
    && tally.subjects == |order| && Counted(tally.subjects, tally.batches, more)
    && YearsTell(tally.epochs, order)
  }

  /** What a batch may come back with. */
  predicate BatchOf(due: seq<Ref>, mappings: Mappings, boundary: int) {
    && Distinct(due) && Elements(due) <= Due(mappings, boundary) && |due| <= SWEEP_BATCH
    && (|due| < SWEEP_BATCH ==> Elements(due) == Due(mappings, boundary))
  }

  /** An empty batch means there is nothing left. */
  lemma NothingLeft(linked: Mappings, audited: Trail, mappings: Mappings, trail: Trail, boundary: int, why: Why,
                    order: seq<Ref>, tally: Tally)
    requires SweptSoFar(linked, audited, mappings, trail, boundary, why, order, tally, true)
    requires BatchOf([], mappings, boundary)
    ensures SweptSoFar(linked, audited, mappings - Elements([]), trail, boundary, why, order, tally, false)
  {
    BatchJoins(linked, boundary, order, []);
    assert order + [] == order && Elements([]) == {};
    assert mappings - Elements([]) == mappings;
  }

  lemma BatchCounts(subjects: nat, batches: nat, n: nat)
    requires Counted(subjects, batches, true) && 0 < n <= SWEEP_BATCH
    ensures Counted(subjects + n, batches + 1, n >= SWEEP_BATCH)
  {
  }

  lemma DueIsLive(mappings: Mappings, boundary: int)
    ensures Due(mappings, boundary) <= mappings.Keys
  {
  }

  lemma BatchSwept(linked: Mappings, audited: Trail, issued: map<Ref, NaturalId>, mappings: Mappings, trail: Trail,
                   boundary: int, why: Why, order: seq<Ref>, tally: Tally, due: seq<Ref>, epochs: seq<int>)
    requires MappingsInv(linked, issued) && Conserved(linked, audited, issued)
    requires SweptSoFar(linked, audited, mappings, trail, boundary, why, order, tally, true)
    requires BatchOf(due, mappings, boundary) && due != [] && YearsTell(epochs, order + due)
    ensures var after := Tally(tally.subjects + |due|, tally.batches + 1, epochs);
      SweptSoFar(linked, audited, mappings - Elements(due), AuditExpiries(trail, due, why), boundary, why, order + due,
                 after, |due| >= SWEEP_BATCH)
    ensures |Due(linked, boundary) - Elements(order + due)| < |Due(linked, boundary) - Elements(order)|
  {
    hide YearsTell, Counted, Elements, Due, Distinct, ExpiredRows, AuditExpiries, MappingsInv, Conserved;
    BatchJoins(linked, boundary, order, due);
    DueIsLive(linked, boundary);
    BatchCounts(tally.subjects, tally.batches, |due|);
    ExpiringBatch(linked, audited, issued, order, due, why);
  }

  lemma NothingSweptYet(mappings: Mappings, trail: Trail, boundary: int, why: Why)
    ensures SweptSoFar(mappings, trail, mappings, trail, boundary, why, [], Tally(0, 0, []), true)
  {
    assert ExpiredRows([], why) == [];
  }

  /** Every epoch below the boundary goes and no other, and each gets one audit row that says so. */
  predicate SweptAsAsked(linked: Mappings, audited: Trail, mappings: Mappings, trail: Trail, boundary: int, why: Why,
                         order: seq<Ref>)
  {
    && (forall ref :: ref in linked ==> (ref in mappings <==> linked[ref].epoch >= boundary))
    && (forall ref :: ref in mappings ==> ref in linked && mappings[ref] == linked[ref])
    && |trail| == |audited| + |order| && audited <= trail
    && (forall i :: 0 <= i < |order| ==>
          trail[|audited| + i] == AuditRow(Some(order[i]), why, None, None, None))
  }

  lemma SweepEnds(linked: Mappings, audited: Trail, issued: map<Ref, NaturalId>, mappings: Mappings, trail: Trail,
                  boundary: int, why: Why, order: seq<Ref>, tally: Tally)
    requires MappingsInv(linked, issued) && TrailInv(audited, issued) && Conserved(linked, audited, issued)
    requires SweptSoFar(linked, audited, mappings, trail, boundary, why, order, tally, false)
    ensures MappingsInv(mappings, issued) && TrailInv(trail, issued) && Conserved(mappings, trail, issued)
    ensures tally.subjects == |Due(linked, boundary)|
    ensures forall year :: year in tally.epochs <==> exists ref :: ref in Due(linked, boundary) && ref.epoch == year
    ensures forall ring, id :: Suppressed(trail, ring, id) <==> Suppressed(audited, ring, id)
    ensures SweptAsAsked(linked, audited, mappings, trail, boundary, why, order)
  {
    IsSweptAsAsked(linked, audited, mappings, trail, boundary, why, order);
    hide SweptAsAsked;
    DistinctCounts(order);
    ExpiredRowsTagNobody(audited, order, why);
    SweepKeeps(linked, audited, issued, order, why);
    YearsTellOf(tally.epochs, order);
  }

  lemma IsSweptAsAsked(linked: Mappings, audited: Trail, mappings: Mappings, trail: Trail, boundary: int, why: Why,
                       order: seq<Ref>)
    requires Elements(order) == Due(linked, boundary) && mappings == linked - Elements(order)
    requires trail == audited + ExpiredRows(order, why)
    ensures SweptAsAsked(linked, audited, mappings, trail, boundary, why, order)
  {
  }

  lemma Shrinks(now: set<Ref>, before: set<Ref>)
    requires now < before
    ensures |now| < |before|
  {
    assert before == now + (before - now);
    assert before - now != {};
  }

  /** Collecting the years of a batch into the ordered set. */
  method WithYears(years: seq<int>, ghost before: seq<Ref>, due: seq<Ref>) returns (now: seq<int>)
    requires YearsTell(years, before)
    ensures YearsTell(now, before + due)
  {
    now := years;
    assert before + due[..0] == before;
    for i := 0 to |due|
      invariant YearsTell(now, before + due[..i])
    {
      ghost var seen := before + due[..i];
      assert before + due[..i + 1] == seen + [due[i]];
      assert (seen + [due[i]])[|seen|] == due[i];
      assert forall k :: 0 <= k < |seen| ==> (seen + [due[i]])[k] == seen[k];
      now := WithYear(now, due[i].epoch);
    }
    assert due[..|due|] == due;
  }

  lemma SetsJoin(all: set<Ref>, gone: set<Ref>, batch: set<Ref>)
    requires gone <= all && batch <= all - gone
    ensures gone + batch <= all && (batch == all - gone ==> gone + batch == all)
    ensures batch != {} ==> |all - (gone + batch)| < |all - gone|
  {
    if batch != {} {
      var ref :| ref in batch;
      assert ref in all - gone && ref !in all - (gone + batch);
      Shrinks(all - (gone + batch), all - gone);
    }
  }

  lemma DueAfter(mappings: Mappings, gone: set<Ref>, boundary: int)
    ensures Due(mappings - gone, boundary) == Due(mappings, boundary) - gone
  {
  }

  lemma LeftAfterBoth(mappings: Mappings, first: set<Ref>, second: set<Ref>)
    ensures mappings - (first + second) == mappings - first - second
  {
  }

  lemma DistinctJoin(first: seq<Ref>, second: seq<Ref>)
    requires Distinct(first) && Distinct(second) && Elements(first) !! Elements(second)
    ensures Distinct(first + second) && Elements(first + second) == Elements(first) + Elements(second)
  {
    forall i, j | 0 <= i < |first| && 0 <= j < |second| ensures first[i] != second[j] {
      assert first[i] in Elements(first) && second[j] in Elements(second);
    }
  }

  /** One more batch: still no row twice, still only rows that were due. */
  lemma BatchJoins(mappings: Mappings, boundary: int, order: seq<Ref>, due: seq<Ref>)
    requires Distinct(order) && Distinct(due)
    requires Elements(order) <= Due(mappings, boundary)
    requires Elements(due) <= Due(mappings - Elements(order), boundary)
    ensures Distinct(order + due)
    ensures Elements(order + due) <= Due(mappings, boundary)
    ensures mappings - Elements(order + due) == mappings - Elements(order) - Elements(due)
    ensures Elements(due) == Due(mappings - Elements(order), boundary)
            ==> Elements(order + due) == Due(mappings, boundary)
    ensures due != [] ==>
              |Due(mappings, boundary) - Elements(order + due)| < |Due(mappings, boundary) - Elements(order)|
  {
    assert due != [] ==> due[0] in Elements(due);
    hide Elements, Due, Distinct;
    DueAfter(mappings, Elements(order), boundary);
    SetsJoin(Due(mappings, boundary), Elements(order), Elements(due));
    DistinctJoin(order, due);
    LeftAfterBoth(mappings, Elements(order), Elements(due));
  }

  /** Auditing a batch of rows that were live until now appends a row for each. */
  lemma ExpiringBatch(mappings: Mappings, trail: Trail, issued: map<Ref, NaturalId>, order: seq<Ref>, due: seq<Ref>,
                      why: Why)
    requires MappingsInv(mappings, issued) && Conserved(mappings, trail, issued)
    requires Distinct(order + due) && Elements(order + due) <= mappings.Keys
    ensures AuditExpiries(trail + ExpiredRows(order, why), due, why) == trail + ExpiredRows(order + due, why)
  {
    var so := trail + ExpiredRows(order, why);
    forall ref | ref in due ensures !Audited(so, ref) {
      var j :| 0 <= j < |due| && due[j] == ref;
      assert (order + due)[|order| + j] == ref && ref in Elements(order + due);
      assert !Audited(trail, ref);
      forall i | 0 <= i < |so| ensures so[i].subject != Some(ref) {
        if i < |trail| {
          assert so[i] == trail[i];
        } else {
          assert so[i].subject == Some((order + due)[i - |trail|]);
        }
      }
    }
    assert Distinct(due) by {
      forall i, j | 0 <= i < j < |due| ensures due[i] != due[j] {
        assert (order + due)[|order| + i] == due[i] && (order + due)[|order| + j] == due[j];
      }
    }
    ExpiriesAppend(so, due, why);
    assert so + ExpiredRows(due, why) == trail + ExpiredRows(order + due, why);
  }

  lemma SweepKeeps(mappings: Mappings, trail: Trail, issued: map<Ref, NaturalId>, order: seq<Ref>, why: Why)
    requires MappingsInv(mappings, issued) && TrailInv(trail, issued) && Conserved(mappings, trail, issued)
    requires Distinct(order) && Elements(order) <= mappings.Keys
    ensures var left, now := mappings - Elements(order), trail + ExpiredRows(order, why);
      MappingsInv(left, issued) && TrailInv(now, issued) && Conserved(left, now, issued)
  {
    hide ExpiredRows, AuditExpiries, TrailInv, TrailKept, OnlyNewTag;
    assert forall ref :: ref in order ==> ref in Elements(order);
    ExpiriesAppend(trail, order, why);
    ExpiriesKeep(trail, order, why, issued);
  }

  /** `due` is what is no longer in `rest`, once each. */
  predicate Taken(all: set<Ref>, rest: set<Ref>, due: seq<Ref>) {
    Distinct(due) && Elements(due) == all - rest
  }

  lemma NoneTaken(all: set<Ref>)
    ensures Taken(all, all, [])
  {
  }

  lemma OneMoreTaken(all: set<Ref>, rest: set<Ref>, due: seq<Ref>, ref: Ref)
    requires rest <= all && Taken(all, rest, due) && ref in rest
    ensures Taken(all, rest - {ref}, due + [ref])
  {
    assert ref !in due by { assert ref !in Elements(due); }
    assert Elements(due + [ref]) == Elements(due) + {ref};
  }

  lemma TakenSoFar(all: set<Ref>, rest: set<Ref>, due: seq<Ref>)
    requires rest <= all && Taken(all, rest, due)
    ensures Distinct(due) && Elements(due) <= all && (|rest| == 0 ==> Elements(due) == all)
  {
  }

  /** The years of some references, in order. */
  method YearsOf(found: set<Ref>) returns (years: seq<int>)
    ensures Ascending(years)
    ensures forall ref :: ref in found ==> ref.epoch in years
    ensures forall year :: year in years ==> exists ref :: ref in found && ref.epoch == year
  {
    var rest := found;
    years := [];
    while |rest| > 0
      invariant Ascending(years) && rest <= found
      invariant forall ref :: ref in found - rest ==> ref.epoch in years
      invariant forall year :: year in years ==> exists ref :: ref in found && ref.epoch == year
      decreases |rest|
    {
      var ref :| ref in rest;
      years, rest := WithYear(years, ref.epoch), rest - {ref};
    }
  }

  lemma OneReferenceAnEpoch(mappings: Mappings, issued: map<Ref, NaturalId>, id: NaturalId, a: Ref, b: Ref)
    requires MappingsInv(mappings, issued) && a in MappedRefs(mappings, id) && b in MappedRefs(mappings, id)
             && a.epoch == b.epoch
    ensures a == b
  {
    assert mappings[a] == mappings[b];
  }

  class SubjectStore {
    const ring: Ring
    var mappings: Mappings
    var trail: Trail
    var issued: map<Ref, NaturalId>

    ghost predicate Valid()
      reads this
    {
      MappingsInv(mappings, issued) && TrailInv(trail, issued) && Conserved(mappings, trail, issued)
    }

    constructor (ring: Ring)
      ensures Valid() && mappings == map[] && trail == [] && this.ring == ring
    {
      this.ring := ring;
      mappings, trail, issued := map[], [], map[];
    }

    /** `token` is the 128 random bits a mint would draw. */
    method RegisterInEpoch(id: NaturalId, epoch: int, token: nat) returns (r: Result<Ref, Refusal>)
      requires Valid() && Ref(epoch, token) !in issued && !Audited(trail, Ref(epoch, token))
      modifies this
      ensures Valid() && trail == old(trail)
      ensures IsBlank(id) <==> r == Failure(BlankIdentifier)
      ensures r == Failure(Erased)
              <==> !IsBlank(id) && !HasMapping(old(mappings), id, epoch) && Suppressed(trail, ring, id)
      ensures r.Failure? ==>
        mappings == old(mappings) && issued == old(issued) && (r.error.BlankIdentifier? || r.error.Erased?)
      ensures r.Success? ==> r.value in mappings && mappings[r.value] == Mapping(id, epoch)
      ensures r.Success? && HasMapping(old(mappings), id, epoch) ==> mappings == old(mappings) && issued == old(issued)
      ensures r.Success? && !HasMapping(old(mappings), id, epoch) ==>
        && r.value == Ref(epoch, token)
        && mappings == old(mappings)[r.value := Mapping(id, epoch)] && issued == old(issued)[r.value := id]
    {
      TrimEmptyIffBlank(id);
      if Trim(id) == "" {
        return Failure(BlankIdentifier);
      }
      if ref :| ref in mappings && mappings[ref] == Mapping(id, epoch) {
        return Success(ref);
      }
      if Suppressed(trail, ring, id) {
        return Failure(Erased);
      }
      var ref := Ref(epoch, token);
      RegisteringKeeps(mappings, trail, issued, id, epoch, ref);
      hide Suppressed, MappingsInv, TrailInv, Conserved;
      mappings, issued := mappings[ref := Mapping(id, epoch)], issued[ref := id];
      r := Success(ref);
    }

    /** The references of an identifier, oldest epoch first. */
    method SelectByEpoch(id: NaturalId) returns (refs: seq<Ref>)
      requires Valid()
      ensures Elements(refs) == MappedRefs(mappings, id)
      ensures ByEpoch(refs)
    {
      hide MappingsInv, TrailInv, Conserved, MappedRefs;
      var found := MappedRefs(mappings, id);
      var years := YearsOf(found);
      refs := [];
      for i := 0 to |years|
        invariant |refs| == i
        invariant forall k :: 0 <= k < i ==> refs[k] in found && refs[k].epoch == years[k]
      {
        assert years[i] in years;
        var ref :| ref in found && ref.epoch == years[i];
        refs := refs + [ref];
      }
      forall ref | ref in found ensures ref in refs {
        assert ref.epoch in years;
        var k :| 0 <= k < |years| && years[k] == ref.epoch;
        OneReferenceAnEpoch(mappings, issued, id, refs[k], ref);
      }
    }

    method Delete(refs: seq<Ref>) returns (deleted: nat)
      modifies this`mappings
      ensures mappings == old(mappings) - Elements(refs)
      ensures deleted == |Elements(refs) * old(mappings).Keys|
    {
      deleted := 0;
      ghost var before := mappings;
      for i := 0 to |refs|
        invariant mappings == before - Elements(refs[..i])
        invariant deleted == |Elements(refs[..i]) * before.Keys|
      {
        OneMoreGone(refs, i, before);
        OneMoreDeleted(Elements(refs[..i]), refs[i], before.Keys);
        deleted := deleted + if refs[i] in mappings then 1 else 0;
        mappings := mappings - {refs[i]};
      }
      assert refs[..|refs|] == refs;
    }

    method Audit(refs: seq<Ref>, tag: Option<Tag>, why: Why) returns (records: seq<Record>)
      modifies this`trail
      ensures trail == UpsertAll(old(trail), refs, tag, why)
      ensures records == seq(|refs|, i requires 0 <= i < |refs| => Record(Some(refs[i]), why))
    {
      records := [];
      for i := 0 to |refs|
        invariant UpsertAll(trail, refs[i..], tag, why) == UpsertAll(old(trail), refs, tag, why)
        invariant records == seq(i, k requires 0 <= k < i => Record(Some(refs[k]), why))
      {
        assert refs[i..][1..] == refs[i + 1..];
        trail := Upsert(trail, refs[i], tag, why);
        records := records + [Record(Some(refs[i]), why)];
      }
    }

    /**
     One erasure: every epoch of the identifier goes, and every reference that went,
     or the one given where none did, is audited with the identifier's tombstone.
     */
    method EraseLinkage(subject: Subject, why: Why) 
      returns (r: Result<(seq<Record>, bool), Refusal>, ghost targets: seq<Ref>)
      requires Valid()
      modifies this`mappings, this`trail
      ensures Valid()
      ensures r == Failure(NoReason) <==> IsBlank(why.reason)
      ensures r == Failure(BlankIdentifier) <==> !IsBlank(why.reason) && subject.Natural? && IsBlank(subject.id)
      ensures r.Failure? ==> r.error in {NoReason, BlankIdentifier}
      ensures r.Failure? ==> mappings == old(mappings) && trail == old(trail)
      ensures r.Success? ==> var natural := Resolved(old(mappings), subject);
        && ByEpoch(targets) && Elements(targets) == Targets(old(mappings), natural)
        && trail == TrailAfterErasure(old(trail), subject, natural, targets,
                                      natural.Some? && Suppressed(old(trail), ring, natural.value), ring, why)
      ensures r.Success? ==>
        ErasedAsAsked(old(mappings), old(trail), mappings, trail, subject, ring, why, r.value.0, r.value.1)
    {
      TrimEmptyIffBlank(why.reason);
      if Trim(why.reason) == "" {
        return Failure(NoReason), [];
      }
      if subject.Natural? {
        TrimEmptyIffBlank(subject.id);
        if Trim(subject.id) == "" {
          return Failure(BlankIdentifier), [];
        }
      }
      var natural := Resolved(mappings, subject);
      var selected := [];
      if natural.Some? {
        selected := SelectByEpoch(natural.value);
      }
      targets := selected;
      ErasureIsAsAsked(mappings, trail, issued, subject, targets, ring, why);
      hide MappingsInv, TrailInv, Conserved, ErasedAsAsked, Suppressed, RecordsOf, TrailAfterErasure, Elements, Audits;
      var records, deleted := DeleteAndAudit(subject, natural, selected, why);
      r := Success((records, deleted > 0));
    }

    /** The statements that write: the deletes, the upserts, and the row of a person never linked. */
    method DeleteAndAudit(subject: Subject, natural: Option<NaturalId>, targets: seq<Ref>, why: Why)
      returns (records: seq<Record>, deleted: nat)
      modifies this`mappings, this`trail
      ensures var refs := Audits(subject, targets);
        && mappings == old(mappings) - Elements(refs)
        && deleted == |Elements(refs) * old(mappings).Keys|
        && trail == TrailAfterErasure(old(trail), subject, natural, targets,
                                      natural.Some? && Suppressed(old(trail), ring, natural.value), ring, why)
        && records == RecordsOf(refs, if natural.Some? then Tombstone(ring, natural.value) else None, why)
    {
      var tag := if natural.Some? then Tombstone(ring, natural.value) else None;
      var refs := if targets == [] && subject.Reference? then [subject.ref] else targets;
      var already := natural.Some? && Suppressed(trail, ring, natural.value);
      deleted := Delete(refs);
      records := Audit(refs, tag, why);
      if records == [] && tag.Some? {
        if !already {
          trail := trail + [AuditRow(None, why, tag, KeyNameOf(tag), None)];
        }
        records := [Record(None, why)];
      }
    }

    /** `DELETE ... WHERE epoch < boundary LIMIT n RETURNING`: which rows, is the database's choice. */
    method DeleteDue(boundary: int, limit: nat) returns (due: seq<Ref>)
      modifies this`mappings
      ensures mappings == old(mappings) - Elements(due)
      ensures Distinct(due) && Elements(due) <= Due(old(mappings), boundary) && |due| <= limit
      ensures |due| < limit ==> Elements(due) == Due(old(mappings), boundary)
    {
      hide Due, Elements, Distinct, Taken;
      due := [];
      ghost var all := Due(mappings, boundary);
      var rest := Due(mappings, boundary);
      NoneTaken(all);
      while |rest| > 0 && |due| < limit
        invariant mappings == old(mappings)
        invariant |due| <= limit && rest <= all && Taken(all, rest, due)
        decreases |rest|
      {
        var ref :| ref in rest;
        OneMoreTaken(all, rest, due, ref);
        due, rest := due + [ref], rest - {ref};
      }
      TakenSoFar(all, rest, due);
      mappings := mappings - Elements(due);
    }

    /**
     The retention sweep, batch by batch: it ends, it deletes exactly what one `DELETE`
     would, it audits each of them once as expired, and it counts what it did.
     */
    method ExpireEpochsBefore(boundary: int, reason: string, actor: string, now: int)
      returns (r: Result<SweepOutcome, Refusal>, ghost order: seq<Ref>)
      requires Valid()
      modifies this`mappings, this`trail
      ensures Valid()
      ensures r.Failure? <==> IsBlank(reason)
      ensures r.Failure? ==> r == Failure(NoReason)
      ensures r.Failure? ==> mappings == old(mappings) && trail == old(trail)
      ensures r.Success? ==>
        && mappings == old(mappings) - Due(old(mappings), boundary)
        && Distinct(order) && Elements(order) == Due(old(mappings), boundary)
        && SweptAsAsked(old(mappings), old(trail), mappings, trail, boundary, Why(reason, actor, now, Retention), order)
        && (forall ring, id :: Suppressed(trail, ring, id) <==> Suppressed(old(trail), ring, id))
      ensures r.Success? ==>
        && r.value.subjects == |Due(old(mappings), boundary)|
        && r.value.batches == (r.value.subjects + 9_999) / 10_000
        && Ascending(r.value.epochs)
        && (forall year :: year in r.value.epochs <==>
              exists ref :: ref in Due(old(mappings), boundary) && ref.epoch == year)
        && r.value.sweptAt == now
    {
      hide SweptAsAsked;
      order := [];
      TrimEmptyIffBlank(reason);
      if Trim(reason) == "" {
        return Failure(NoReason), order;
      }
      var why := Why(reason, actor, now, Retention);
      var tally := Tally(0, 0, []);
      ghost var linked, audited := mappings, trail;
      var more := true;
      NothingSweptYet(mappings, trail, boundary, why);
      while more
        invariant SweptSoFar(linked, audited, mappings, trail, boundary, why, order, tally, more)
        decreases more, |Due(linked, boundary) - Elements(order)|
      {
        more, tally, order := SweepBatch(linked, audited, boundary, why, order, tally);
      }
      SweepEnds(linked, audited, issued, mappings, trail, boundary, why, order, tally);
      r := Success(SweepOutcome(tally.subjects, tally.epochs, tally.batches, now));
    }

    /** One transaction of the sweep, and whether another has to follow. */
    method SweepBatch(ghost linked: Mappings, ghost audited: Trail, boundary: int, why: Why, ghost order: seq<Ref>,
                      tally: Tally)
      returns (more: bool, after: Tally, ghost swept: seq<Ref>)
      requires MappingsInv(linked, issued) && Conserved(linked, audited, issued)
      requires SweptSoFar(linked, audited, mappings, trail, boundary, why, order, tally, true)
      modifies this`mappings, this`trail
      ensures SweptSoFar(linked, audited, mappings, trail, boundary, why, swept, after, more)
      ensures more ==> |Due(linked, boundary) - Elements(swept)| < |Due(linked, boundary) - Elements(order)|
    {
      hide MappingsInv, Conserved, YearsTell, Counted, Distinct, Elements, Due, AuditExpiries, ExpiredRows;
      ghost var mappings0, trail0 := mappings, trail;
      var due := DeleteDue(boundary, SWEEP_BATCH);
      if due == [] {
        NothingLeft(linked, audited, mappings0, trail, boundary, why, order, tally);
        return false, tally, order;
      }
      var epochs := WithYears(tally.epochs, order, due);
      trail := AuditExpiries(trail, due, why);
      more, swept := |due| >= SWEEP_BATCH, order + due;
      after := Tally(tally.subjects + |due|, tally.batches + 1, epochs);
      BatchSwept(linked, audited, issued, mappings0, trail0, boundary, why, order, tally, due, epochs);
    }

    /** The suppression goes, the erasure stays, and the lift is written on every row it cleared. */
    method LiftSuppression(id: NaturalId, lifting: Lifting) returns (r: Result<bool, Refusal>)
      requires Valid()
      modifies this`trail
      ensures Valid()
      ensures r == Failure(NoReason) <==> IsBlank(lifting.reason)
      ensures r == Failure(NoKey) <==> !IsBlank(lifting.reason) && ring == []
      ensures r.Success? <==> !IsBlank(lifting.reason) && ring != []
      ensures r.Failure? ==> trail == old(trail)
      ensures r.Success? ==> r.value == Suppressed(old(trail), ring, id) && !Suppressed(trail, ring, id)
      ensures r.Success? ==> |trail| == |old(trail)| && forall i :: 0 <= i < |trail| ==>
        var was := old(trail)[i];
        if was.tag.Some? && was.tag.value.id == id && was.tag.value.key in ring
        then trail[i] == AuditRow(was.subject, was.why, None, None, Some(lifting))
        else trail[i] == was
    {
      TrimEmptyIffBlank(lifting.reason);
      if Trim(lifting.reason) == "" {
        return Failure(NoReason);
      }
      if ring == [] {
        return Failure(NoKey);
      }
      var lifted := Suppressed(trail, ring, id);
      LiftKeeps(trail, ring, id, lifting, issued);
      forall tag: Tag ensures tag in Tombstones(ring, id) <==> tag.id == id && tag.key in ring {
        TombstoneOfKey(ring, id, tag);
      }
      trail := LiftAll(trail, ring, id, lifting);
      r := Success(lifted);
    }
  }
}
