/**
 The gate between the schema a deployment declares and the one a table holds: which
 differences are let through, and what that means for the rows.
 */
module Evolution {
  import opened Arithmetic
  import opened Results

  // ---------------------------------------------------------------- schemas

  type Precision = p: nat | 1 <= p <= 38 witness 1

  datatype TimeUnit = Second | Millisecond | Microsecond | Nanosecond

  datatype DataType =
    | Utf8
    | Int32
    | Int64
    | Float32
    | Float64
    | Decimal128(precision: Precision, scale: nat)
    | Timestamp(timeUnit: TimeUnit, zone: Option<string>)
    | OtherType(tag: nat)

  datatype Field = Field(name: string, dataType: DataType, nullable: bool)

  type Schema = seq<Field>

  /** The position of a name, if the schema has it. */
  function IndexOf(schema: Schema, name: string): (index: Option<nat>)
    ensures index.Some? ==> index.value < |schema| && schema[index.value].name == name
    ensures index.None? ==> forall i :: 0 <= i < |schema| ==> schema[i].name != name
  {
    if schema == [] then None
    else if schema[0].name == name then Some(0)
    else
      var rest := IndexOf(schema[1..], name);
      assert forall i :: 0 < i < |schema| ==> schema[i] == schema[1..][i - 1];
      if rest.None? then None else Some(rest.value + 1)
  }

  function FieldWithName(schema: Schema, name: string): (field: Option<Field>) {
    var index := IndexOf(schema, name);
    if index.None? then None else Some(schema[index.value])
  }

  predicate DistinctNames(schema: Schema) {
    forall i, j :: 0 <= i < j < |schema| ==> schema[i].name != schema[j].name
  }

  lemma FoundByName(schema: Schema, i: nat)
    requires DistinctNames(schema) && i < |schema|
    ensures IndexOf(schema, schema[i].name) == Some(i) && FieldWithName(schema, schema[i].name) == Some(schema[i])
  {
    assert IndexOf(schema, schema[i].name).Some?;
  }

  // ---------------------------------------------------------------- the comparison

  datatype SchemaChange =
    | Added(field: Field, safe: bool)
    | Dropped(name: string, safe: bool)
    | Retyped(name: string, was: DataType, now: DataType, safe: bool)
    | Nullability(name: string, safe: bool)

  predicate IsUtc(zone: string) {
    zone in ["UTC", "utc", "+00:00", "Z", "z", "GMT", "Etc/UTC"]
  }

  predicate IsPromotable(was: DataType, now: DataType) {
    match (was, now)
    case (Int32, Int64) => true
    case (Float32, Float64) => true
    case (Decimal128(p, s), Decimal128(q, t)) => s == t && q >= p
    case (Timestamp(a, Some(x)), Timestamp(b, Some(y))) => (a == b && IsUtc(x) && IsUtc(y)) || was == now
    case _ => was == now
  }

  function TypeChanges(field: Field, existing: Field): seq<SchemaChange> {
    if existing.dataType == field.dataType then []
    else [Retyped(field.name, existing.dataType, field.dataType, IsPromotable(existing.dataType, field.dataType))]
  }

  function NullChanges(field: Field, existing: Field): seq<SchemaChange> {
    if existing.nullable == field.nullable then [] else [Nullability(field.name, field.nullable)]
  }

  /** What one declared column has to say about the stored schema. */
  function ChangesOf(field: Field, stored: Schema): seq<SchemaChange> {
    match FieldWithName(stored, field.name)
    case None => [Added(field, field.nullable)]
    case Some(existing) => TypeChanges(field, existing) + NullChanges(field, existing)
  }

  function Undeclared(configured: Schema, field: Field): seq<SchemaChange> {
    if FieldWithName(configured, field.name).None? then [Dropped(field.name, field.nullable)] else []
  }

  function DeclaredChanges(fields: Schema, stored: Schema): seq<SchemaChange> {
    if fields == [] then []
    else DeclaredChanges(fields[..|fields| - 1], stored) + ChangesOf(fields[|fields| - 1], stored)
  }

  function UndeclaredChanges(configured: Schema, fields: Schema): seq<SchemaChange> {
    if fields == [] then []
    else UndeclaredChanges(configured, fields[..|fields| - 1]) + Undeclared(configured, fields[|fields| - 1])
  }

  function AllChanges(configured: Schema, stored: Schema): seq<SchemaChange> {
    DeclaredChanges(configured, stored) + UndeclaredChanges(configured, stored)
  }

  /** Declared columns first, in their order; then the stored ones nobody declares. */
  method Compare(configured: Schema, stored: Schema) returns (changes: seq<SchemaChange>)
    ensures changes == AllChanges(configured, stored)
    ensures changes == [] <==> Identical(configured, stored)
    ensures IsSafe(changes) <==> Gate(configured, stored)
  {
    hide IsSafe, Gate, Identical, ChangesOf, Undeclared, FieldWithName;
    Verdict(configured, stored);
    changes := [];
    for i := 0 to |configured|
      invariant changes == DeclaredChanges(configured[..i], stored)
    {
      assert configured[..i + 1][..i] == configured[..i];
      var found := CompareField(configured[i], stored);
      changes := changes + found;
    }
    assert configured[..|configured|] == configured;
    for i := 0 to |stored|
      invariant changes == DeclaredChanges(configured, stored) + UndeclaredChanges(configured, stored[..i])
    {
      assert stored[..i + 1][..i] == stored[..i];
      var found := Undeclared(configured, stored[i]);
      changes := changes + found;
    }
    assert stored[..|stored|] == stored;
  }

  /** Type and nullability are asked about separately, so that one change cannot hide the other. */
  method CompareField(field: Field, stored: Schema) returns (found: seq<SchemaChange>)
    ensures found == ChangesOf(field, stored)
  {
    found := [];
    match FieldWithName(stored, field.name) {
      case None =>
        found := found + [Added(field, field.nullable)];
      case Some(existing) =>
        if existing.dataType != field.dataType {
          found := found + [Retyped(field.name, existing.dataType, field.dataType,
                                    IsPromotable(existing.dataType, field.dataType))];
        }
        if existing.nullable != field.nullable {
          found := found + [Nullability(field.name, field.nullable)];
        }
    }
  }

  /** What the list of changes says, read off the two schemas. */
  lemma Verdict(configured: Schema, stored: Schema)
    ensures AllChanges(configured, stored) == [] <==> Identical(configured, stored)
    ensures IsSafe(AllChanges(configured, stored)) <==> Gate(configured, stored)
  {
    hide IsSafe, FieldWithName, DeclarationIsSafe, DeclaredChanges, UndeclaredChanges, SameColumn;
    DeclaredVerdict(configured, stored);
    UndeclaredVerdict(configured, stored);
    SafeAppend(DeclaredChanges(configured, stored), UndeclaredChanges(configured, stored));
  }

  predicate IsSafe(changes: seq<SchemaChange>) {
    forall i :: 0 <= i < |changes| ==> changes[i].safe
  }

  /** The gate, column by column. */
  predicate Gate(configured: Schema, stored: Schema) {
    && (forall i :: 0 <= i < |configured| ==> DeclarationIsSafe(configured[i], stored))
    && (forall i :: 0 <= i < |stored| ==> stored[i].nullable || FieldWithName(configured, stored[i].name).Some?)
  }

  predicate DeclarationIsSafe(field: Field, stored: Schema) {
    match FieldWithName(stored, field.name)
    case None => field.nullable
    case Some(existing) => IsPromotable(existing.dataType, field.dataType) && (existing.nullable ==> field.nullable)
  }

  /** One name has one type and one nullability on both sides. */
  predicate Identical(configured: Schema, stored: Schema) {
    && (forall i :: 0 <= i < |configured| ==> SameColumn(configured[i], stored))
    && (forall i :: 0 <= i < |stored| ==> FieldWithName(configured, stored[i].name).Some?)
  }

  lemma SafeAppend(a: seq<SchemaChange>, b: seq<SchemaChange>)
    ensures IsSafe(a + b) <==> IsSafe(a) && IsSafe(b)
  {
    if IsSafe(a + b) {
      assert forall i :: 0 <= i < |a| ==> a[i] == (a + b)[i];
      assert forall i :: 0 <= i < |b| ==> b[i] == (a + b)[|a| + i];
    }
  }

  lemma NothingIsSafe()
    ensures IsSafe([])
  {
  }

  lemma OneIsSafe(change: SchemaChange)
    ensures IsSafe([change]) <==> change.safe
  {
    assert [change][0] == change;
  }

  lemma TypeVerdict(field: Field, existing: Field)
    ensures IsSafe(TypeChanges(field, existing)) <==> IsPromotable(existing.dataType, field.dataType)
    ensures TypeChanges(field, existing) == [] <==> existing.dataType == field.dataType
  {
    hide IsSafe;
    if existing.dataType == field.dataType {
      NothingIsSafe();
    } else {
      OneIsSafe(TypeChanges(field, existing)[0]);
    }
  }

  lemma NullVerdict(field: Field, existing: Field)
    ensures IsSafe(NullChanges(field, existing)) <==> (existing.nullable ==> field.nullable)
    ensures NullChanges(field, existing) == [] <==> existing.nullable == field.nullable
  {
    hide IsSafe;
    if existing.nullable == field.nullable {
      NothingIsSafe();
    } else {
      OneIsSafe(NullChanges(field, existing)[0]);
    }
  }

  /** The stored schema has this very column. */
  predicate SameColumn(field: Field, stored: Schema) {
    FieldWithName(stored, field.name) == Some(field)
  }

  lemma ChangesVerdict(field: Field, stored: Schema)
    ensures IsSafe(ChangesOf(field, stored)) <==> DeclarationIsSafe(field, stored)
    ensures ChangesOf(field, stored) == [] <==> SameColumn(field, stored)
  {
    hide IsSafe, IsPromotable, TypeChanges, NullChanges, IndexOf;
    match FieldWithName(stored, field.name)
    case None => OneIsSafe(Added(field, field.nullable));
    case Some(existing) =>
      TypeVerdict(field, existing);
      NullVerdict(field, existing);
      SafeAppend(TypeChanges(field, existing), NullChanges(field, existing));
  }

  lemma {:induction false} DeclaredVerdict(fields: Schema, stored: Schema)
    ensures IsSafe(DeclaredChanges(fields, stored))
      <==> forall i :: 0 <= i < |fields| ==> DeclarationIsSafe(fields[i], stored)
    ensures DeclaredChanges(fields, stored) == []
      <==> forall i :: 0 <= i < |fields| ==> SameColumn(fields[i], stored)
    decreases |fields|
  {
    hide IsSafe, ChangesOf, DeclarationIsSafe, SameColumn;
    if fields == [] {
      NothingIsSafe();
    } else {
      var front, last := fields[..|fields| - 1], fields[|fields| - 1];
      DeclaredVerdict(front, stored);
      ChangesVerdict(last, stored);
      SafeAppend(DeclaredChanges(front, stored), ChangesOf(last, stored));
      assert forall i :: 0 <= i < |front| ==> front[i] == fields[i];
    }
  }

  lemma {:induction false} UndeclaredVerdict(configured: Schema, fields: Schema)
    ensures IsSafe(UndeclaredChanges(configured, fields))
      <==> forall i :: 0 <= i < |fields| ==> fields[i].nullable || FieldWithName(configured, fields[i].name).Some?
    ensures UndeclaredChanges(configured, fields) == []
      <==> forall i :: 0 <= i < |fields| ==> FieldWithName(configured, fields[i].name).Some?
    decreases |fields|
  {
    hide IsSafe, FieldWithName;
    if fields == [] {
      NothingIsSafe();
    } else {
      var front, last := fields[..|fields| - 1], fields[|fields| - 1];
      UndeclaredVerdict(configured, front);
      SafeAppend(UndeclaredChanges(configured, front), Undeclared(configured, last));
      assert forall i :: 0 <= i < |front| ==> front[i] == fields[i];
      NothingIsSafe();
      OneIsSafe(Dropped(last.name, last.nullable));
    }
  }

  // ---------------------------------------------------------------- what rows mean

  /** What a column stores, before its type says how to read it. */
  datatype Cell =
    | Null
    | Word(text: string)
    | Whole(i: int)
    | Floating(m: int, e: int)    // m * 2^e, with an odd m or zero
    | NotFinite(kind: nat)
    | Scaled(unscaled: int)
    | Count(ticks: int)
    | Opaque(tag: nat, content: int)

  function Power2(n: nat): (p: nat)
    ensures p > 0
  {
    if n == 0 then 1 else 2 * Power2(n - 1)
  }

  /** A finite binary number of `bits` bits, not below `2^low` in its last place and below `2^high`. */
  predicate FloatFits(m: int, e: int, bits: nat, low: int, high: int) {
    && (if m == 0 then e == 0 else m % 2 == 1)
    && -(Power2(bits) as int) < m < Power2(bits) && low <= e < high
    && -(Power2(high - e) as int) < m < Power2(high - e)
  }

  predicate InType(cell: Cell, dataType: DataType) {
    match (dataType, cell)
    case (Utf8, Word(_)) => true
    case (Int32, Whole(i)) => -0x8000_0000 <= i <= 0x7FFF_FFFF
    case (Int64, Whole(i)) => -0x8000_0000_0000_0000 <= i <= 0x7FFF_FFFF_FFFF_FFFF
    case (Float32, Floating(m, e)) => FloatFits(m, e, 24, -149, 128)
    case (Float64, Floating(m, e)) => FloatFits(m, e, 53, -1074, 1024)
    case (Float32, NotFinite(_)) => true
    case (Float64, NotFinite(_)) => true
    case (Decimal128(p, _), Scaled(u)) => -(Power10(p) as int) < u < Power10(p)
    case (Timestamp(_, _), Count(t)) => -0x8000_0000_0000_0000 <= t <= 0x7FFF_FFFF_FFFF_FFFF
    case (OtherType(tag), Opaque(t, _)) => tag == t
    case _ => false
  }

  predicate Allowed(cell: Cell, field: Field) {
    if cell.Null? then field.nullable else InType(cell, field.dataType)
  }

  datatype Zone = Local | Utc | Named(name: string)

  function ZoneOf(zone: Option<string>): Zone {
    match zone
    case None => Local
    case Some(name) => if IsUtc(name) then Utc else Named(name)
  }

  function NanosPer(timeUnit: TimeUnit): int {
    match timeUnit
    case Second => 1_000_000_000
    case Millisecond => 1_000_000
    case Microsecond => 1_000
    case Nanosecond => 1
  }

  /** One stored cell, read under two types, stands for one and the same thing. */
  predicate MeansTheSame(cell: Cell, was: DataType, now: DataType) {
    match (was, now, cell)
    case (Decimal128(_, s), Decimal128(_, t), Scaled(u)) => u * Power10(t) == u * Power10(s)
    case (Timestamp(a, x), Timestamp(b, y), Count(t)) => ZoneOf(x) == ZoneOf(y) && t * NanosPer(a) == t * NanosPer(b)
    case _ => true
  }

  type Row = map<string, Cell>

  predicate ValidRow(row: Row, schema: Schema) {
    forall i :: 0 <= i < |schema| ==> schema[i].name in row && Allowed(row[schema[i].name], schema[i])
  }

  /** A declared column of a stored row: its own cell, or null where no file has it. */
  function Read(row: Row, stored: Schema, name: string): Cell
    requires ValidRow(row, stored)
  {
    if FieldWithName(stored, name).Some? then row[name] else Null
  }

  /** Every declared column reads as something its declaration allows, and stored cells keep their meaning. */
  predicate ReadsTheSame(row: Row, stored: Schema, configured: Schema)
    requires ValidRow(row, stored)
  {
    forall i :: 0 <= i < |configured| ==>
      var field := configured[i];
      var cell := Read(row, stored, field.name);
      && Allowed(cell, field)
      && (FieldWithName(stored, field.name).Some? ==>
            MeansTheSame(cell, FieldWithName(stored, field.name).value.dataType, field.dataType))
  }

  /** A declared row says something about every column the table cannot leave out. */
  predicate WritesEveryRequired(configured: Schema, stored: Schema) {
    forall i :: 0 <= i < |stored| && !stored[i].nullable ==> FieldWithName(configured, stored[i].name).Some?
  }

  // ---------------------------------------------------------------- promotion, exactly

  lemma {:induction false} Power2Grows(a: nat, b: nat)
    requires a <= b
    ensures Power2(a) <= Power2(b)
    decreases b
  {
    if a < b { Power2Grows(a, b - 1); }
  }

  lemma {:induction false} Power10Grows(a: nat, b: nat)
    ensures a <= b ==> Power10(a) <= Power10(b)
    ensures a < b ==> Power10(a) < Power10(b)
    decreases b
  {
    if a < b { Power10Grows(a, b - 1); }
  }

  lemma WiderDecimalKeepsCell(cell: Cell, p: Precision, q: Precision, scale: nat)
    requires p <= q && InType(cell, Decimal128(p, scale))
    ensures InType(cell, Decimal128(q, scale))
  {
    Power10Grows(p, q);
  }

  /** More bits, and a wider range, hold whatever fewer hold. */
  lemma WiderFloatFits(m: int, e: int, bits: nat, low: int, high: int, bits': nat, low': int, high': int)
    requires FloatFits(m, e, bits, low, high) && bits <= bits' && low' <= low && high <= high'
    ensures FloatFits(m, e, bits', low', high')
  {
    hide Power2;
    Power2Grows(bits, bits');
    Power2Grows(high - e, high' - e);
  }

  lemma WiderFloatKeepsCell(cell: Cell)
    requires InType(cell, Float32)
    ensures InType(cell, Float64)
  {
    hide FloatFits;
    if cell.Floating? {
      WiderFloatFits(cell.m, cell.e, 24, -149, 128, 53, -1074, 1024);
    }
  }

  lemma SameInstantKeepsCell(cell: Cell, timeUnit: TimeUnit, x: string, y: string)
    requires IsUtc(x) && IsUtc(y) && InType(cell, Timestamp(timeUnit, Some(x)))
    ensures InType(cell, Timestamp(timeUnit, Some(y)))
    ensures MeansTheSame(cell, Timestamp(timeUnit, Some(x)), Timestamp(timeUnit, Some(y)))
  {
    hide IsUtc;
  }

  lemma PromotionKeepsCell(cell: Cell, was: DataType, now: DataType)
    requires IsPromotable(was, now) && InType(cell, was)
    ensures InType(cell, now) && MeansTheSame(cell, was, now)
  {
    hide FloatFits, Power10, IsUtc;
    if was == now {
      SameTypeKeepsMeaning(cell, was);
    } else {
      match (was, now)
      case (Decimal128(p, s), Decimal128(q, t)) => WiderDecimalKeepsCell(cell, p, q, s);
      case (Float32, Float64) => WiderFloatKeepsCell(cell);
      case (Timestamp(a, Some(x)), Timestamp(b, Some(y))) => SameInstantKeepsCell(cell, a, x, y);
      case _ =>
    }
  }

  lemma SameTypeKeepsMeaning(cell: Cell, dataType: DataType)
    ensures MeansTheSame(cell, dataType, dataType)
  {
  }

  /** Something every type can hold. */
  function Plain(dataType: DataType): (cell: Cell)
    ensures InType(cell, dataType)
  {
    match dataType
    case Utf8 => Word("")
    case Int32 => Whole(0)
    case Int64 => Whole(0)
    case Float32 => NotFinite(0)
    case Float64 => NotFinite(0)
    case Decimal128(_, _) => Scaled(0)
    case Timestamp(_, _) => Count(0)
    case OtherType(tag) => Opaque(tag, 0)
  }

  /** A cell that a change of type would spoil. */
  function Spoiled(was: DataType, now: DataType): Cell {
    match (was, now)
    case (Int64, Int32) => Whole(0x8000_0000)
    case (Float64, Float32) => Floating(0x100_0001, 0)
    case (Decimal128(_, s), Decimal128(q, t)) => if s != t then Scaled(1) else Scaled(Power10(q))
    case (Timestamp(_, _), Timestamp(_, _)) => Count(1)
    case _ => Plain(was)
  }

  /** A timestamp may be declared under any other name of UTC, in its own unit; any other name has to stay. */
  lemma OnlyNamesOfUtcAreInterchangeable(timeUnit: TimeUnit, was: string, now: string)
    ensures IsPromotable(Timestamp(timeUnit, Some(was)), Timestamp(timeUnit, Some(now)))
      <==> was == now || (was in UtcNames && now in UtcNames)
  {
  }

  const UtcNames: set<string> := {"UTC", "Etc/UTC", "GMT", "Z", "utc", "z", "+00:00"}

  /** A second is a thousand milliseconds, and so on. */
  lemma UnitsOfTime()
    ensures NanosPer(Second) == 1_000 * NanosPer(Millisecond) == 1_000_000 * NanosPer(Microsecond)
    ensures NanosPer(Microsecond) == 1_000 * NanosPer(Nanosecond) == 1_000
  {
  }

  /** A value of the old type that the new one cannot hold, or takes for something else. */
  predicate Spoils(cell: Cell, was: DataType, now: DataType) {
    InType(cell, was) && !(InType(cell, now) && MeansTheSame(cell, was, now))
  }

  lemma OnlyPromotionKeepsEveryCell(was: DataType, now: DataType)
    requires !IsPromotable(was, now)
    ensures Spoils(Spoiled(was, now), was, now)
  {
    hide Spoils, Spoiled, FloatFits, Power2, Power10, IsUtc;
    match (was, now)
    case (Decimal128(p, s), Decimal128(q, t)) => DecimalIsSpoiled(p, s, q, t);
    case (Float64, Float32) => FloatIsSpoiled();
    case (Timestamp(a, x), Timestamp(b, y)) => TimestampIsSpoiled(a, x, b, y);
    case _ => OtherTypeIsSpoiled(was, now);
  }

  lemma DecimalIsSpoiled(p: Precision, s: nat, q: Precision, t: nat)
    requires s != t || q < p
    ensures Spoils(Spoiled(Decimal128(p, s), Decimal128(q, t)), Decimal128(p, s), Decimal128(q, t))
  {
    Power10Grows(q, p);
    Power10Grows(s, t);
    Power10Grows(t, s);
    Power10Grows(0, p);
  }

  lemma FloatIsSpoiled()
    ensures Spoils(Spoiled(Float64, Float32), Float64, Float32)
  {
    hide FloatFits;
    FloatWitness();
  }

  /** One tick is another instant in any other unit or zone. */
  lemma TimestampIsSpoiled(a: TimeUnit, x: Option<string>, b: TimeUnit, y: Option<string>)
    requires !IsPromotable(Timestamp(a, x), Timestamp(b, y))
    ensures Spoils(Spoiled(Timestamp(a, x), Timestamp(b, y)), Timestamp(a, x), Timestamp(b, y))
  {
    hide IsUtc;
  }

  predicate BothOfAKind(was: DataType, now: DataType) {
    (was.Decimal128? && now.Decimal128?) || (was.Timestamp? && now.Timestamp?) || (was.Float64? && now.Float32?)
  }

  lemma OtherTypeIsSpoiled(was: DataType, now: DataType)
    requires !IsPromotable(was, now) && !BothOfAKind(was, now)
    ensures Spoils(Spoiled(was, now), was, now)
  {
    hide FloatFits, Power10, IsUtc;
  }

  lemma FloatWitness()
    ensures FloatFits(0x100_0001, 0, 53, -1074, 1024) && !FloatFits(0x100_0001, 0, 24, -149, 128)
  {
    assert Power2(24) == 0x100_0000 by { SixDoublings(18); SixDoublings(12); SixDoublings(6); SixDoublings(0); }
    assert Power2(30) == 0x4000_0000 by { SixDoublings(24); }
    Power2Grows(30, 53);
    Power2Grows(30, 1024);
  }

  lemma SixDoublings(n: nat)
    ensures Power2(n + 6) == 64 * Power2(n)
  {
    assert Power2(n + 6) == 2 * Power2(n + 5) == 4 * Power2(n + 4) == 8 * Power2(n + 3);
    assert Power2(n + 3) == 2 * Power2(n + 2) == 4 * Power2(n + 1) == 8 * Power2(n);
  }

  // ---------------------------------------------------------------- the gate, exactly

  /** A safe comparison: stored rows read as declared ones and keep their meaning. */
  lemma SafeMeansRowsSurvive(configured: Schema, stored: Schema, row: Row)
    requires DistinctNames(stored) && Gate(configured, stored) && ValidRow(row, stored)
    ensures ReadsTheSame(row, stored, configured) && WritesEveryRequired(configured, stored)
  {
    forall i | 0 <= i < |configured|
      ensures var field := configured[i];
        var cell := Read(row, stored, field.name);
        && Allowed(cell, field)
        && (FieldWithName(stored, field.name).Some? ==>
              MeansTheSame(cell, FieldWithName(stored, field.name).value.dataType, field.dataType))
    {
      var field := configured[i];
      assert DeclarationIsSafe(field, stored);
      var index := IndexOf(stored, field.name);
      if index.Some? {
        var existing := stored[index.value];
        var cell := row[existing.name];
        assert Allowed(cell, existing);
        if !cell.Null? {
          PromotionKeepsCell(cell, existing.dataType, field.dataType);
        }
      }
    }
  }

  /** A stored row with one chosen cell, and something plain everywhere else. */
  function RowWith(stored: Schema, name: string, cell: Cell): Row {
    map i | 0 <= i < |stored| :: stored[i].name :=
      if stored[i].name == name then cell else PlainOf(stored, stored[i].name)
  }

  function PlainOf(stored: Schema, name: string): Cell {
    match FieldWithName(stored, name)
    case Some(field) => Plain(field.dataType)
    case None => Null
  }

  lemma RowWithIsValid(stored: Schema, i: nat, cell: Cell)
    requires DistinctNames(stored) && i < |stored| && Allowed(cell, stored[i])
    ensures ValidRow(RowWith(stored, stored[i].name, cell), stored)
    ensures RowWith(stored, stored[i].name, cell)[stored[i].name] == cell
  {
    forall j | 0 <= j < |stored| ensures Allowed(RowWith(stored, stored[i].name, cell)[stored[j].name], stored[j]) {
      FoundByName(stored, j);
    }
  }

  lemma PlainRowIsValid(stored: Schema, name: string)
    requires DistinctNames(stored) && FieldWithName(stored, name).None?
    ensures ValidRow(RowWith(stored, name, Null), stored)
  {
    forall j | 0 <= j < |stored| ensures Allowed(RowWith(stored, name, Null)[stored[j].name], stored[j]) {
      FoundByName(stored, j);
    }
  }

  /** An unsafe declaration spoils some stored row. */
  lemma UnsafeDeclarationSpoils(configured: Schema, stored: Schema, i: nat) returns (row: Row)
    requires DistinctNames(stored) && i < |configured| && !DeclarationIsSafe(configured[i], stored)
    ensures ValidRow(row, stored) && !ReadsTheSame(row, stored, configured)
  {
    var field := configured[i];
    var index := IndexOf(stored, field.name);
    if index.None? {
      row := RowWith(stored, field.name, Null);
      PlainRowIsValid(stored, field.name);
      assert Read(row, stored, field.name) == Null;
    } else {
      var existing := stored[index.value];
      var cell :=
        if IsPromotable(existing.dataType, field.dataType) then Null else Spoiled(existing.dataType, field.dataType);
      if !IsPromotable(existing.dataType, field.dataType) {
        OnlyPromotionKeepsEveryCell(existing.dataType, field.dataType);
      }
      row := RowWith(stored, existing.name, cell);
      RowWithIsValid(stored, index.value, cell);
      assert Read(row, stored, field.name) == cell;
    }
  }

  /**
   The gate is exact. A comparison is safe if and only if every row the table may hold
   reads as a row the declaration allows, each cell meaning what it meant, and no required
   column of the table is left out of what is written.
   */
  lemma GateIsExact(configured: Schema, stored: Schema)
    requires DistinctNames(stored)
    ensures Gate(configured, stored)
      <==> WritesEveryRequired(configured, stored)
           && forall row :: ValidRow(row, stored) ==> ReadsTheSame(row, stored, configured)
  {
    if Gate(configured, stored) {
      forall row | ValidRow(row, stored) ensures ReadsTheSame(row, stored, configured) {
        SafeMeansRowsSurvive(configured, stored, row);
      }
    } else if WritesEveryRequired(configured, stored) {
      var i :| 0 <= i < |configured| && !DeclarationIsSafe(configured[i], stored);
      var row := UnsafeDeclarationSpoils(configured, stored, i);
    }
  }

  lemma PromotionComposes(first: DataType, mid: DataType, last: DataType)
    requires IsPromotable(first, mid) && IsPromotable(mid, last)
    ensures IsPromotable(first, last)
  {
    hide IsUtc;
  }

  /** A column that was dropped on the way and is back can still be read as what it was. */
  predicate ReturnsPromotable(field: Field, first: Schema, mid: Schema) {
    FieldWithName(mid, field.name).None? && FieldWithName(first, field.name).Some? ==>
      IsPromotable(FieldWithName(first, field.name).value.dataType, field.dataType)
  }

  lemma DeclarationComposesIff(field: Field, first: Schema, mid: Schema)
    requires DeclarationIsSafe(field, mid)
    requires FieldWithName(mid, field.name).Some? ==> DeclarationIsSafe(FieldWithName(mid, field.name).value, first)
    ensures DeclarationIsSafe(field, first) <==> ReturnsPromotable(field, first, mid)
  {
    hide IsPromotable, IndexOf;
    var was, between := FieldWithName(first, field.name), FieldWithName(mid, field.name);
    if was.Some? && between.Some? {
      NameOfFound(mid, field.name);
      PromotionComposes(was.value.dataType, between.value.dataType, field.dataType);
    } else if between.Some? {
      NameOfFound(mid, field.name);
    }
  }

  lemma NameOfFound(schema: Schema, name: string)
    ensures var found := FieldWithName(schema, name);
      found.Some? ==> found.value.name == name && found.value in schema
  {
  }

  /**
   When two safe steps make a safe one: exactly if no required column of the first schema
   was lost on the way, and every column that was dropped and came back is one the gate
   would have promoted. Both can be read off the three schemas.
   */
  lemma SafeStepsComposeIff(first: Schema, mid: Schema, last: Schema)
    requires Gate(mid, first) && Gate(last, mid)
    ensures Gate(last, first)
      <==> WritesEveryRequired(last, first) && forall i :: 0 <= i < |last| ==> ReturnsPromotable(last[i], first, mid)
  {
    hide DeclarationIsSafe, ReturnsPromotable, FieldWithName;
    forall i | 0 <= i < |last| ensures DeclarationIsSafe(last[i], first) <==> ReturnsPromotable(last[i], first, mid) {
      NameOfFound(mid, last[i].name);
      DeclarationComposesIff(last[i], first, mid);
    }
  }

  /** Each condition fails by itself: a required column is widened and then dropped. */
  lemma WidenedThenDroppedIsUnsafe(name: string, dataType: DataType)
    ensures var required, widened, gone := [Field(name, dataType, false)], [Field(name, dataType, true)], [];
      Gate(widened, required) && Gate(gone, widened) && !Gate(gone, required)
  {
    var required, widened: Schema, gone: Schema := [Field(name, dataType, false)], [Field(name, dataType, true)], [];
    FoundByName(required, 0);
    FoundByName(widened, 0);
    assert !required[0].nullable && FieldWithName(gone, required[0].name).None?;
  }

  /** Or a nullable column is dropped and comes back as another type, with nothing required in sight. */
  lemma DroppedThenReturnedIsUnsafe(name: string, was: DataType, now: DataType)
    requires !IsPromotable(was, now)
    ensures var before, gone, after := [Field(name, was, true)], [], [Field(name, now, true)];
      Gate(gone, before) && Gate(after, gone) && !Gate(after, before) && WritesEveryRequired(after, before)
  {
    var before, gone: Schema, after := [Field(name, was, true)], [], [Field(name, now, true)];
    FoundByName(before, 0);
    FoundByName(after, 0);
    assert !DeclarationIsSafe(after[0], before);
  }

  // ---------------------------------------------------------------- aligning a batch with a table

  type Column = seq<Cell>

  datatype Batch = Batch(schema: Schema, columns: seq<Column>)
  {
    predicate Valid() {
      && |columns| == |schema|
      && (forall i, r :: 0 <= i < |columns| && 0 <= r < |columns[i]| ==> Allowed(columns[i][r], schema[i]))
    }
  }

  datatype Misaligned = ColumnCount | MissingColumn(name: string) | NotCastable(name: string) | NullInRequired

  type Cast = (Column, DataType, DataType) -> Option<Column>

  /** Casting a column to the type it has is no change. */
  ghost predicate CastsToItself(cast: Cast) {
    forall column, dataType :: cast(column, dataType, dataType) == Some(column)
  }

  /** The columns of a batch in the order of the table, each cast to the table's type. */
  function AlignColumns(batch: Batch, write: Schema, cast: Cast): (r: Result<seq<Column>, Misaligned>)
    requires |batch.columns| == |batch.schema|
    ensures r.Success? ==> |r.value| == |write|
    decreases |write|
  {
    if write == [] then Success([])
    else
      var field := write[|write| - 1];
      var front := AlignColumns(batch, write[..|write| - 1], cast);
      if front.Failure? then front
      else
        var index := IndexOf(batch.schema, field.name);
        if index.None? then Failure(MissingColumn(field.name))
        else
          var column := cast(batch.columns[index.value], batch.schema[index.value].dataType, field.dataType);
          if column.None? then Failure(NotCastable(field.name)) else Success(front.value + [column.value])
  }

  predicate NullsAreAllowed(columns: seq<Column>, write: Schema)
    requires |columns| == |write|
  {
    forall i, r :: 0 <= i < |write| && 0 <= r < |columns[i]| && columns[i][r].Null? ==> write[i].nullable
  }

  function Align(batch: Batch, write: Schema, cast: Cast): Result<Batch, Misaligned>
    requires |batch.columns| == |batch.schema|
  {
    if |batch.columns| != |write| then Failure(ColumnCount)
    else
      var columns := AlignColumns(batch, write, cast);
      if columns.Failure? then Failure(columns.error)
      else if !NullsAreAllowed(columns.value, write) then Failure(NullInRequired)
      else Success(Batch(write, columns.value))
  }

  /** Each column of the table comes from the batch's column of the same name. */
  lemma {:induction false} AlignedByName(batch: Batch, write: Schema, cast: Cast)
    requires |batch.columns| == |batch.schema|
    ensures var r := AlignColumns(batch, write, cast);
      r.Success? ==> forall i :: 0 <= i < |write| ==>
        var index := IndexOf(batch.schema, write[i].name);
        && index.Some?
        && Some(r.value[i]) == cast(batch.columns[index.value], batch.schema[index.value].dataType, write[i].dataType)
    decreases |write|
  {
    if write != [] {
      AlignedByName(batch, write[..|write| - 1], cast);
    }
  }

  lemma {:induction false} IdenticalColumnsAlign(batch: Batch, write: Schema, cast: Cast)
    requires |batch.columns| == |batch.schema| && CastsToItself(cast)
    requires forall i :: 0 <= i < |write| ==> FieldWithName(batch.schema, write[i].name) == Some(write[i])
    ensures AlignColumns(batch, write, cast).Success?
    decreases |write|
  {
    if write != [] {
      var front := write[..|write| - 1];
      assert forall i :: 0 <= i < |front| ==> front[i] == write[i];
      IdenticalColumnsAlign(batch, front, cast);
      assert FieldWithName(batch.schema, write[|write| - 1].name) == Some(write[|write| - 1]);
    }
  }

  function Names(schema: Schema): set<string> {
    set field | field in schema :: field.name
  }

  lemma {:induction false} NamesCount(schema: Schema)
    requires DistinctNames(schema)
    ensures |Names(schema)| == |schema|
    decreases |schema|
  {
    if schema != [] {
      var front, last := schema[..|schema| - 1], schema[|schema| - 1];
      NamesCount(front);
      assert schema == front + [last];
      assert Names(schema) == Names(front) + {last.name};
      assert last.name !in Names(front);
    }
  }

  lemma NameIsFound(schema: Schema, name: string)
    ensures IndexOf(schema, name).Some? <==> name in Names(schema)
  {
    if IndexOf(schema, name).Some? {
      assert schema[IndexOf(schema, name).value] in schema;
    }
  }

  lemma AllFound(a: Schema, b: Schema)
    ensures (forall i :: 0 <= i < |a| ==> IndexOf(b, a[i].name).Some?) <==> Names(a) <= Names(b)
  {
    forall i | 0 <= i < |a| ensures IndexOf(b, a[i].name).Some? <==> a[i].name in Names(b) {
      NameIsFound(b, a[i].name);
    }
    assert forall i :: 0 <= i < |a| ==> a[i] in a && a[i].name in Names(a);
  }

  lemma SameSizeSameSet(a: set<string>, b: set<string>)
    requires a <= b
    ensures |a| <= |b| && (|a| == |b| ==> a == b)
  {
    assert b == a + (b - a);
  }

  /** As many distinct names, each of which is found, leave none over. */
  lemma CountLeavesNoneOver(a: Schema, b: Schema)
    requires DistinctNames(a) && DistinctNames(b) && |a| == |b|
    requires forall i :: 0 <= i < |a| ==> IndexOf(b, a[i].name).Some?
    ensures forall j :: 0 <= j < |b| ==> IndexOf(a, b[j].name).Some?
  {
    hide IndexOf, Names;
    NamesCount(a);
    NamesCount(b);
    AllFound(a, b);
    SameSizeSameSet(Names(a), Names(b));
    AllFound(b, a);
  }

  lemma SameSize(a: Schema, b: Schema)
    requires DistinctNames(a) && DistinctNames(b)
    requires forall i :: 0 <= i < |a| ==> IndexOf(b, a[i].name).Some?
    requires forall i :: 0 <= i < |b| ==> IndexOf(a, b[i].name).Some?
    ensures |a| == |b|
  {
    hide IndexOf, Names;
    NamesCount(a);
    NamesCount(b);
    assert Names(a) <= Names(b) by { AllFound(a, b); }
    assert Names(b) <= Names(a) by { AllFound(b, a); }
    assert Names(a) == Names(b);
  }

  /**
   Aligning writes every column under its own name, whatever order the two declare them
   in, and leaves no column of the batch behind.
   */
  lemma AlignKeepsNames(batch: Batch, write: Schema, cast: Cast)
    requires |batch.columns| == |batch.schema| && DistinctNames(batch.schema) && DistinctNames(write)
    requires Align(batch, write, cast).Success?
    ensures var aligned := Align(batch, write, cast).value;
      && aligned.schema == write && |aligned.columns| == |write|
      && (forall i :: 0 <= i < |write| ==> IndexOf(batch.schema, write[i].name).Some?)
      && (forall j :: 0 <= j < |batch.schema| ==> IndexOf(write, batch.schema[j].name).Some?)
      && (forall i, j :: 0 <= i < |write| && 0 <= j < |batch.schema| && write[i].name == batch.schema[j].name ==>
            Some(aligned.columns[i]) == cast(batch.columns[j], batch.schema[j].dataType, write[i].dataType))
  {
    AlignedByName(batch, write, cast);
    CountLeavesNoneOver(write, batch.schema);
    forall i, j | 0 <= i < |write| && 0 <= j < |batch.schema| && write[i].name == batch.schema[j].name
      ensures IndexOf(batch.schema, write[i].name) == Some(j)
    {
      FoundByName(batch.schema, j);
    }
  }

  /** The batch has a column of this name, and it can be cast to the field's type. */
  predicate CanCast(batch: Batch, field: Field, cast: Cast)
    requires |batch.columns| == |batch.schema|
  {
    exists j :: 0 <= j < |batch.schema| && batch.schema[j].name == field.name
                && cast(batch.columns[j], batch.schema[j].dataType, field.dataType).Some?
  }

  /** Nothing the field forbids comes out of the cast. */
  predicate CastKeepsNullsOut(batch: Batch, field: Field, cast: Cast)
    requires |batch.columns| == |batch.schema|
  {
    forall j :: 0 <= j < |batch.schema| && batch.schema[j].name == field.name ==>
                  var column := cast(batch.columns[j], batch.schema[j].dataType, field.dataType);
                  column.Some? && !field.nullable ==> Null !in column.value
  }

  lemma CanCastByIndex(batch: Batch, field: Field, cast: Cast)
    requires |batch.columns| == |batch.schema| && DistinctNames(batch.schema)
    ensures var index := IndexOf(batch.schema, field.name);
      CanCast(batch, field, cast) <==>
      index.Some? && cast(batch.columns[index.value], batch.schema[index.value].dataType, field.dataType).Some?
  {
    var index := IndexOf(batch.schema, field.name);
    if CanCast(batch, field, cast) {
      var j :| 0 <= j < |batch.schema| && batch.schema[j].name == field.name
               && cast(batch.columns[j], batch.schema[j].dataType, field.dataType).Some?;
      FoundByName(batch.schema, j);
    }
  }

  lemma {:induction false} AlignsColumnsIff(batch: Batch, write: Schema, cast: Cast)
    requires |batch.columns| == |batch.schema| && DistinctNames(batch.schema)
    ensures AlignColumns(batch, write, cast).Success?
      <==> forall i :: 0 <= i < |write| ==> CanCast(batch, write[i], cast)
    decreases |write|
  {
    hide CanCast;
    if write != [] {
      var front := write[..|write| - 1];
      assert forall i :: 0 <= i < |front| ==> front[i] == write[i];
      AlignsColumnsIff(batch, front, cast);
      CanCastByIndex(batch, write[|write| - 1], cast);
    }
  }

  lemma NullsAreAllowedIff(batch: Batch, write: Schema, cast: Cast)
    requires |batch.columns| == |batch.schema| && DistinctNames(batch.schema)
    requires AlignColumns(batch, write, cast).Success?
    ensures NullsAreAllowed(AlignColumns(batch, write, cast).value, write)
      <==> forall i :: 0 <= i < |write| ==> CastKeepsNullsOut(batch, write[i], cast)
  {
    AlignedByName(batch, write, cast);
    var columns := AlignColumns(batch, write, cast).value;
    forall i | 0 <= i < |write|
      ensures CastKeepsNullsOut(batch, write[i], cast) <==> write[i].nullable || Null !in columns[i]
    {
      var index := IndexOf(batch.schema, write[i].name).value;
      assert forall j :: 0 <= j < |batch.schema| && batch.schema[j].name == write[i].name ==> j == index;
    }
    forall i, r | 0 <= i < |write| && 0 <= r < |columns[i]|
      ensures columns[i][r] == Null ==> Null in columns[i]
    {
    }
  }

  /**
   When aligning succeeds: as many columns on either side, each column of the table has one
   of its name in the batch that can be cast to its type, and no cast puts a null where the
   table forbids one.
   */
  lemma AlignSucceedsIff(batch: Batch, write: Schema, cast: Cast)
    requires |batch.columns| == |batch.schema| && DistinctNames(batch.schema)
    ensures Align(batch, write, cast).Success?
      <==> && |batch.schema| == |write|
           && (forall i :: 0 <= i < |write| ==> CanCast(batch, write[i], cast))
           && (forall i :: 0 <= i < |write| ==> CastKeepsNullsOut(batch, write[i], cast))
  {
    hide CanCast, CastKeepsNullsOut, AlignColumns, NullsAreAllowed;
    AlignsColumnsIff(batch, write, cast);
    if AlignColumns(batch, write, cast).Success? {
      NullsAreAllowedIff(batch, write, cast);
    }
  }

  /** A refusal names the first column of the table that cannot be had, and why. */
  lemma {:induction false} RefusedColumnIsTheFirst(batch: Batch, write: Schema, cast: Cast) returns (i: nat)
    requires |batch.columns| == |batch.schema| && DistinctNames(batch.schema)
    requires AlignColumns(batch, write, cast).Failure?
    ensures i < |write| && !CanCast(batch, write[i], cast)
    ensures forall k :: 0 <= k < i ==> CanCast(batch, write[k], cast)
    ensures AlignColumns(batch, write, cast).error ==
      if exists j :: 0 <= j < |batch.schema| && batch.schema[j].name == write[i].name
      then NotCastable(write[i].name) else MissingColumn(write[i].name)
    decreases |write|
  {
    hide CanCast;
    var front := write[..|write| - 1];
    assert forall k :: 0 <= k < |front| ==> front[k] == write[k];
    if AlignColumns(batch, front, cast).Failure? {
      i := RefusedColumnIsTheFirst(batch, front, cast);
    } else {
      i := |front|;
      AlignsColumnsIff(batch, front, cast);
      CanCastByIndex(batch, write[i], cast);
    }
  }

  /** Every answer of aligning that is not a success. */
  lemma AlignRefusesBecause(batch: Batch, write: Schema, cast: Cast)
    requires |batch.columns| == |batch.schema| && DistinctNames(batch.schema)
    requires Align(batch, write, cast).Failure?
    ensures match Align(batch, write, cast).error
      case ColumnCount => |batch.schema| != |write|
      case NullInRequired => exists i :: 0 <= i < |write| && !CastKeepsNullsOut(batch, write[i], cast)
      case MissingColumn(name) =>
        && |batch.schema| == |write|
        && (exists i :: 0 <= i < |write| && write[i].name == name && !CanCast(batch, write[i], cast))
        && (forall j :: 0 <= j < |batch.schema| ==> batch.schema[j].name != name)
      case NotCastable(name) =>
        && |batch.schema| == |write|
        && (exists i :: 0 <= i < |write| && write[i].name == name && !CanCast(batch, write[i], cast))
        && (exists j :: 0 <= j < |batch.schema| && batch.schema[j].name == name)
  {
    hide CanCast, CastKeepsNullsOut, AlignColumns, NullsAreAllowed;
    if |batch.schema| == |write| {
      if AlignColumns(batch, write, cast).Failure? {
        var i := RefusedColumnIsTheFirst(batch, write, cast);
      } else {
        NullsAreAllowedIff(batch, write, cast);
      }
    }
  }

  /** When the comparison finds nothing, aligning succeeds: every column, in any order, lands under its own name. */
  lemma IdenticalSchemasAlign(batch: Batch, write: Schema, cast: Cast)
    requires batch.Valid() && DistinctNames(batch.schema) && DistinctNames(write) && CastsToItself(cast)
    requires AllChanges(batch.schema, write) == []
    ensures Align(batch, write, cast).Success?
    ensures forall i, j :: 0 <= i < |write| && 0 <= j < |batch.schema| && write[i].name == batch.schema[j].name ==>
              Align(batch, write, cast).value.columns[i] == batch.columns[j]
  {
    IdenticalIsMutual(batch.schema, write);
    SameSize(batch.schema, write);
    IdenticalColumnsAlign(batch, write, cast);
    AlignedByName(batch, write, cast);
    ByNameIsInPlace(batch, write, AlignColumns(batch, write, cast).value);
  }

  lemma IdenticalIsMutual(a: Schema, b: Schema)
    requires DistinctNames(a) && DistinctNames(b) && AllChanges(a, b) == []
    ensures forall i :: 0 <= i < |b| ==> FieldWithName(a, b[i].name) == Some(b[i])
    ensures forall i :: 0 <= i < |a| ==> FieldWithName(b, a[i].name) == Some(a[i])
  {
    Verdict(a, b);
    forall i | 0 <= i < |b| ensures FieldWithName(a, b[i].name) == Some(b[i]) {
      var j := IndexOf(a, b[i].name).value;
      FoundByName(b, i);
      assert FieldWithName(b, a[j].name) == Some(a[j]);
    }
  }

  lemma ByNameIsInPlace(batch: Batch, write: Schema, columns: seq<Column>)
    requires batch.Valid() && DistinctNames(batch.schema) && |columns| == |write|
    requires forall i :: 0 <= i < |write| ==> FieldWithName(batch.schema, write[i].name) == Some(write[i])
    requires forall i :: 0 <= i < |write| ==>
      && FieldWithName(batch.schema, write[i].name).Some?
      && columns[i] == batch.columns[IndexOf(batch.schema, write[i].name).value]
    ensures NullsAreAllowed(columns, write)
    ensures forall i, j :: 0 <= i < |write| && 0 <= j < |batch.schema| && write[i].name == batch.schema[j].name ==>
              columns[i] == batch.columns[j]
  {
    forall i, r | 0 <= i < |write| && 0 <= r < |columns[i]| && columns[i][r].Null? ensures write[i].nullable {
      var j := IndexOf(batch.schema, write[i].name).value;
      assert write[i] == batch.schema[j] && Allowed(batch.columns[j][r], batch.schema[j]);
    }
    forall i, j | 0 <= i < |write| && 0 <= j < |batch.schema| && write[i].name == batch.schema[j].name
      ensures columns[i] == batch.columns[j]
    {
      FoundByName(batch.schema, j);
    }
  }
}
