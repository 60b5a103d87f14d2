/**
 Deliveries and the rows they are stored as: what one row says, what is refused, and how
 rows are read back into series.
 */
module Encoding {
  import opened Arithmetic
  import opened Results
  import opened FixedPoint
  import Watermark
  import VersionScope

  // ---------------------------------------------------------------- what the identifier library provides

  /** A type with one canonical spelling, and a reader that may accept others. */
  datatype Codec<!T(==, !new)> = Codec(spell: T -> string, read: string -> Option<T>)
  {
    ghost predicate Lawful() {
      forall t: T :: read(spell(t)) == Some(t)
    }
  }

  datatype MaloId = MaloId(id: nat)
  datatype MeloId = MeloId(id: nat)
  datatype ObisCode = ObisCode(code: nat)
  datatype Unit = Unit(code: nat)
  datatype Quality = Quality(code: nat)
  datatype Resolution = Resolution(seconds: nat)
  datatype Source = Source(kind: nat, payload: nat)
  datatype Provenance = Provenance(entries: seq<nat>)
  type Sparte = VersionScope.Sparte

  /** A serialised source: an object with its fields, a bare text, or something else. */
  datatype Json = Object(fields: seq<(string, string)>) | Text(tag: string) | OtherJson(content: string)

  /** What kind of table is written, and the spellings its columns use. */
  datatype Context = Context(
    points: bool,    // register readings, which are instants, rather than intervals
    malo: Codec<MaloId>, melo: Codec<MeloId>, obis: Codec<ObisCode>, sparte: Codec<Sparte>, unit: Codec<Unit>,
    quality: Codec<Quality>, resolution: Codec<Resolution>, provenance: Codec<Provenance>,
    sourceJson: Source -> Json, spellJson: Json -> string, readSource: string -> Option<Source>,
    measuredUnit: Sparte -> Unit, billingUnit: Sparte -> Unit,
    balancingDay: (int, Sparte) -> int, balancing: (int, Sparte) -> VersionScope.Month,
    canonical: (Declared, Scalar) -> Option<Scalar>)
  {
    ghost predicate Lawful() {
      && malo.Lawful() && melo.Lawful() && obis.Lawful() && sparte.Lawful() && unit.Lawful()
      && quality.Lawful() && resolution.Lawful() && provenance.Lawful()
      && (forall source :: readSource(spellJson(sourceJson(source))) == Some(source))
      // A checked column's canonical spelling is its own, of the same type, and null only if the value was.
      && (forall field, value :: canonical(field, value).Some? ==>
            var c := canonical(field, value).value;
            canonical(field, c) == Some(c) && c.dataType == value.dataType
            && (c.content.None? <==> value.content.None?))
    }
  }

  // ---------------------------------------------------------------- deliveries and rows

  datatype Scalar = Scalar(dataType: nat, content: Option<string>)

  /** A declared extra column. */
  datatype Declared = Declared(name: string, dataType: nat, nullable: bool)

  /** One value: over a span, or at an instant where it is a register reading. */
  datatype Interval = Interval(start: int, end: Option<int>, value: Decimal, quality: Quality, obis: Option<ObisCode>)

  datatype ScopedVersion = ScopedVersion(scope: string, version: nat)

  datatype Series = Series(
    malo: MaloId, melo: Option<MeloId>, obis: Option<ObisCode>, resolution: Option<Resolution>,
    source: Source, intervals: seq<Interval>, provenance: Provenance)

  datatype Stored = Stored(
    series: Series, sparte: Sparte, unit: Unit, version: ScopedVersion, recordedAt: int, extra: map<string, Scalar>)

  datatype StoredRow = StoredRow(
    malo: string, melo: Option<string>, obis: string, sparte: string, start: int, end: Option<int>, value: int,
    unit: string, quality: string, resolution: Option<string>, sourceKind: string, sourceDetail: Option<string>,
    provenance: Option<string>, version: int, versionScope: string, recordedAt: int, balancingDay: int,
    extra: seq<Scalar>)

  datatype Refusal =
    | WrongUnit | UntaggedSource | MissingExtra | WrongExtraType | NullExtra | BadExtra
    | OutOfScope | EmptyInterval | NoChannel | BadValue
    | BadCode | SourceDisagrees | BadVersion | BadInstant | PointRow | SpanRow

  // ---------------------------------------------------------------- instants

  /** Microseconds towards the epoch. */
  function Micros(at: int): int {
    Truncated(at, 1_000)
  }

  function Instant(micros: int): Result<int, Refusal> {
    if Watermark.Representable(micros * 1_000) then Success(micros * 1_000) else Failure(BadInstant)
  }

  /** What storage keeps of an instant. */
  function Kept(at: int): int {
    Micros(at) * 1_000
  }

  /** Storage gives an instant back exactly when it is a whole number of microseconds. */
  lemma InstantRoundTripIff(at: int)
    requires Watermark.Representable(at)
    ensures Instant(Micros(at)) == Success(Kept(at))
    ensures Instant(Micros(at)) == Success(at) <==> at % 1_000 == 0
    ensures Micros(Kept(at)) == Micros(at)
  {
    TruncationIsExact(at, 1_000);
    MultipleIsExact(Micros(at), 1_000);
  }

  // ---------------------------------------------------------------- encoding

  predicate UnitFits(sparte: Sparte, unit: Unit, ctx: Context) {
    unit == ctx.measuredUnit(sparte) || unit == ctx.billingUnit(sparte)
  }

  /** The discriminant, read off the serialised source. */
  function KindOf(json: Json): Option<string> {
    match json
    case Object(fields) => if |fields| == 1 then Some(fields[0].0) else None
    case Text(tag) => Some(tag)
    case OtherJson(_) => None
  }

  function EncodeSource(source: Source, ctx: Context): Result<(string, string), Refusal> {
    var json := ctx.sourceJson(source);
    var kind := KindOf(json);
    if kind.None? then Failure(UntaggedSource) else Success((kind.value, ctx.spellJson(json)))
  }

  /** One declared column of a delivery. */
  function ResolveOne(field: Declared, supplied: map<string, Scalar>, ctx: Context): Result<Scalar, Refusal> {
    if field.name !in supplied && !field.nullable then Failure(MissingExtra)
    else
      var value := if field.name in supplied then supplied[field.name] else Scalar(field.dataType, None);
      if value.dataType != field.dataType then Failure(WrongExtraType)
      else if value.content.None? && !field.nullable then Failure(NullExtra)
      else
        var canonical := ctx.canonical(field, value);
        if canonical.None? then Failure(BadExtra) else Success(canonical.value)
  }

  function ResolveExtra(fields: seq<Declared>, supplied: map<string, Scalar>, ctx: Context)
    : (r: Result<seq<Scalar>, Refusal>)
    ensures r.Success? ==> |r.value| == |fields|
    decreases |fields|
  {
    if fields == [] then Success([])
    else
      var front := ResolveExtra(fields[..|fields| - 1], supplied, ctx);
      if front.Failure? then front
      else
        var last := ResolveOne(fields[|fields| - 1], supplied, ctx);
        if last.Failure? then Failure(last.error) else Success(front.value + [last.value])
  }

  function SpellOption<T(!new)>(codec: Codec<T>, value: Option<T>): Option<string> {
    if value.None? then None else Some(codec.spell(value.value))
  }

  /** The part of a row that its delivery alone decides. */
  datatype SeriesFields = SeriesFields(
    malo: string, melo: Option<string>, sparte: string, unit: string, resolution: Option<string>,
    sourceKind: string, sourceDetail: string, provenance: string, version: int, versionScope: string,
    recordedAt: int, extra: seq<Scalar>)

  function FieldsOf(d: Stored, source: (string, string), extra: seq<Scalar>, ctx: Context): SeriesFields {
    SeriesFields(
      ctx.malo.spell(d.series.malo), SpellOption(ctx.melo, d.series.melo), ctx.sparte.spell(d.sparte),
      ctx.unit.spell(d.unit),
      SpellOption(ctx.resolution, d.series.resolution), source.0, source.1, ctx.provenance.spell(d.series.provenance),
      d.version.version, d.version.scope, Micros(d.recordedAt), extra)
  }

  /** The channel of an interval: its own, or else the series'. */
  function ObisFor(d: Stored, interval: Interval): Option<ObisCode> {
    if interval.obis.Some? then interval.obis else d.series.obis
  }

  function RowOf(fields: SeriesFields, obis: string, start: int, end: Option<int>, value: int, quality: string,
                 day: int): StoredRow
  {
    StoredRow(fields.malo, fields.melo, obis, fields.sparte, start, end, value, fields.unit, quality, fields.resolution,
              fields.sourceKind, Some(fields.sourceDetail), Some(fields.provenance), fields.version,
              fields.versionScope,
              fields.recordedAt, day, fields.extra)
  }

  function EndOf(interval: Interval, ctx: Context): Option<int>
    requires ctx.points || interval.end.Some?
  {
    if ctx.points then None else Some(Micros(interval.end.value))
  }

  function EncodeInterval(d: Stored, fields: SeriesFields, interval: Interval, ctx: Context)
    : Result<StoredRow, Refusal>
  {
    if !VersionScope.Covers(d.version.scope, interval.start, d.sparte, ctx.balancing) then Failure(OutOfScope)
    else if !ctx.points && (interval.end.None? || interval.end.value <= interval.start) then Failure(EmptyInterval)
    else if ObisFor(d, interval).None? then Failure(NoChannel)
    else if ToScaled(interval.value).Failure? then Failure(BadValue)
    else Success(RowOf(fields, ctx.obis.spell(ObisFor(d, interval).value), Micros(interval.start), EndOf(interval, ctx),
                       ToScaled(interval.value).value, ctx.quality.spell(interval.quality),
                       ctx.balancingDay(interval.start, d.sparte)))
  }

  function EncodeIntervals(d: Stored, fields: SeriesFields, intervals: seq<Interval>,
                           ctx: Context): Result<seq<StoredRow>, Refusal>
    decreases |intervals|
  {
    if intervals == [] then Success([])
    else
      var front := EncodeIntervals(d, fields, intervals[..|intervals| - 1], ctx);
      if front.Failure? then front
      else
        var last := EncodeInterval(d, fields, intervals[|intervals| - 1], ctx);
        if last.Failure? then Failure(last.error) else Success(front.value + [last.value])
  }

  /** A delivery without values is checked for its unit and its source, and writes nothing. */
  function EncodeDelivery(d: Stored, extra: seq<Declared>, ctx: Context): Result<seq<StoredRow>, Refusal> {
    if !UnitFits(d.sparte, d.unit, ctx) then Failure(WrongUnit)
    else
      var source := EncodeSource(d.series.source, ctx);
      if source.Failure? then Failure(source.error)
      else if d.series.intervals == [] then Success([])
      else
        var resolved := ResolveExtra(extra, d.extra, ctx);
        if resolved.Failure? then Failure(resolved.error)
        else EncodeIntervals(d, FieldsOf(d, source.value, resolved.value, ctx), d.series.intervals, ctx)
  }

  function Encode(deliveries: seq<Stored>, extra: seq<Declared>, ctx: Context): Result<seq<StoredRow>, Refusal>
    decreases |deliveries|
  {
    if deliveries == [] then Success([])
    else
      var front := Encode(deliveries[..|deliveries| - 1], extra, ctx);
      if front.Failure? then front
      else
        var last := EncodeDelivery(deliveries[|deliveries| - 1], extra, ctx);
        if last.Failure? then Failure(last.error) else Success(front.value + last.value)
  }

  // ---------------------------------------------------------------- decoding

  /** Everything in a row that is not about the single value. */
  datatype RunKey = RunKey(
    malo: string, melo: Option<string>, obis: string, sparte: string, unit: string, resolution: Option<string>,
    sourceKind: string, sourceDetail: Option<string>, provenance: Option<string>, version: int, versionScope: string,
    recordedAt: int, extra: seq<Scalar>)

  function KeyOf(row: StoredRow): RunKey {
    RunKey(row.malo, row.melo, row.obis, row.sparte, row.unit, row.resolution, row.sourceKind, row.sourceDetail,
           row.provenance, row.version, row.versionScope, row.recordedAt, row.extra)
  }

  /** Where a run of rows that agree on the whole key begins. */
  predicate Starts(rows: seq<StoredRow>, i: nat)
    requires i < |rows|
  {
    i == 0 || KeyOf(rows[i]) != KeyOf(rows[i - 1])
  }

  /** A code is read only if spelling it again gives the very text. */
  function DecodeCode<T(!new)>(codec: Codec<T>, raw: string): Option<T> {
    var parsed := codec.read(raw);
    if parsed.Some? && codec.spell(parsed.value) == raw then parsed else None
  }

  function DecodeSource(kind: string, detail: Option<string>, ctx: Context): Result<Source, Refusal> {
    if detail.None? || ctx.readSource(detail.value).None? then Failure(BadCode)
    else
      var source := ctx.readSource(detail.value).value;
      var again := EncodeSource(source, ctx);
      if again.Failure? then Failure(again.error)
      else if again.value.0 != kind then Failure(SourceDisagrees)
      else Success(source)
  }

  function ExtraMap(fields: seq<Declared>, values: seq<Scalar>): map<string, Scalar>
    requires |fields| == |values|
    decreases |fields|
  {
    if fields == [] then map[]
    else ExtraMap(fields[..|fields| - 1], values[..|values| - 1])[fields[|fields| - 1].name := values[|values| - 1]]
  }

  function DecodeOption<T(!new)>(codec: Codec<T>, raw: Option<string>, strict: bool): Result<Option<T>, Refusal> {
    if raw.None? then Success(None)
    else
      var decoded := if strict then DecodeCode(codec, raw.value) else codec.read(raw.value);
      if decoded.None? then Failure(BadCode) else Success(decoded)
  }

  /** The series a run opens, without its intervals. */
  function DecodeHead(key: RunKey, fields: seq<Declared>, ctx: Context): Result<Stored, Refusal>
    requires |key.extra| == |fields|
  {
    var source := DecodeSource(key.sourceKind, key.sourceDetail, ctx);
    if source.Failure? then Failure(source.error)
    else
      var resolution := DecodeOption(ctx.resolution, key.resolution, true);
      if resolution.Failure? then Failure(resolution.error)
      else if key.provenance.Some? && ctx.provenance.read(key.provenance.value).None? then Failure(BadCode)
      else
        var provenance :=
          if key.provenance.None? then Provenance([]) else ctx.provenance.read(key.provenance.value).value;
        var sparte := DecodeCode(ctx.sparte, key.sparte);
        var unit := DecodeCode(ctx.unit, key.unit);
        var malo := ctx.malo.read(key.malo);
        var melo := DecodeOption(ctx.melo, key.melo, false);
        var obis := DecodeCode(ctx.obis, key.obis);
        if sparte.None? || unit.None? || malo.None? then Failure(BadCode)
        else if melo.Failure? then Failure(melo.error)
        else if !UnitFits(sparte.value, unit.value, ctx) then Failure(WrongUnit)
        else if obis.None? then Failure(BadCode)
        else if VersionScope.Parse(key.versionScope).Failure? || !(0 <= key.version <= MAX_VERSION) then
          Failure(BadVersion)
        else
          var recordedAt := Instant(key.recordedAt);
          if recordedAt.Failure? then Failure(recordedAt.error)
          else Success(Stored(
            Series(malo.value, melo.value, obis, resolution.value, source.value, [], provenance),
            sparte.value, unit.value, ScopedVersion(key.versionScope, key.version), recordedAt.value,
            ExtraMap(fields, key.extra)))
  }

  const MAX_VERSION: nat := 99_999_999_999_999_999_999

  function DecodeEnd(micros: int): Result<Option<int>, Refusal> {
    var end := Instant(micros);
    if end.Failure? then Failure(end.error) else Success(Some(end.value))
  }

  /** A span where an instant is stored, or the other way round, means something else and is refused. */
  function DecodeInterval(row: StoredRow, ctx: Context): Result<Interval, Refusal> {
    if !ctx.points && row.end.None? then Failure(PointRow)
    else
      var start := Instant(row.start);
      var end := if row.end.None? then Success(None) else DecodeEnd(row.end.value);
      var quality, obis := DecodeCode(ctx.quality, row.quality), DecodeCode(ctx.obis, row.obis);
      if start.Failure? then Failure(start.error)
      else if end.Failure? then Failure(end.error)
      else if quality.None? || obis.None? then Failure(BadCode)
      else Success(Interval(start.value, end.value, FromScaled(row.value), quality.value, obis))
  }

  predicate Shaped(rows: seq<StoredRow>, fields: seq<Declared>) {
    forall i :: 0 <= i < |rows| ==> |rows[i].extra| == |fields|
  }

  function AddInterval(out: seq<Stored>, interval: Interval): seq<Stored>
    requires out != []
  {
    var last := out[|out| - 1];
    out[..|out| - 1] + [last.(series := last.series.(intervals := last.series.intervals + [interval]))]
  }

  /** What one more row adds: a series if a run starts here, and its interval to the last series. */
  function ReadRow(out: seq<Stored>, rows: seq<StoredRow>, i: nat, fields: seq<Declared>, ctx: Context)
    : (r: Result<seq<Stored>, Refusal>)
    requires i < |rows| && Shaped(rows, fields) && (i > 0 ==> out != [])
    ensures r.Success? ==> r.value != []
  {
    var head := DecodeHead(KeyOf(rows[i]), fields, ctx);
    if ctx.points && rows[i].end.Some? then Failure(SpanRow)
    else if Starts(rows, i) && head.Failure? then Failure(head.error)
    else
      var begun := if Starts(rows, i) then out + [head.value] else out;
      var interval := DecodeInterval(rows[i], ctx);
      if interval.Failure? then Failure(interval.error) else Success(AddInterval(begun, interval.value))
  }

  /** The first `n` rows, read one after another. */
  function DecodeUpTo(rows: seq<StoredRow>, n: nat, fields: seq<Declared>, ctx: Context)
    : (r: Result<seq<Stored>, Refusal>)
    requires n <= |rows| && Shaped(rows, fields)
    ensures r.Success? && n > 0 ==> r.value != []
    decreases n
  {
    if n == 0 then Success([])
    else
      var before := DecodeUpTo(rows, n - 1, fields, ctx);
      if before.Failure? then before else ReadRow(before.value, rows, n - 1, fields, ctx)
  }
}
