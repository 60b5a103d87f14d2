/** The loops that fill the column vectors of a batch, and that read a batch back. */
module RecordBatch {
  import opened Results
  import FixedPoint
  import opened Encoding
  import opened EncodingTheorems
  import VersionScope

  /** The columns as one value. */
  datatype Columns = Columns(
    malo: seq<string>, melo: seq<Option<string>>, obis: seq<string>, sparte: seq<string>, start: seq<int>,
    end: seq<Option<int>>, value: seq<int>, unit: seq<string>, quality: seq<string>, resolution: seq<Option<string>>,
    sourceKind: seq<string>, sourceDetail: seq<Option<string>>, provenance: seq<Option<string>>, version: seq<int>,
    versionScope: seq<string>, recordedAt: seq<int>, balancingDay: seq<int>, extra: seq<seq<Scalar>>)
  {
    predicate Valid() {
      && |malo| == |melo| == |obis| == |sparte| == |start| == |end| == |value| == |unit| == |quality|
      && |malo| == |resolution| == |sourceKind| == |sourceDetail| == |provenance| == |version| == |versionScope|
      && |malo| == |recordedAt| == |balancingDay|
      && forall k :: 0 <= k < |extra| ==> |extra[k]| == |malo|
    }

    function RowAt(i: nat): StoredRow
      requires Valid() && i < |malo|
    {
      StoredRow(malo[i], melo[i], obis[i], sparte[i], start[i], end[i], value[i], unit[i], quality[i], resolution[i],
                sourceKind[i], sourceDetail[i], provenance[i], version[i], versionScope[i], recordedAt[i],
                balancingDay[i],
                ExtraAt(extra, i))
    }

    function RowsTo(n: nat): (rows: seq<StoredRow>)
      requires Valid() && n <= |malo|
      ensures |rows| == n
    {
      if n == 0 then [] else RowsTo(n - 1) + [RowAt(n - 1)]
    }
  }

  /** `now` is `was` with one entry more in every column: the row's. */
  predicate Extended(was: Columns, now: Columns, row: StoredRow) {
    && now.malo == was.malo + [row.malo] && now.melo == was.melo + [row.melo] && now.obis == was.obis + [row.obis]
    && now.sparte == was.sparte + [row.sparte] && now.start == was.start + [row.start] && now.end == was.end + [row.end]
    && now.value == was.value + [row.value] && now.unit == was.unit + [row.unit]
       && now.quality == was.quality + [row.quality]
    && now.resolution == was.resolution + [row.resolution] && now.sourceKind == was.sourceKind + [row.sourceKind]
    && now.sourceDetail == was.sourceDetail + [row.sourceDetail] && now.provenance == was.provenance + [row.provenance]
    && now.version == was.version + [row.version] && now.versionScope == was.versionScope + [row.versionScope]
    && now.recordedAt == was.recordedAt + [row.recordedAt] && now.balancingDay == was.balancingDay + [row.balancingDay]
    && |now.extra| == |was.extra| == |row.extra|
    && forall k :: 0 <= k < |now.extra| ==> now.extra[k] == was.extra[k] + [row.extra[k]]
  }

  lemma ExtendedAt(was: Columns, now: Columns, row: StoredRow, i: nat)
    requires was.Valid() && now.Valid() && Extended(was, now, row) && i < |now.malo|
    ensures now.RowAt(i) == if i < |was.malo| then was.RowAt(i) else row
  {
    if i < |was.malo| {
      assert ExtraAt(now.extra, i) == ExtraAt(was.extra, i);
    } else {
      assert ExtraAt(now.extra, i) == row.extra;
    }
  }

  lemma {:induction false} ExtendedRows(was: Columns, now: Columns, row: StoredRow, n: nat)
    requires was.Valid() && now.Valid() && Extended(was, now, row) && n <= |was.malo|
    ensures now.RowsTo(n) == was.RowsTo(n)
  {
    if n > 0 {
      ExtendedAt(was, now, row, n - 1);
      ExtendedRows(was, now, row, n - 1);
    }
  }

  lemma OneRowMore(was: Columns, now: Columns, row: StoredRow)
    requires was.Valid() && Extended(was, now, row)
    ensures now.Valid() && now.RowsTo(|now.malo|) == was.RowsTo(|was.malo|) + [row]
  {
    ExtendedRows(was, now, row, |was.malo|);
    ExtendedAt(was, now, row, |was.malo|);
  }

  /** One vector for each column; a row is what stands at one position in all of them. */
  class RowColumns {
    var columns: Columns

    predicate Valid()
      reads this
    {
      columns.Valid()
    }

    function Rows(): seq<StoredRow>
      reads this
      requires Valid()
    {
      columns.RowsTo(|columns.malo|)
    }

    /** One empty vector for each declared extra column. */
    constructor (extras: nat)
      ensures Valid() && Rows() == [] && |columns.extra| == extras
    {
      columns := Columns([], [], [], [], [], [], [], [], [], [], [], [], [], [], [], [], [], seq(extras, _ => []));
    }

    method Push(fields: SeriesFields, obis: string, start: int, end: Option<int>, value: int, quality: string, day: int)
      requires Valid() && |fields.extra| == |columns.extra|
      modifies this
      ensures Valid() && |columns.extra| == old(|columns.extra|)
      ensures Rows() == old(Rows()) + [
        StoredRow(fields.malo, fields.melo, obis, fields.sparte, start, end, value, fields.unit, quality,
                  fields.resolution, fields.sourceKind, Some(fields.sourceDetail), Some(fields.provenance),
                  fields.version, fields.versionScope, fields.recordedAt, day, fields.extra)]
    {
      var c := columns;
      var extra := c.extra;
      for k := 0 to |extra|
        invariant |extra| == |c.extra|
        invariant forall j :: 0 <= j < |extra| ==>
                                extra[j] == if j < k then c.extra[j] + [fields.extra[j]] else c.extra[j]
      {
        extra := extra[k := extra[k] + [fields.extra[k]]];
      }
      columns := Columns(
        c.malo + [fields.malo], c.melo + [fields.melo], c.obis + [obis], c.sparte + [fields.sparte], c.start + [start],
        c.end + [end], c.value + [value], c.unit + [fields.unit], c.quality + [quality],
        c.resolution + [fields.resolution],
        c.sourceKind + [fields.sourceKind], c.sourceDetail + [Some(fields.sourceDetail)],
        c.provenance + [Some(fields.provenance)], c.version + [fields.version], c.versionScope + [fields.versionScope],
        c.recordedAt + [fields.recordedAt], c.balancingDay + [day], extra);
      OneRowMore(c, columns, RowOf(fields, obis, start, end, value, quality, day));
    }

    /** The assembled batch, row by row. */
    method Finish() returns (rows: seq<StoredRow>)
      requires Valid()
      ensures rows == Rows()
    {
      rows := columns.RowsTo(|columns.malo|);
    }
  }

  function ExtraAt(columns: seq<seq<Scalar>>, i: nat): (row: seq<Scalar>)
    requires forall k :: 0 <= k < |columns| ==> i < |columns[k]|
    ensures |row| == |columns| && forall k :: 0 <= k < |columns| ==> row[k] == columns[k][i]
  {
    seq(|columns|, k requires 0 <= k < |columns| => columns[k][i])
  }

  // ---------------------------------------------------------------- the first refusal is the answer

  lemma {:induction false} FirstRefusedDelivery(stored: seq<Stored>, i: nat, extra: seq<Declared>, ctx: Context)
    requires i < |stored| && Encode(stored[..i], extra, ctx).Success? && EncodeDelivery(stored[i], extra, ctx).Failure?
    ensures Encode(stored, extra, ctx) == Failure(EncodeDelivery(stored[i], extra, ctx).error)
    decreases |stored|
  {
    hide EncodeDelivery;
    var front := stored[..|stored| - 1];
    if i < |front| {
      assert front[..i] == stored[..i];
      FirstRefusedDelivery(front, i, extra, ctx);
    }
  }

  lemma {:induction false} FirstRefusedInterval(d: Stored, fields: SeriesFields, intervals: seq<Interval>, j: nat,
                                                ctx: Context)
    requires j < |intervals| && EncodeIntervals(d, fields, intervals[..j], ctx).Success?
    requires EncodeInterval(d, fields, intervals[j], ctx).Failure?
    ensures EncodeIntervals(d, fields, intervals, ctx) == Failure(EncodeInterval(d, fields, intervals[j], ctx).error)
    decreases |intervals|
  {
    hide EncodeInterval;
    var front := intervals[..|intervals| - 1];
    if j < |front| {
      assert front[..j] == intervals[..j];
      FirstRefusedInterval(d, fields, front, j, ctx);
    }
  }

  lemma {:induction false} FirstUnreadableRow(rows: seq<StoredRow>, i: nat, n: nat, fields: seq<Declared>, ctx: Context)
    requires i <= n <= |rows| && Shaped(rows, fields) && DecodeUpTo(rows, i, fields, ctx).Failure?
    ensures DecodeUpTo(rows, n, fields, ctx) == DecodeUpTo(rows, i, fields, ctx)
    decreases n
  {
    hide ReadRow;
    if i < n {
      FirstUnreadableRow(rows, i, n - 1, fields, ctx);
    }
  }

  /** Reading stops at the first row that cannot be read. */
  lemma FailsAtOnce(rows: seq<StoredRow>, i: nat, fields: seq<Declared>, ctx: Context)
    requires i < |rows| && Shaped(rows, fields)
    ensures DecodeUpTo(rows, i + 1, fields, ctx).Failure? ==>
      DecodeUpTo(rows, |rows|, fields, ctx) == DecodeUpTo(rows, i + 1, fields, ctx)
  {
    hide DecodeUpTo;
    if DecodeUpTo(rows, i + 1, fields, ctx).Failure? {
      FirstUnreadableRow(rows, i + 1, |rows|, fields, ctx);
    }
  }

  // ---------------------------------------------------------------- the loops

  /** One interval's row, appended to the columns, or why there is none. */
  method PushInterval(d: Stored, fields: SeriesFields, interval: Interval, ctx: Context, out: RowColumns)
    returns (refused: Option<Refusal>)
    requires out.Valid() && |out.columns.extra| == |fields.extra|
    modifies out
    ensures out.Valid() && |out.columns.extra| == |fields.extra|
    ensures match EncodeInterval(d, fields, interval, ctx)
      case Failure(e) => refused == Some(e) && out.Rows() == old(out.Rows())
      case Success(row) => refused == None && out.Rows() == old(out.Rows()) + [row]
  {
    hide VersionScope.Covers, FixedPoint.ToScaled;
    if !VersionScope.Covers(d.version.scope, interval.start, d.sparte, ctx.balancing) {
      return Some(OutOfScope);
    }
    if !ctx.points && (interval.end.None? || interval.end.value <= interval.start) {
      return Some(EmptyInterval);
    }
    var channel := if interval.obis.Some? then interval.obis else d.series.obis;
    if channel.None? {
      return Some(NoChannel);
    }
    var scaled := FixedPoint.ToScaled(interval.value);
    if scaled.Failure? {
      return Some(BadValue);
    }
    out.Push(fields, ctx.obis.spell(channel.value), Micros(interval.start), EndOf(interval, ctx), scaled.value,
                 ctx.quality.spell(interval.quality), ctx.balancingDay(interval.start, d.sparte));
    refused := None;
  }

  /** One delivery's rows, appended to the columns. */
  method PushDelivery(d: Stored, extra: seq<Declared>, ctx: Context, out: RowColumns) returns (refused: Option<Refusal>)
    requires out.Valid() && |out.columns.extra| == |extra|
    modifies out
    ensures out.Valid() && |out.columns.extra| == |extra|
    ensures match EncodeDelivery(d, extra, ctx)
      case Failure(e) => refused == Some(e)
      case Success(rows) => refused == None && out.Rows() == old(out.Rows()) + rows
  {
    if !UnitFits(d.sparte, d.unit, ctx) {
      return Some(WrongUnit);
    }
    var source := EncodeSource(d.series.source, ctx);
    if source.Failure? {
      return Some(source.error);
    }
    if d.series.intervals == [] {
      return None;
    }
    var resolved := ResolveExtra(extra, d.extra, ctx);
    if resolved.Failure? {
      return Some(resolved.error);
    }
    refused := PushIntervals(d, FieldsOf(d, source.value, resolved.value, ctx), d.series.intervals, ctx, out);
  }

  method PushIntervals(d: Stored, fields: SeriesFields, intervals: seq<Interval>, ctx: Context, out: RowColumns)
    returns (refused: Option<Refusal>)
    requires out.Valid() && |out.columns.extra| == |fields.extra|
    modifies out
    ensures out.Valid() && |out.columns.extra| == |fields.extra|
    ensures match EncodeIntervals(d, fields, intervals, ctx)
      case Failure(e) => refused == Some(e)
      case Success(rows) => refused == None && out.Rows() == old(out.Rows()) + rows
  {
    hide EncodeInterval;
    for j := 0 to |intervals|
      invariant out.Valid() && |out.columns.extra| == |fields.extra|
      invariant EncodeIntervals(d, fields, intervals[..j], ctx).Success?
      invariant out.Rows() == old(out.Rows()) + EncodeIntervals(d, fields, intervals[..j], ctx).value
    {
      assert intervals[..j + 1][..j] == intervals[..j];
      refused := PushInterval(d, fields, intervals[j], ctx, out);
      if refused.Some? {
        FirstRefusedInterval(d, fields, intervals, j, ctx);
        return;
      }
    }
    assert intervals[..|intervals|] == intervals;
    refused := None;
  }

  method ToRecordBatch(stored: seq<Stored>, extra: seq<Declared>, ctx: Context)
    returns (r: Result<seq<StoredRow>, Refusal>)
    ensures r == Encode(stored, extra, ctx)
    ensures r.Success? ==> |r.value| == |Lines(stored)|
    ensures r.Success? ==> forall k :: 0 <= k < |r.value| ==> Stores(r.value[k], Lines(stored)[k], extra, ctx)
  {
    hide Stores;
    var out := new RowColumns(|extra|);
    for i := 0 to |stored|
      invariant out.Valid() && |out.columns.extra| == |extra|
      invariant Encode(stored[..i], extra, ctx) == Success(out.Rows())
    {
      assert stored[..i + 1][..i] == stored[..i];
      var refused := PushDelivery(stored[i], extra, ctx, out);
      if refused.Some? {
        FirstRefusedDelivery(stored, i, extra, ctx);
        return Failure(refused.value);
      }
    }
    assert stored[..|stored|] == stored;
    var rows := out.Finish();
    r := Success(rows);
    EveryColumnIsStored(stored, extra, ctx);
  }

  method FromRecordBatch(rows: seq<StoredRow>, fields: seq<Declared>, ctx: Context)
    returns (r: Result<seq<Stored>, Refusal>)
    requires Shaped(rows, fields)
    ensures r == DecodeUpTo(rows, |rows|, fields, ctx)
  {
    var out := [];
    for i := 0 to |rows|
      invariant DecodeUpTo(rows, i, fields, ctx) == Success(out)
    {
      hide ReadRow;
      FailsAtOnce(rows, i, fields, ctx);
      var more := AddRow(out, rows, i, fields, ctx);
      if more.Failure? {
        return more;
      }
      out := more.value;
    }
    r := Success(out);
  }

  /** One row: a new series where a run starts, and the interval onto the last series. */
  method AddRow(out: seq<Stored>, rows: seq<StoredRow>, i: nat, fields: seq<Declared>, ctx: Context)
    returns (r: Result<seq<Stored>, Refusal>)
    requires i < |rows| && Shaped(rows, fields) && (i > 0 ==> out != [])
    ensures r == ReadRow(out, rows, i, fields, ctx)
  {
    hide DecodeHead, DecodeInterval;
    if ctx.points && rows[i].end.Some? {
      return Failure(SpanRow);
    }
    var now := out;
    if Starts(rows, i) {
      var head := DecodeHead(KeyOf(rows[i]), fields, ctx);
      if head.Failure? {
        return Failure(head.error);
      }
      now := now + [head.value];
    }
    var interval := DecodeInterval(rows[i], ctx);
    if interval.Failure? {
      return Failure(interval.error);
    }
    r := Success(AddInterval(now, interval.value));
  }
}
