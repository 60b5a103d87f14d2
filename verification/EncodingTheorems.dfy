/**
 What storing deliveries as rows keeps: reading a batch gives back every value with the
 delivery it came from, cut into runs, and writing what was read gives the same batch.
 */
module EncodingTheorems {
  import opened Results
  import opened Encoding
  import FixedPoint
  import VersionScope
  import Watermark

  // ---------------------------------------------------------------- values with their delivery

  function Head(d: Stored): Stored {
    d.(series := d.series.(intervals := []))
  }

  /** One value together with all that its delivery says about it. */
  datatype Line = Line(head: Stored, interval: Interval)

  function LinesOf(head: Stored, intervals: seq<Interval>): seq<Line> {
    if intervals == [] then []
    else LinesOf(head, intervals[..|intervals| - 1]) + [Line(head, intervals[|intervals| - 1])]
  }

  function Lines(stored: seq<Stored>): seq<Line>
    decreases |stored|
  {
    if stored == [] then []
    else
      var last := stored[|stored| - 1];
      Lines(stored[..|stored| - 1]) + LinesOf(Head(last), last.series.intervals)
  }

  /** What the types of the program guarantee about a delivery. */
  predicate WellTyped(d: Stored, ctx: Context) {
    && VersionScope.Parse(d.version.scope) == Success(d.version.scope) && d.version.version <= MAX_VERSION
    && Watermark.Representable(d.recordedAt)
    && (ctx.points ==> d.series.obis.Some?)
    && forall i :: 0 <= i < |d.series.intervals| ==> WellTypedInterval(d.series.intervals[i], ctx)
  }

  predicate WellTypedInterval(interval: Interval, ctx: Context) {
    && Watermark.Representable(interval.start) && (interval.end.None? <==> ctx.points)
    && (interval.end.Some? ==> Watermark.Representable(interval.end.value))
    && FixedPoint.Valid(interval.value)
  }

  /** What storage keeps of a delivery, for the channel of one of its values. */
  function KeptHead(d: Stored, obis: ObisCode, fields: seq<Declared>, values: seq<Scalar>): Stored
    requires |fields| == |values|
  {
    Stored(d.series.(obis := Some(obis), intervals := []), d.sparte, d.unit, d.version, Kept(d.recordedAt),
           ExtraMap(fields, values))
  }

  function KeptEnd(end: Option<int>): Option<int> {
    if end.None? then None else Some(Kept(end.value))
  }

  function KeptInterval(interval: Interval, obis: ObisCode): Interval
    requires FixedPoint.ToScaled(interval.value).Success?
  {
    Interval(Kept(interval.start), KeptEnd(interval.end),
             FixedPoint.FromScaled(FixedPoint.ToScaled(interval.value).value),
             interval.quality, Some(obis))
  }

  /** What storage keeps of a value and its delivery. */
  function KeptLine(line: Line, fields: seq<Declared>, ctx: Context): Line
    requires EncodeLine(line, fields, ctx).Success?
  {
    var obis := ObisFor(line.head, line.interval).value;
    Line(KeptHead(line.head, obis, fields, ResolveExtra(fields, line.head.extra, ctx).value),
         KeptInterval(line.interval, obis))
  }

  function KeptLines(lines: seq<Line>, fields: seq<Declared>, ctx: Context): seq<Line>
    requires EncodeLines(lines, fields, ctx).Success?
    decreases |lines|
  {
    if lines == [] then []
    else KeptLines(lines[..|lines| - 1], fields, ctx) + [KeptLine(lines[|lines| - 1], fields, ctx)]
  }

  // ---------------------------------------------------------------- a batch, line by line

  /** One value written on its own: the checks of its delivery, then its row. */
  function EncodeLine(line: Line, fields: seq<Declared>, ctx: Context): Result<StoredRow, Refusal> {
    var head := line.head;
    if !UnitFits(head.sparte, head.unit, ctx) then Failure(WrongUnit)
    else
      var source, resolved := EncodeSource(head.series.source, ctx), ResolveExtra(fields, head.extra, ctx);
      if source.Failure? then Failure(source.error)
      else if resolved.Failure? then Failure(resolved.error)
      else EncodeInterval(head, FieldsOf(head, source.value, resolved.value, ctx), line.interval, ctx)
  }

  function EncodeLines(lines: seq<Line>, fields: seq<Declared>, ctx: Context): (r: Result<seq<StoredRow>, Refusal>)
    ensures r.Success? ==> |r.value| == |lines|
    decreases |lines|
  {
    if lines == [] then Success([])
    else
      var front := EncodeLines(lines[..|lines| - 1], fields, ctx);
      if front.Failure? then front
      else
        var last := EncodeLine(lines[|lines| - 1], fields, ctx);
        if last.Failure? then Failure(last.error) else Success(front.value + [last.value])
  }

  lemma {:induction false} EncodeLinesAppend(a: seq<Line>, b: seq<Line>, fields: seq<Declared>, ctx: Context)
    ensures EncodeLines(a + b, fields, ctx) ==
      if EncodeLines(a, fields, ctx).Failure? then EncodeLines(a, fields, ctx)
      else if EncodeLines(b, fields, ctx).Failure? then EncodeLines(b, fields, ctx)
      else Success(EncodeLines(a, fields, ctx).value + EncodeLines(b, fields, ctx).value)
    decreases |b|
  {
    hide EncodeLine;
    if b == [] {
      assert a + b == a;
      if EncodeLines(a, fields, ctx).Success? {
        var rows := EncodeLines(a, fields, ctx).value;
        assert rows + [] == rows;
      }
    } else {
      var front := b[..|b| - 1];
      EncodeLinesAppend(a, front, fields, ctx);
      assert (a + b)[..|a + b| - 1] == a + front;
      assert (a + b)[|a + b| - 1] == b[|b| - 1];
      if EncodeLines(a, fields, ctx).Success? && EncodeLines(b, fields, ctx).Success? {
        var last := [EncodeLine(b[|b| - 1], fields, ctx).value];
        assert EncodeLines(a, fields, ctx).value + (EncodeLines(front, fields, ctx).value + last) ==
               EncodeLines(a, fields, ctx).value + EncodeLines(front, fields, ctx).value + last;
      }
    }
  }

  /** The rows of one delivery are the rows of its lines. */
  lemma {:induction false} IntervalsAreLines(d: Stored, intervals: seq<Interval>, fields: seq<Declared>, ctx: Context)
    requires UnitFits(d.sparte, d.unit, ctx)
    requires EncodeSource(d.series.source, ctx).Success? && ResolveExtra(fields, d.extra, ctx).Success?
    ensures var shared := FieldsOf(d, EncodeSource(d.series.source, ctx).value,
                                   ResolveExtra(fields, d.extra, ctx).value, ctx);
      EncodeIntervals(d, shared, intervals, ctx) == EncodeLines(LinesOf(Head(d), intervals), fields, ctx)
    decreases |intervals|
  {
    if intervals != [] {
      var front, last := intervals[..|intervals| - 1], intervals[|intervals| - 1];
      IntervalsAreLines(d, front, fields, ctx);
      IntervalIsLine(d, last, fields, ctx);
      hide EncodeInterval, EncodeLine, FieldsOf;
      var lines := LinesOf(Head(d), intervals);
      assert lines[..|lines| - 1] == LinesOf(Head(d), front) && lines[|lines| - 1] == Line(Head(d), last);
    }
  }

  lemma IntervalIsLine(d: Stored, interval: Interval, fields: seq<Declared>, ctx: Context)
    requires UnitFits(d.sparte, d.unit, ctx)
    requires EncodeSource(d.series.source, ctx).Success? && ResolveExtra(fields, d.extra, ctx).Success?
    ensures var shared := FieldsOf(d, EncodeSource(d.series.source, ctx).value,
                                   ResolveExtra(fields, d.extra, ctx).value, ctx);
      EncodeInterval(d, shared, interval, ctx) == EncodeLine(Line(Head(d), interval), fields, ctx)
  {
  }

  /** A batch that could be written is the rows of its lines. */
  lemma {:induction false} BatchIsItsLines(stored: seq<Stored>, fields: seq<Declared>, ctx: Context)
    requires Encode(stored, fields, ctx).Success?
    ensures Encode(stored, fields, ctx) == EncodeLines(Lines(stored), fields, ctx)
    decreases |stored|
  {
    if stored != [] {
      var front, last := stored[..|stored| - 1], stored[|stored| - 1];
      BatchIsItsLines(front, fields, ctx);
      if last.series.intervals != [] {
        IntervalsAreLines(last, last.series.intervals, fields, ctx);
      }
      EncodeLinesAppend(Lines(front), LinesOf(Head(last), last.series.intervals), fields, ctx);
    }
  }

  /** Deliveries that all have values are written exactly when their lines are. */
  lemma {:induction false} LinesAreTheBatch(stored: seq<Stored>, fields: seq<Declared>, ctx: Context)
    requires forall i :: 0 <= i < |stored| ==> stored[i].series.intervals != []
    requires EncodeLines(Lines(stored), fields, ctx).Success?
    ensures Encode(stored, fields, ctx) == EncodeLines(Lines(stored), fields, ctx)
    decreases |stored|
  {
    if stored != [] {
      var front, last := stored[..|stored| - 1], stored[|stored| - 1];
      var lines := LinesOf(Head(last), last.series.intervals);
      EncodeLinesAppend(Lines(front), lines, fields, ctx);
      LinesAreTheBatch(front, fields, ctx);
      assert lines[|lines| - 1].head == Head(last);
      assert EncodeLine(lines[|lines| - 1], fields, ctx).Success?;
      IntervalsAreLines(last, last.series.intervals, fields, ctx);
    }
  }

  // ---------------------------------------------------------------- reading one row

  predicate Readable(row: StoredRow, fields: seq<Declared>, ctx: Context) {
    && |row.extra| == |fields| && (ctx.points ==> row.end.None?)
    && DecodeHead(KeyOf(row), fields, ctx).Success? && DecodeInterval(row, ctx).Success?
  }

  function LineOfRow(row: StoredRow, fields: seq<Declared>, ctx: Context): Line
    requires Readable(row, fields, ctx)
  {
    Line(DecodeHead(KeyOf(row), fields, ctx).value, DecodeInterval(row, ctx).value)
  }

  lemma CodeReadsBack<T(!new)>(codec: Codec<T>, value: T)
    requires codec.Lawful()
    ensures DecodeCode(codec, codec.spell(value)) == Some(value) && codec.read(codec.spell(value)) == Some(value)
  {
  }

  lemma OptionReadsBack<T(!new)>(codec: Codec<T>, value: Option<T>, strict: bool)
    requires codec.Lawful()
    ensures DecodeOption(codec, SpellOption(codec, value), strict) == Success(value)
  {
  }

  lemma SourceReadsBack(source: Source, ctx: Context)
    requires ctx.Lawful() && EncodeSource(source, ctx).Success?
    ensures var (kind, detail) := EncodeSource(source, ctx).value;
      DecodeSource(kind, Some(detail), ctx) == Success(source)
  {
  }

  /** The key of a written row reads back as what storage keeps of the delivery. */
  lemma HeadReadsBack(d: Stored, obis: ObisCode, fields: seq<Declared>, values: seq<Scalar>, key: RunKey, ctx: Context)
    requires ctx.Lawful() && WellTyped(d, ctx) && UnitFits(d.sparte, d.unit, ctx) && |values| == |fields|
    requires EncodeSource(d.series.source, ctx).Success?
    requires key == KeyOf(RowOf(FieldsOf(d, EncodeSource(d.series.source, ctx).value, values, ctx),
                                ctx.obis.spell(obis), 0, None, 0, "", 0))
    ensures DecodeHead(key, fields, ctx) == Success(KeptHead(d, obis, fields, values))
  {
    SourceReadsBack(d.series.source, ctx);
    OptionReadsBack(ctx.resolution, d.series.resolution, true);
    OptionReadsBack(ctx.melo, d.series.melo, false);
    CodeReadsBack(ctx.provenance, d.series.provenance);
    CodeReadsBack(ctx.sparte, d.sparte);
    CodeReadsBack(ctx.unit, d.unit);
    CodeReadsBack(ctx.malo, d.series.malo);
    CodeReadsBack(ctx.obis, obis);
    InstantRoundTripIff(d.recordedAt);
    hide DecodeSource, DecodeOption, DecodeCode, Instant, UnitFits, Kept;
  }

  lemma IntervalReadsBack(line: Line, fields: seq<Declared>, ctx: Context)
    requires ctx.Lawful() && WellTypedInterval(line.interval, ctx) && EncodeLine(line, fields, ctx).Success?
    ensures DecodeInterval(EncodeLine(line, fields, ctx).value, ctx) ==
      Success(KeptInterval(line.interval, ObisFor(line.head, line.interval).value))
  {
    var interval := line.interval;
    InstantRoundTripIff(interval.start);
    if interval.end.Some? {
      InstantRoundTripIff(interval.end.value);
    }
    CodeReadsBack(ctx.quality, interval.quality);
    CodeReadsBack(ctx.obis, ObisFor(line.head, interval).value);
    hide UnitFits, VersionScope.Covers, FixedPoint.ToScaled, ResolveExtra, EncodeSource, FieldsOf;
  }

  lemma LineHeadReadsBack(line: Line, fields: seq<Declared>, ctx: Context)
    requires ctx.Lawful() && WellTyped(line.head, ctx) && EncodeLine(line, fields, ctx).Success?
    ensures var row := EncodeLine(line, fields, ctx).value;
      && |row.extra| == |fields|
      && ResolveExtra(fields, line.head.extra, ctx).Success? && ObisFor(line.head, line.interval).Some?
      && DecodeHead(KeyOf(row), fields, ctx) ==
           Success(KeptHead(line.head, ObisFor(line.head, line.interval).value, fields,
                            ResolveExtra(fields, line.head.extra, ctx).value))
  {
    WrittenLine(line, fields, ctx);
    hide EncodeLine, DecodeHead, UnitFits, EncodeSource, ResolveExtra, VersionScope.Covers, FixedPoint.ToScaled,
        FieldsOf;
    var d, interval := line.head, line.interval;
    var row := EncodeLine(line, fields, ctx).value;
    var obis := ObisFor(d, interval).value;
    var values := ResolveExtra(fields, d.extra, ctx).value;
    var shared := FieldsOf(d, EncodeSource(d.series.source, ctx).value, values, ctx);
    assert KeyOf(row) == KeyOf(RowOf(shared, ctx.obis.spell(obis), 0, None, 0, "", 0));
    HeadReadsBack(d, obis, fields, values, KeyOf(row), ctx);
  }

  /** A line that was written passed every check, and this is its row. */
  lemma WrittenLine(line: Line, fields: seq<Declared>, ctx: Context)
    requires EncodeLine(line, fields, ctx).Success?
    ensures var d, interval := line.head, line.interval;
      && UnitFits(d.sparte, d.unit, ctx) && EncodeSource(d.series.source, ctx).Success?
         && ResolveExtra(fields, d.extra, ctx).Success?
      && VersionScope.Covers(d.version.scope, interval.start, d.sparte, ctx.balancing)
      && (!ctx.points ==> interval.end.Some? && interval.start < interval.end.value)
      && ObisFor(d, interval).Some? && FixedPoint.ToScaled(interval.value).Success?
      && EncodeLine(line, fields, ctx).value == RowOf(
           FieldsOf(d, EncodeSource(d.series.source, ctx).value, ResolveExtra(fields, d.extra, ctx).value, ctx),
           ctx.obis.spell(ObisFor(d, interval).value), Micros(interval.start), EndOf(interval, ctx),
           FixedPoint.ToScaled(interval.value).value, ctx.quality.spell(interval.quality),
           ctx.balancingDay(interval.start, d.sparte))
  {
  }

  /** A written row reads back as what storage keeps of its line. */
  lemma RowReadsBack(line: Line, fields: seq<Declared>, ctx: Context)
    requires ctx.Lawful() && WellTyped(line.head, ctx) && WellTypedInterval(line.interval, ctx)
    requires EncodeLine(line, fields, ctx).Success?
    ensures var row := EncodeLine(line, fields, ctx).value;
      Readable(row, fields, ctx) && LineOfRow(row, fields, ctx) == KeptLine(line, fields, ctx)
  {
    LineHeadReadsBack(line, fields, ctx);
    IntervalReadsBack(line, fields, ctx);
    WrittenLine(line, fields, ctx);
    hide DecodeHead, DecodeInterval, EncodeLine;
  }

  // ---------------------------------------------------------------- reading a batch

  function LinesOfRows(rows: seq<StoredRow>, fields: seq<Declared>, ctx: Context): seq<Line>
    requires forall i :: 0 <= i < |rows| ==> Readable(rows[i], fields, ctx)
    decreases |rows|
  {
    if rows == [] then []
    else LinesOfRows(rows[..|rows| - 1], fields, ctx) + [LineOfRow(rows[|rows| - 1], fields, ctx)]
  }

  lemma AddIntervalAddsLine(out: seq<Stored>, interval: Interval)
    requires out != []
    ensures var now := AddInterval(out, interval);
      && Lines(now) == Lines(out) + [Line(Head(out[|out| - 1]), interval)]
      && |now| == |out| && Head(now[|now| - 1]) == Head(out[|out| - 1])
      && now[..|out| - 1] == out[..|out| - 1]
         && now[|out| - 1].series.intervals == out[|out| - 1].series.intervals + [interval]
  {
    var now := AddInterval(out, interval);
    var last := out[|out| - 1].series.intervals;
    assert now[..|now| - 1] == out[..|out| - 1];
    assert (last + [interval])[..|last|] == last;
    assert LinesOf(Head(out[|out| - 1]), last + [interval]) ==
           LinesOf(Head(out[|out| - 1]), last) + [Line(Head(out[|out| - 1]), interval)];
  }

  lemma NewSeriesAddsNoLine(out: seq<Stored>, head: Stored)
    requires head.series.intervals == []
    ensures Lines(out + [head]) == Lines(out) && Head(head) == head
  {
    assert (out + [head])[..|out|] == out;
  }

  lemma HeadsHaveNoValues(key: RunKey, fields: seq<Declared>, ctx: Context)
    requires |key.extra| == |fields| && DecodeHead(key, fields, ctx).Success?
    ensures DecodeHead(key, fields, ctx).value.series.intervals == []
  {
  }

  /** Every series has values, and one series ends where the delivery changes. */
  predicate Runs(out: seq<Stored>) {
    && (forall k :: 0 <= k < |out| ==> out[k].series.intervals != [])
    && (forall k :: 0 < k < |out| ==> Head(out[k - 1]) != Head(out[k]))
  }

  /** Rows whose delivery columns tell their deliveries apart. */
  predicate KeysAreFaithful(rows: seq<StoredRow>, fields: seq<Declared>, ctx: Context)
    requires Shaped(rows, fields)
  {
    forall i, j ::
      (0 <= i < |rows| && 0 <= j < |rows| && DecodeHead(KeyOf(rows[i]), fields, ctx).Success?
       && DecodeHead(KeyOf(rows[i]), fields, ctx) == DecodeHead(KeyOf(rows[j]), fields, ctx))
      ==> KeyOf(rows[i]) == KeyOf(rows[j])
  }

  /**
   Reading readable rows succeeds; the values come back in order, each with its own row's
   delivery, in maximal runs.
   */
  lemma {:induction false} ReadableRowsAreRead(rows: seq<StoredRow>, n: nat, fields: seq<Declared>, ctx: Context)
    requires n <= |rows| && Shaped(rows, fields)
    requires forall i :: 0 <= i < |rows| ==> Readable(rows[i], fields, ctx)
    ensures var r := DecodeUpTo(rows, n, fields, ctx);
      && r.Success?
      && Lines(r.value) == LinesOfRows(rows[..n], fields, ctx)
      && (n > 0 ==> Head(r.value[|r.value| - 1]) == DecodeHead(KeyOf(rows[n - 1]), fields, ctx).value)
      && (KeysAreFaithful(rows, fields, ctx) ==> Runs(r.value))
    decreases n
  {
    hide ReadRow, DecodeHead, DecodeInterval, LineOfRow, KeysAreFaithful;
    if n > 0 {
      ReadableRowsAreRead(rows, n - 1, fields, ctx);
      assert rows[..n][..n - 1] == rows[..n - 1];
      ReadRowAddsLine(DecodeUpTo(rows, n - 1, fields, ctx).value, rows, n - 1, fields, ctx);
    }
  }

  lemma ReadRowAddsLine(out: seq<Stored>, rows: seq<StoredRow>, i: nat, fields: seq<Declared>, ctx: Context)
    requires i < |rows| && Shaped(rows, fields) && Readable(rows[i], fields, ctx)
    requires i > 0 ==> out != [] && Readable(rows[i - 1], fields, ctx)
                       && Head(out[|out| - 1]) == DecodeHead(KeyOf(rows[i - 1]), fields, ctx).value
    requires i == 0 ==> out == []
    ensures var r := ReadRow(out, rows, i, fields, ctx);
      && r.Success?
      && Lines(r.value) == Lines(out) + [LineOfRow(rows[i], fields, ctx)]
      && Head(r.value[|r.value| - 1]) == DecodeHead(KeyOf(rows[i]), fields, ctx).value
      && (KeysAreFaithful(rows, fields, ctx) && Runs(out) ==> Runs(r.value))
  {
    hide DecodeHead, DecodeInterval, KeysAreFaithful, Runs, AddInterval;
    var head := DecodeHead(KeyOf(rows[i]), fields, ctx).value;
    var interval := DecodeInterval(rows[i], ctx).value;
    HeadsHaveNoValues(KeyOf(rows[i]), fields, ctx);
    NewSeriesAddsNoLine(out, head);
    var begun := if Starts(rows, i) then out + [head] else out;
    AddIntervalAddsLine(begun, interval);
    if KeysAreFaithful(rows, fields, ctx) && Runs(out) {
      if Starts(rows, i) {
        if i > 0 {
          FaithfulKeysDiffer(rows, i, fields, ctx);
        }
        NewRun(out, head, interval);
      } else {
        LongerRun(out, interval);
      }
    }
  }

  lemma FaithfulKeysDiffer(rows: seq<StoredRow>, i: nat, fields: seq<Declared>, ctx: Context)
    requires 0 < i < |rows| && Shaped(rows, fields) && KeysAreFaithful(rows, fields, ctx) && Starts(rows, i)
    requires DecodeHead(KeyOf(rows[i - 1]), fields, ctx).Success?
    ensures DecodeHead(KeyOf(rows[i - 1]), fields, ctx) != DecodeHead(KeyOf(rows[i]), fields, ctx)
  {
    hide DecodeHead;
  }

  lemma NewRun(out: seq<Stored>, head: Stored, interval: Interval)
    requires Runs(out) && head.series.intervals == [] && (out != [] ==> Head(out[|out| - 1]) != head)
    ensures Runs(AddInterval(out + [head], interval))
  {
    AddIntervalAddsLine(out + [head], interval);
    var now := AddInterval(out + [head], interval);
    assert forall k :: 0 <= k < |out| ==> now[..|out|][k] == out[k];
    assert forall k :: 0 <= k < |out| ==> now[k] == now[..|out|][k];
  }

  lemma LongerRun(out: seq<Stored>, interval: Interval)
    requires Runs(out) && out != []
    ensures Runs(AddInterval(out, interval))
  {
    AddIntervalAddsLine(out, interval);
    var now := AddInterval(out, interval);
    assert forall k :: 0 <= k < |out| - 1 ==> now[k] == now[..|out| - 1][k];
    assert forall k :: 0 <= k < |out| - 1 ==> out[k] == out[..|out| - 1][k];
  }

  // ---------------------------------------------------------------- what was written is what is read

  lemma {:induction false} WrittenRowsAreReadable(lines: seq<Line>, fields: seq<Declared>, ctx: Context)
    requires ctx.Lawful() && EncodeLines(lines, fields, ctx).Success?
    requires forall i :: 0 <= i < |lines| ==> WellTyped(lines[i].head, ctx) && WellTypedInterval(lines[i].interval, ctx)
    ensures var rows := EncodeLines(lines, fields, ctx).value;
      && (forall i :: 0 <= i < |rows| ==> Readable(rows[i], fields, ctx))
      && LinesOfRows(rows, fields, ctx) == KeptLines(lines, fields, ctx)
    decreases |lines|
  {
    hide EncodeLine, LineOfRow, KeptLine, Readable, WellTyped, WellTypedInterval;
    if lines != [] {
      var front, last := lines[..|lines| - 1], lines[|lines| - 1];
      assert forall i :: 0 <= i < |front| ==> front[i] == lines[i];
      WrittenRowsAreReadable(front, fields, ctx);
      RowReadsBack(last, fields, ctx);
      var rows := EncodeLines(lines, fields, ctx).value;
      assert rows[..|rows| - 1] == EncodeLines(front, fields, ctx).value;
    }
  }

  lemma {:induction false} LinesAreWellTyped(stored: seq<Stored>, ctx: Context)
    requires forall i :: 0 <= i < |stored| ==> WellTyped(stored[i], ctx)
    ensures forall i :: 0 <= i < |Lines(stored)| ==>
              WellTyped(Lines(stored)[i].head, ctx) && WellTypedInterval(Lines(stored)[i].interval, ctx)
    decreases |stored|
  {
    if stored != [] {
      LinesAreWellTyped(stored[..|stored| - 1], ctx);
      var last := stored[|stored| - 1];
      LinesOfAt(Head(last), last.series.intervals);
    }
  }

  lemma {:induction false} LinesOfAt(head: Stored, intervals: seq<Interval>)
    ensures |LinesOf(head, intervals)| == |intervals|
    ensures forall i :: 0 <= i < |intervals| ==> LinesOf(head, intervals)[i] == Line(head, intervals[i])
    decreases |intervals|
  {
    if intervals != [] {
      LinesOfAt(head, intervals[..|intervals| - 1]);
    }
  }

  // ---------------------------------------------------------------- writing again what was read

  predicate DistinctColumns(fields: seq<Declared>) {
    forall i, j :: 0 <= i < j < |fields| ==> fields[i].name != fields[j].name
  }

  lemma {:induction false} ExtraMapAt(fields: seq<Declared>, values: seq<Scalar>, i: nat)
    requires |fields| == |values| && DistinctColumns(fields) && i < |fields|
    ensures fields[i].name in ExtraMap(fields, values) && ExtraMap(fields, values)[fields[i].name] == values[i]
    decreases |fields|
  {
    if i < |fields| - 1 {
      ExtraMapAt(fields[..|fields| - 1], values[..|values| - 1], i);
    }
  }

  /** A column that was resolved once resolves to the same value again. */
  lemma ResolvedAgain(field: Declared, supplied: map<string, Scalar>, stored: map<string, Scalar>, ctx: Context)
    requires ctx.Lawful() && ResolveOne(field, supplied, ctx).Success?
    requires field.name in stored && stored[field.name] == ResolveOne(field, supplied, ctx).value
    ensures ResolveOne(field, stored, ctx) == ResolveOne(field, supplied, ctx)
  {
  }

  lemma {:induction false} AllResolvedAgain(fields: seq<Declared>, supplied: map<string, Scalar>,
                                            stored: map<string, Scalar>, ctx: Context)
    requires ctx.Lawful() && ResolveExtra(fields, supplied, ctx).Success?
    requires forall i :: 0 <= i < |fields| ==>
      fields[i].name in stored && stored[fields[i].name] == ResolveExtra(fields, supplied, ctx).value[i]
    ensures ResolveExtra(fields, stored, ctx) == ResolveExtra(fields, supplied, ctx)
    decreases |fields|
  {
    hide ResolveOne;
    if fields != [] {
      var front, last := fields[..|fields| - 1], fields[|fields| - 1];
      assert forall i :: 0 <= i < |front| ==> front[i] == fields[i];
      AllResolvedAgain(front, supplied, stored, ctx);
      ResolvedAgain(last, supplied, stored, ctx);
    }
  }

  lemma ExtraResolvesAgain(fields: seq<Declared>, supplied: map<string, Scalar>, ctx: Context)
    requires ctx.Lawful() && DistinctColumns(fields) && ResolveExtra(fields, supplied, ctx).Success?
    ensures var values := ResolveExtra(fields, supplied, ctx).value;
      ResolveExtra(fields, ExtraMap(fields, values), ctx) == Success(values)
  {
    var values := ResolveExtra(fields, supplied, ctx).value;
    forall i | 0 <= i < |fields|
      ensures fields[i].name in ExtraMap(fields, values) && ExtraMap(fields, values)[fields[i].name] == values[i]
    {
      ExtraMapAt(fields, values, i);
    }
    AllResolvedAgain(fields, supplied, ExtraMap(fields, values), ctx);
  }

  /** What every row of a kept delivery shares is what the rows of the delivery shared. */
  lemma KeptHeadSharesFields(d: Stored, obis: ObisCode, fields: seq<Declared>, ctx: Context)
    requires ctx.Lawful() && DistinctColumns(fields) && ResolveExtra(fields, d.extra, ctx).Success?
    requires EncodeSource(d.series.source, ctx).Success? && Watermark.Representable(d.recordedAt)
    ensures var values := ResolveExtra(fields, d.extra, ctx).value;
      var source := EncodeSource(d.series.source, ctx).value;
      var kept := KeptHead(d, obis, fields, values);
      && ResolveExtra(fields, kept.extra, ctx) == Success(values)
      && FieldsOf(kept, source, values, ctx) == FieldsOf(d, source, values, ctx)
  {
    ExtraResolvesAgain(fields, d.extra, ctx);
    InstantRoundTripIff(d.recordedAt);
  }

  /**
   The two ends of a span are still apart when fractions of a microsecond are dropped; an instant
   has no other end.
   */
  predicate EndsApart(interval: Interval) {
    interval.end.None? || Micros(interval.start) < Micros(interval.end.value)
  }

  /**
   Dropping the fraction of a microsecond loses nothing that writing looks at: the ends stay
   apart, and the start stays in its month and on its day.
   */
  predicate SurvivesTruncation(line: Line, ctx: Context) {
    && EndsApart(line.interval)
    && VersionScope.Covers(line.head.version.scope, Kept(line.interval.start), line.head.sparte, ctx.balancing)
    && ctx.balancingDay(Kept(line.interval.start), line.head.sparte)
       == ctx.balancingDay(line.interval.start, line.head.sparte)
  }

  /** A kept line is written as the row it was read from exactly when it survived truncation. */
  lemma KeptLineIsWrittenIff(line: Line, fields: seq<Declared>, ctx: Context)
    requires ctx.Lawful() && DistinctColumns(fields)
    requires WellTyped(line.head, ctx) && WellTypedInterval(line.interval, ctx)
             && EncodeLine(line, fields, ctx).Success?
    ensures EncodeLine(KeptLine(line, fields, ctx), fields, ctx) == EncodeLine(line, fields, ctx)
      <==> SurvivesTruncation(line, ctx)
  {
    hide VersionScope.Covers, FixedPoint.ToScaled, ResolveExtra, FieldsOf, EncodeSource, UnitFits, KeptHead, WellTyped;
    WrittenLine(line, fields, ctx);
    KeptHeadPasses(line, fields, ctx);
    var interval := line.interval;
    InstantRoundTripIff(interval.start);
    if interval.end.Some? {
      InstantRoundTripIff(interval.end.value);
      MicrosAreMonotone(interval.start, interval.end.value);
    }
    KeptValueIsTheSame(interval.value);
  }

  lemma KeptValueIsTheSame(value: FixedPoint.Decimal)
    requires FixedPoint.Valid(value) && FixedPoint.ToScaled(value).Success?
    ensures FixedPoint.ToScaled(FixedPoint.FromScaled(FixedPoint.ToScaled(value).value)) == FixedPoint.ToScaled(value)
  {
    var k := FixedPoint.ToScaled(value).value;
    FixedPoint.ToScaledIsExact(value, k);
    FixedPoint.ScaledRoundTrip(value, k);
  }

  /** The checks of the delivery pass again, and its rows share what they shared. */
  lemma KeptHeadPasses(line: Line, fields: seq<Declared>, ctx: Context)
    requires ctx.Lawful() && DistinctColumns(fields) && WellTyped(line.head, ctx)
             && EncodeLine(line, fields, ctx).Success?
    ensures var d, kept := line.head, KeptLine(line, fields, ctx).head;
      && ResolveExtra(fields, d.extra, ctx).Success? && EncodeSource(d.series.source, ctx).Success?
      && ObisFor(d, line.interval).Some? && UnitFits(kept.sparte, kept.unit, ctx)
      && kept.version == d.version && kept.sparte == d.sparte && kept.series.obis == ObisFor(d, line.interval)
      && EncodeSource(kept.series.source, ctx) == EncodeSource(d.series.source, ctx)
      && ResolveExtra(fields, kept.extra, ctx) == ResolveExtra(fields, d.extra, ctx)
      && FieldsOf(kept, EncodeSource(d.series.source, ctx).value, ResolveExtra(fields, d.extra, ctx).value, ctx)
           == FieldsOf(d, EncodeSource(d.series.source, ctx).value, ResolveExtra(fields, d.extra, ctx).value, ctx)
  {
    hide VersionScope.Covers, FixedPoint.ToScaled, FieldsOf, UnitFits;
    WrittenLine(line, fields, ctx);
    KeptHeadSharesFields(line.head, ObisFor(line.head, line.interval).value, fields, ctx);
    hide EncodeLine, ResolveExtra, EncodeSource;
  }

  lemma MicrosAreMonotone(a: int, b: int)
    requires a <= b
    ensures Micros(a) <= Micros(b)
  {
  }

  lemma {:induction false} KeptLinesAreWrittenIff(lines: seq<Line>, fields: seq<Declared>, ctx: Context)
    requires ctx.Lawful() && DistinctColumns(fields) && EncodeLines(lines, fields, ctx).Success?
    requires forall i :: 0 <= i < |lines| ==> WellTyped(lines[i].head, ctx) && WellTypedInterval(lines[i].interval, ctx)
    ensures EncodeLines(KeptLines(lines, fields, ctx), fields, ctx) == EncodeLines(lines, fields, ctx)
      <==> forall i :: 0 <= i < |lines| ==> SurvivesTruncation(lines[i], ctx)
    ensures |KeptLines(lines, fields, ctx)| == |lines|
    decreases |lines|
  {
    hide EncodeLine, KeptLine, WellTyped, WellTypedInterval, SurvivesTruncation;
    if lines != [] {
      var front, last := lines[..|lines| - 1], lines[|lines| - 1];
      assert forall i :: 0 <= i < |front| ==> front[i] == lines[i];
      KeptLinesAreWrittenIff(front, fields, ctx);
      KeptLineIsWrittenIff(last, fields, ctx);
      var kept := KeptLines(lines, fields, ctx);
      assert kept[..|kept| - 1] == KeptLines(front, fields, ctx);
      SameRowsOneByOne(EncodeLines(kept[..|kept| - 1], fields, ctx), EncodeLine(kept[|kept| - 1], fields, ctx),
                       EncodeLines(front, fields, ctx), EncodeLine(last, fields, ctx), kept, lines, fields, ctx);
    }
  }

  /** Two batches with one row more each are the same exactly if they were, and the rows are. */
  lemma SameRowsOneByOne(a: Result<seq<StoredRow>, Refusal>, x: Result<StoredRow, Refusal>,
                         b: Result<seq<StoredRow>, Refusal>, y: Result<StoredRow, Refusal>,
                         some: seq<Line>, others: seq<Line>, fields: seq<Declared>, ctx: Context)
    requires some != [] && a == EncodeLines(some[..|some| - 1], fields, ctx)
             && x == EncodeLine(some[|some| - 1], fields, ctx)
    requires others != [] && b == EncodeLines(others[..|others| - 1], fields, ctx)
             && y == EncodeLine(others[|others| - 1], fields, ctx)
    requires b.Success? && y.Success? && |some| == |others|
    ensures EncodeLines(some, fields, ctx) == EncodeLines(others, fields, ctx) <==> a == b && x == y
  {
    hide EncodeLine;
    assert EncodeLines(others, fields, ctx) == Success(b.value + [y.value]);
    if EncodeLines(some, fields, ctx) == EncodeLines(others, fields, ctx) {
      assert EncodeLines(some, fields, ctx) == Success(a.value + [x.value]);
      var rows := a.value + [x.value];
      assert rows[..|rows| - 1] == a.value && (b.value + [y.value])[..|b.value|] == b.value;
      assert rows[|rows| - 1] == x.value && (b.value + [y.value])[|b.value|] == y.value;
    }
  }

  /** The delivery columns that a delivery with this channel is written with. */
  function SpelledKey(head: Stored, fields: seq<Declared>, ctx: Context): Option<RunKey> {
    var source, resolved := EncodeSource(head.series.source, ctx), ResolveExtra(fields, head.extra, ctx);
    if source.Failure? || resolved.Failure? || head.series.obis.None? then None
    else Some(KeyOf(RowOf(FieldsOf(head, source.value, resolved.value, ctx), ctx.obis.spell(head.series.obis.value),
                          0, None, 0, "", 0)))
  }

  /** The delivery that is read from a written row is written with that row's columns. */
  lemma RowKeyIsSpelled(line: Line, fields: seq<Declared>, ctx: Context)
    requires ctx.Lawful() && DistinctColumns(fields) && WellTyped(line.head, ctx)
             && WellTypedInterval(line.interval, ctx)
    requires EncodeLine(line, fields, ctx).Success?
    ensures SpelledKey(KeptLine(line, fields, ctx).head, fields, ctx)
            == Some(KeyOf(EncodeLine(line, fields, ctx).value))
  {
    WrittenLine(line, fields, ctx);
    var obis := ObisFor(line.head, line.interval).value;
    KeptHeadSharesFields(line.head, obis, fields, ctx);
    hide EncodeLine, UnitFits, VersionScope.Covers, FixedPoint.ToScaled, ResolveExtra, EncodeSource, FieldsOf;
  }

  lemma {:induction false} WrittenKeysAreSpelled(lines: seq<Line>, fields: seq<Declared>, ctx: Context)
    requires ctx.Lawful() && DistinctColumns(fields) && EncodeLines(lines, fields, ctx).Success?
    requires forall i :: 0 <= i < |lines| ==> WellTyped(lines[i].head, ctx) && WellTypedInterval(lines[i].interval, ctx)
    ensures var rows := EncodeLines(lines, fields, ctx).value;
      && Shaped(rows, fields)
      && forall i :: 0 <= i < |rows| ==>
        && DecodeHead(KeyOf(rows[i]), fields, ctx).Success?
        && SpelledKey(DecodeHead(KeyOf(rows[i]), fields, ctx).value, fields, ctx) == Some(KeyOf(rows[i]))
    decreases |lines|
  {
    hide EncodeLine, KeptLine, WellTyped, WellTypedInterval, SpelledKey, DecodeHead;
    if lines != [] {
      var front, last := lines[..|lines| - 1], lines[|lines| - 1];
      assert forall i :: 0 <= i < |front| ==> front[i] == lines[i];
      WrittenKeysAreSpelled(front, fields, ctx);
      RowReadsBack(last, fields, ctx);
      RowKeyIsSpelled(last, fields, ctx);
    }
  }

  // ---------------------------------------------------------------- the round trip

  /**
   Reading a written batch succeeds and gives every value back once, in order, with its own
   delivery's source, audit trail, version, commodity, unit and extra columns and its own
   channel, cut into maximal runs.
   */
  lemma WrittenIsRead(stored: seq<Stored>, fields: seq<Declared>, ctx: Context)
    requires ctx.Lawful() && DistinctColumns(fields) && Encode(stored, fields, ctx).Success?
    requires forall i :: 0 <= i < |stored| ==> WellTyped(stored[i], ctx)
    ensures var rows := Encode(stored, fields, ctx).value;
      && Shaped(rows, fields)
      && EncodeLines(Lines(stored), fields, ctx) == Success(rows)
      && var out := DecodeUpTo(rows, |rows|, fields, ctx);
      && out.Success? && Runs(out.value)
      && Lines(out.value) == KeptLines(Lines(stored), fields, ctx)
  {
    var rows := Encode(stored, fields, ctx).value;
    BatchIsItsLines(stored, fields, ctx);
    LinesAreWellTyped(stored, ctx);
    WrittenRowsAreReadable(Lines(stored), fields, ctx);
    WrittenKeysAreSpelled(Lines(stored), fields, ctx);
    hide Encode, EncodeLines, Lines, DecodeUpTo, DecodeHead, SpelledKey, KeptLines, Readable, LinesOfRows;
    assert KeysAreFaithful(rows, fields, ctx);
    ReadableIsShaped(rows, fields, ctx);
    ReadableRowsAreRead(rows, |rows|, fields, ctx);
    assert rows[..|rows|] == rows;
  }

  lemma ReadableIsShaped(rows: seq<StoredRow>, fields: seq<Declared>, ctx: Context)
    requires forall i :: 0 <= i < |rows| ==> Readable(rows[i], fields, ctx)
    ensures Shaped(rows, fields)
  {
  }

  /**
   Writing what was read gives the identical batch, exactly when every value survived the
   dropped fraction of a microsecond: always, for instants on whole microseconds.
   */
  lemma ReadIsWrittenAgainIff(stored: seq<Stored>, fields: seq<Declared>, ctx: Context)
    requires ctx.Lawful() && DistinctColumns(fields) && Encode(stored, fields, ctx).Success?
    requires forall i :: 0 <= i < |stored| ==> WellTyped(stored[i], ctx)
    ensures var rows := Encode(stored, fields, ctx).value;
      Shaped(rows, fields) && DecodeUpTo(rows, |rows|, fields, ctx).Success?
    ensures var rows := Encode(stored, fields, ctx).value;
      Encode(DecodeUpTo(rows, |rows|, fields, ctx).value, fields, ctx) == Success(rows)
      <==> forall i :: 0 <= i < |Lines(stored)| ==> SurvivesTruncation(Lines(stored)[i], ctx)
  {
    hide Encode, EncodeLines, DecodeUpTo, KeptLines, SurvivesTruncation, WellTyped, WellTypedInterval, Lines, Runs,
        KeptLine;
    var rows := Encode(stored, fields, ctx).value;
    WrittenIsRead(stored, fields, ctx);
    LinesAreWellTyped(stored, ctx);
    KeptLinesAreWrittenIff(Lines(stored), fields, ctx);
    var out := DecodeUpTo(rows, |rows|, fields, ctx).value;
    RunsAreNotEmpty(out);
    if Encode(out, fields, ctx).Success? {
      BatchIsItsLines(out, fields, ctx);
    }
    if EncodeLines(Lines(out), fields, ctx).Success? {
      LinesAreTheBatch(out, fields, ctx);
    }
  }

  lemma RunsAreNotEmpty(out: seq<Stored>)
    requires Runs(out)
    ensures forall i :: 0 <= i < |out| ==> out[i].series.intervals != []
  {
  }

  /** Instants on whole microseconds always survive. */
  lemma WholeMicrosecondsSurvive(line: Line, fields: seq<Declared>, ctx: Context)
    requires WellTypedInterval(line.interval, ctx) && EncodeLine(line, fields, ctx).Success?
    requires line.interval.start % 1_000 == 0 && (line.interval.end.Some? ==> line.interval.end.value % 1_000 == 0)
    ensures SurvivesTruncation(line, ctx)
  {
    hide VersionScope.Covers, FixedPoint.ToScaled, ResolveExtra, FieldsOf, EncodeSource, UnitFits;
    WrittenLine(line, fields, ctx);
    InstantRoundTripIff(line.interval.start);
    if line.interval.end.Some? {
      InstantRoundTripIff(line.interval.end.value);
    }
  }

  // ---------------------------------------------------------------- what each column says

  /** A bare text is its own discriminant, and an object's is the name of its only field. */
  predicate TaggedBy(json: Json, kind: string) {
    json == Text(kind) || (json.Object? && |json.fields| == 1 && json.fields[0].0 == kind)
  }

  /** What every row of a delivery says about the delivery. */
  predicate StoresDelivery(row: StoredRow, d: Stored, ctx: Context) {
    && row.malo == ctx.malo.spell(d.series.malo)
    && row.melo == (match d.series.melo case None => None case Some(melo) => Some(ctx.melo.spell(melo)))
    && row.sparte == ctx.sparte.spell(d.sparte)
    && row.unit == ctx.unit.spell(d.unit)
    && row.resolution == (match d.series.resolution
                          case None => None
                          case Some(resolution) => Some(ctx.resolution.spell(resolution)))
    && row.sourceDetail == Some(ctx.spellJson(ctx.sourceJson(d.series.source)))
    && TaggedBy(ctx.sourceJson(d.series.source), row.sourceKind)
    && row.provenance == Some(ctx.provenance.spell(d.series.provenance))
    && row.version == d.version.version && row.versionScope == d.version.scope
    && row.recordedAt == Micros(d.recordedAt)
  }

  /** What it says about the one value. */
  predicate StoresValue(row: StoredRow, line: Line, ctx: Context) {
    var d, interval := line.head, line.interval;
    && row.start == Micros(interval.start)
    && (if ctx.points then row.end == None
        else interval.end.Some? && row.end == Some(Micros(interval.end.value)))
    && row.balancingDay == ctx.balancingDay(interval.start, d.sparte)
    && row.quality == ctx.quality.spell(interval.quality)
    && (if interval.obis.Some? then row.obis == ctx.obis.spell(interval.obis.value)
        else d.series.obis.Some? && row.obis == ctx.obis.spell(d.series.obis.value))
    && FixedPoint.ToScaled(interval.value) == Success(row.value)
  }

  /** A declared column holds the canonical form of what was supplied for it, or of null. */
  predicate StoresExtra(extra: seq<Scalar>, d: Stored, fields: seq<Declared>, ctx: Context) {
    && |extra| == |fields|
    && forall i :: 0 <= i < |fields| ==> ctx.canonical(fields[i], Supplied(d, fields[i])) == Some(extra[i])
  }

  predicate Stores(row: StoredRow, line: Line, fields: seq<Declared>, ctx: Context) {
    && StoresDelivery(row, line.head, ctx) && StoresValue(row, line, ctx)
    && StoresExtra(row.extra, line.head, fields, ctx)
  }

  lemma {:induction false} ResolvedIsCanonical(fields: seq<Declared>, d: Stored, ctx: Context)
    requires ResolveExtra(fields, d.extra, ctx).Success?
    ensures StoresExtra(ResolveExtra(fields, d.extra, ctx).value, d, fields, ctx)
    decreases |fields|
  {
    if fields != [] {
      var front := fields[..|fields| - 1];
      ResolvedIsCanonical(front, d, ctx);
      var all := ResolveExtra(fields, d.extra, ctx).value;
      forall i | 0 <= i < |fields|
        ensures ctx.canonical(fields[i], Supplied(d, fields[i])) == Some(all[i])
      {
        if i < |front| {
          assert front[i] == fields[i];
        }
      }
    }
  }

  lemma WrittenLineStores(line: Line, fields: seq<Declared>, ctx: Context)
    requires EncodeLine(line, fields, ctx).Success?
    ensures Stores(EncodeLine(line, fields, ctx).value, line, fields, ctx)
  {
    hide VersionScope.Covers, FixedPoint.ToScaled, ResolveExtra, StoresExtra;
    WrittenLine(line, fields, ctx);
    ResolvedIsCanonical(fields, line.head, ctx);
    SourceIsTagged(line.head.series.source, ctx);
  }

  lemma SourceIsTagged(source: Source, ctx: Context)
    requires EncodeSource(source, ctx).Success?
    ensures var (kind, detail) := EncodeSource(source, ctx).value;
      && detail == ctx.spellJson(ctx.sourceJson(source))
      && TaggedBy(ctx.sourceJson(source), kind)
  {
  }

  lemma {:induction false} WrittenLinesStore(lines: seq<Line>, fields: seq<Declared>, ctx: Context, k: nat)
    requires EncodeLines(lines, fields, ctx).Success? && k < |lines|
    ensures Stores(EncodeLines(lines, fields, ctx).value[k], lines[k], fields, ctx)
    decreases |lines|
  {
    hide Stores, EncodeLine;
    var front := lines[..|lines| - 1];
    if k < |front| {
      WrittenLinesStore(front, fields, ctx, k);
      assert front[k] == lines[k];
    } else {
      WrittenLineStores(lines[k], fields, ctx);
    }
  }

  /** Every column of every row of a written batch, by what was delivered; one row for each value, in order. */
  lemma EveryColumnIsStored(stored: seq<Stored>, fields: seq<Declared>, ctx: Context)
    requires Encode(stored, fields, ctx).Success?
    ensures var rows := Encode(stored, fields, ctx).value;
      |rows| == |Lines(stored)| && forall k :: 0 <= k < |rows| ==> Stores(rows[k], Lines(stored)[k], fields, ctx)
  {
    hide Stores, Encode;
    var rows := Encode(stored, fields, ctx).value;
    BatchIsItsLines(stored, fields, ctx);
    forall k | 0 <= k < |rows|
      ensures Stores(rows[k], Lines(stored)[k], fields, ctx)
    {
      WrittenLinesStore(Lines(stored), fields, ctx, k);
    }
  }

  /** The lines of a batch are its values in order, each with its own delivery. */
  lemma {:induction false} LineOf(stored: seq<Stored>, i: nat, j: nat) returns (k: nat)
    requires i < |stored| && j < |stored[i].series.intervals|
    ensures k == ValuesBefore(stored, i) + j < |Lines(stored)|
    ensures Lines(stored)[k] == Line(Head(stored[i]), stored[i].series.intervals[j])
    decreases |stored|
  {
    var front, last := stored[..|stored| - 1], stored[|stored| - 1];
    LinesCount(front);
    LinesOfAre(Head(last), last.series.intervals);
    k := ValuesBefore(stored, i) + j;
    SameBefore(front, stored, i);
    if i < |front| {
      var _ := LineOf(front, i, j);
    }
  }

  /** How many values the deliveries before the `i`-th have. */
  function ValuesBefore(stored: seq<Stored>, i: nat): nat
    requires i <= |stored|
  {
    if i == 0 then 0 else ValuesBefore(stored, i - 1) + |stored[i - 1].series.intervals|
  }

  lemma {:induction false} LinesCount(stored: seq<Stored>)
    ensures |Lines(stored)| == ValuesBefore(stored, |stored|)
    decreases |stored|
  {
    if stored != [] {
      var front, last := stored[..|stored| - 1], stored[|stored| - 1];
      LinesCount(front);
      LinesOfAre(Head(last), last.series.intervals);
      SameBefore(front, stored, |front|);
    }
  }

  lemma {:induction false} SameBefore(a: seq<Stored>, b: seq<Stored>, i: nat)
    requires i <= |a| && i <= |b| && a[..i] == b[..i]
    ensures ValuesBefore(a, i) == ValuesBefore(b, i)
    decreases i
  {
    if i > 0 {
      assert a[i - 1] == a[..i][i - 1] == b[..i][i - 1] == b[i - 1];
      assert a[..i - 1] == a[..i][..i - 1] && b[..i - 1] == b[..i][..i - 1];
      SameBefore(a, b, i - 1);
    }
  }

  lemma {:induction false} LinesOfAre(head: Stored, intervals: seq<Interval>)
    ensures |LinesOf(head, intervals)| == |intervals|
    ensures forall j :: 0 <= j < |intervals| ==> LinesOf(head, intervals)[j] == Line(head, intervals[j])
    decreases |intervals|
  {
    if intervals != [] {
      var front := intervals[..|intervals| - 1];
      LinesOfAre(head, front);
      assert forall j :: 0 <= j < |front| ==> front[j] == intervals[j];
    }
  }

  // ---------------------------------------------------------------- what is refused

  /**
   A value that can be stored: in its delivery's scope, its ends in order, with a channel, and a
   whole number of millionths.
   */
  ghost predicate Writable(d: Stored, interval: Interval, ctx: Context) {
    && VersionScope.Covers(d.version.scope, interval.start, d.sparte, ctx.balancing)
    && (!ctx.points ==> interval.end.Some? && interval.start < interval.end.value)
    && (interval.obis.Some? || d.series.obis.Some?)
    && exists k :: FixedPoint.IsMultiple(interval.value, k) && -FixedPoint.LIMIT < k < FixedPoint.LIMIT
  }

  /** What a delivery says for a declared column, null where it says nothing. */
  function Supplied(d: Stored, field: Declared): Scalar {
    if field.name in d.extra then d.extra[field.name] else Scalar(field.dataType, None)
  }

  /** It says something of the column's type that has a canonical form, and null only where the column allows it. */
  predicate Declares(d: Stored, field: Declared, ctx: Context) {
    && Supplied(d, field).dataType == field.dataType
    && (Supplied(d, field).content.Some? || field.nullable)
    && ctx.canonical(field, Supplied(d, field)).Some?
  }

  /** A delivery that can be stored. One without values needs no extra columns. */
  ghost predicate DeliveryIsWritable(d: Stored, fields: seq<Declared>, ctx: Context) {
    && (d.unit == ctx.measuredUnit(d.sparte) || d.unit == ctx.billingUnit(d.sparte))
    && (exists kind :: TaggedBy(ctx.sourceJson(d.series.source), kind))
    && (d.series.intervals != [] ==> forall i :: 0 <= i < |fields| ==> Declares(d, fields[i], ctx))
    && forall i :: 0 <= i < |d.series.intervals| ==> Writable(d, d.series.intervals[i], ctx)
  }

  lemma TaggedIff(json: Json)
    ensures KindOf(json).Some? <==> exists kind :: TaggedBy(json, kind)
  {
    if json.Text? {
      assert TaggedBy(json, json.tag);
    } else if json.Object? && |json.fields| == 1 {
      assert TaggedBy(json, json.fields[0].0);
    }
  }

  lemma IntervalIsWrittenIff(d: Stored, shared: SeriesFields, interval: Interval, ctx: Context)
    requires WellTypedInterval(interval, ctx)
    ensures EncodeInterval(d, shared, interval, ctx).Success? <==> Writable(d, interval, ctx)
  {
    var scaled := FixedPoint.ToScaled(interval.value);
    if scaled.Success? {
      FixedPoint.ToScaledIsExact(interval.value, scaled.value);
    } else if k :| FixedPoint.IsMultiple(interval.value, k) && -FixedPoint.LIMIT < k < FixedPoint.LIMIT {
      FixedPoint.ToScaledIsExact(interval.value, k);
    }
    hide VersionScope.Covers, FixedPoint.ToScaled, FixedPoint.IsMultiple;
  }

  lemma {:induction false} IntervalsAreWrittenIff(d: Stored, shared: SeriesFields, intervals: seq<Interval>,
                                                  ctx: Context)
    requires forall i :: 0 <= i < |intervals| ==> WellTypedInterval(intervals[i], ctx)
    ensures EncodeIntervals(d, shared, intervals, ctx).Success?
            <==> forall i :: 0 <= i < |intervals| ==> Writable(d, intervals[i], ctx)
    decreases |intervals|
  {
    hide EncodeInterval, Writable, WellTypedInterval;
    if intervals != [] {
      var front := intervals[..|intervals| - 1];
      assert forall i :: 0 <= i < |front| ==> front[i] == intervals[i];
      IntervalsAreWrittenIff(d, shared, front, ctx);
      IntervalIsWrittenIff(d, shared, intervals[|intervals| - 1], ctx);
    }
  }

  lemma {:induction false} ExtraResolvesIff(fields: seq<Declared>, d: Stored, ctx: Context)
    ensures ResolveExtra(fields, d.extra, ctx).Success?
            <==> forall i :: 0 <= i < |fields| ==> Declares(d, fields[i], ctx)
    decreases |fields|
  {
    hide ResolveOne;
    if fields != [] {
      var front := fields[..|fields| - 1];
      assert forall i :: 0 <= i < |front| ==> front[i] == fields[i];
      ExtraResolvesIff(front, d, ctx);
      ExtraRefusedIff(d, fields[|fields| - 1], ctx);
    }
  }

  lemma DeliveryIsWrittenIff(d: Stored, fields: seq<Declared>, ctx: Context)
    requires WellTyped(d, ctx)
    ensures EncodeDelivery(d, fields, ctx).Success? <==> DeliveryIsWritable(d, fields, ctx)
  {
    ExtraResolvesIff(fields, d, ctx);
    TaggedIff(ctx.sourceJson(d.series.source));
    var source, resolved := EncodeSource(d.series.source, ctx), ResolveExtra(fields, d.extra, ctx);
    if source.Success? && resolved.Success? {
      IntervalsAreWrittenIff(d, FieldsOf(d, source.value, resolved.value, ctx), d.series.intervals, ctx);
    }
    hide ResolveExtra, EncodeIntervals, Writable, Declares, FieldsOf, UnitFits;
  }

  /** A batch is written exactly when every delivery in it can be; one that cannot refuses the whole batch. */
  lemma {:induction false} BatchIsWrittenIff(stored: seq<Stored>, fields: seq<Declared>, ctx: Context)
    requires forall i :: 0 <= i < |stored| ==> WellTyped(stored[i], ctx)
    ensures Encode(stored, fields, ctx).Success?
            <==> forall i :: 0 <= i < |stored| ==> DeliveryIsWritable(stored[i], fields, ctx)
    decreases |stored|
  {
    hide EncodeDelivery, DeliveryIsWritable, WellTyped;
    if stored != [] {
      var front := stored[..|stored| - 1];
      assert forall i :: 0 <= i < |front| ==> front[i] == stored[i];
      BatchIsWrittenIff(front, fields, ctx);
      DeliveryIsWrittenIff(stored[|stored| - 1], fields, ctx);
    }
  }

  /**
   A batch of the other kind of table is refused at its first row: a register reading is no
   interval, nor an interval a reading.
   */
  lemma {:induction false} OtherTableIsRefused(rows: seq<StoredRow>, n: nat, fields: seq<Declared>, ctx: Context)
    requires 0 < n <= |rows| && Shaped(rows, fields) && rows[0].end.Some? == ctx.points
    ensures DecodeUpTo(rows, n, fields, ctx).Failure?
    ensures ctx.points ==> DecodeUpTo(rows, n, fields, ctx) == Failure(SpanRow)
    ensures !ctx.points && DecodeHead(KeyOf(rows[0]), fields, ctx).Success? ==>
              DecodeUpTo(rows, n, fields, ctx) == Failure(PointRow)
    decreases n
  {
    if n > 1 {
      OtherTableIsRefused(rows, n - 1, fields, ctx);
    } else {
      assert DecodeUpTo(rows, 0, fields, ctx) == Success([]);
      hide DecodeHead;
    }
  }

  // ---------------------------------------------------------------- which refusal, when writing

  predicate ExtraRefusedFor(d: Stored, field: Declared, ctx: Context, why: Refusal) {
    match why
    case MissingExtra => field.name !in d.extra && !field.nullable
    case WrongExtraType => Supplied(d, field).dataType != field.dataType
    case NullExtra =>
      && field.name in d.extra && Supplied(d, field).dataType == field.dataType
      && Supplied(d, field).content.None? && !field.nullable
    case BadExtra =>
      && Supplied(d, field).dataType == field.dataType && (Supplied(d, field).content.Some? || field.nullable)
      && ctx.canonical(field, Supplied(d, field)).None?
    case _ => false
  }

  lemma ExtraRefusedIff(d: Stored, field: Declared, ctx: Context)
    ensures forall why :: ResolveOne(field, d.extra, ctx) == Failure(why) <==> ExtraRefusedFor(d, field, ctx, why)
    ensures ResolveOne(field, d.extra, ctx).Success? <==> Declares(d, field, ctx)
  {
  }

  ghost predicate IntervalRefusedFor(d: Stored, interval: Interval, ctx: Context, why: Refusal) {
    var covered := VersionScope.Covers(d.version.scope, interval.start, d.sparte, ctx.balancing);
    var ordered := !ctx.points ==> interval.end.Some? && interval.start < interval.end.value;
    var channel := interval.obis.Some? || d.series.obis.Some?;
    match why
    case OutOfScope => !covered
    case EmptyInterval => covered && !ordered
    case NoChannel => covered && ordered && !channel
    case BadValue =>
      && covered && ordered && channel
      && !exists k :: FixedPoint.IsMultiple(interval.value, k) && -FixedPoint.LIMIT < k < FixedPoint.LIMIT
    case _ => false
  }

  lemma IntervalRefusedIff(d: Stored, shared: SeriesFields, interval: Interval, ctx: Context)
    requires WellTypedInterval(interval, ctx)
    ensures forall why :: EncodeInterval(d, shared, interval, ctx) == Failure(why)
                     <==> IntervalRefusedFor(d, interval, ctx, why)
  {
    IntervalIsWrittenIff(d, shared, interval, ctx);
    hide VersionScope.Covers, FixedPoint.IsMultiple, FixedPoint.ToScaled;
    ValueIsStorableIff(interval.value);
  }

  lemma ValueIsStorableIff(value: FixedPoint.Decimal)
    requires FixedPoint.Valid(value)
    ensures FixedPoint.ToScaled(value).Success?
      <==> exists k :: FixedPoint.IsMultiple(value, k) && -FixedPoint.LIMIT < k < FixedPoint.LIMIT
  {
    if FixedPoint.ToScaled(value).Success? {
      FixedPoint.ToScaledIsExact(value, FixedPoint.ToScaled(value).value);
    } else if k :| FixedPoint.IsMultiple(value, k) && -FixedPoint.LIMIT < k < FixedPoint.LIMIT {
      FixedPoint.ToScaledIsExact(value, k);
    }
  }

  /** The first column that cannot be had, and why not. */
  predicate ExtrasRefusedFor(d: Stored, fields: seq<Declared>, ctx: Context, why: Refusal) {
    exists i :: 0 <= i < |fields| && ExtraRefusedFor(d, fields[i], ctx, why)
                && forall k :: 0 <= k < i ==> Declares(d, fields[k], ctx)
  }

  lemma {:induction false} ExtrasRefusedIff(d: Stored, fields: seq<Declared>, ctx: Context, why: Refusal)
    ensures ResolveExtra(fields, d.extra, ctx) == Failure(why) <==> ExtrasRefusedFor(d, fields, ctx, why)
    decreases |fields|
  {
    hide ResolveOne, ExtraRefusedFor, Declares;
    if fields != [] {
      var front, last := fields[..|fields| - 1], fields[|fields| - 1];
      assert forall k :: 0 <= k < |front| ==> front[k] == fields[k];
      ExtrasRefusedIff(d, front, ctx, why);
      ExtraRefusedIff(d, last, ctx);
      ExtraResolvesIff(front, d, ctx);
      ExtraIsOneOrTheOther(d, fields, ctx, why);
      if ResolveExtra(front, d.extra, ctx).Success? && ExtraRefusedFor(d, last, ctx, why) {
        assert fields[|front|] == last;
      }
    }
  }

  lemma ExtraIsOneOrTheOther(d: Stored, fields: seq<Declared>, ctx: Context, why: Refusal)
    ensures forall k :: 0 <= k < |fields| ==> !(Declares(d, fields[k], ctx) && ExtraRefusedFor(d, fields[k], ctx, why))
  {
  }

  /** The first value that cannot be stored, and why not. */
  ghost predicate IntervalsRefusedFor(d: Stored, intervals: seq<Interval>, ctx: Context, why: Refusal) {
    exists j :: 0 <= j < |intervals| && IntervalRefusedFor(d, intervals[j], ctx, why)
                && forall k :: 0 <= k < j ==> Writable(d, intervals[k], ctx)
  }

  lemma {:induction false} IntervalsRefusedIff(d: Stored, shared: SeriesFields, intervals: seq<Interval>, ctx: Context,
                                               why: Refusal)
    requires forall i :: 0 <= i < |intervals| ==> WellTypedInterval(intervals[i], ctx)
    ensures EncodeIntervals(d, shared, intervals, ctx) == Failure(why) <==> IntervalsRefusedFor(d, intervals, ctx, why)
    decreases |intervals|
  {
    hide EncodeInterval, IntervalRefusedFor, Writable, WellTypedInterval;
    if intervals != [] {
      var front, last := intervals[..|intervals| - 1], intervals[|intervals| - 1];
      assert forall k :: 0 <= k < |front| ==> front[k] == intervals[k];
      IntervalsRefusedIff(d, shared, front, ctx, why);
      IntervalRefusedIff(d, shared, last, ctx);
      IntervalsAreWrittenIff(d, shared, front, ctx);
      forall k | 0 <= k < |intervals|
        ensures !(Writable(d, intervals[k], ctx) && IntervalRefusedFor(d, intervals[k], ctx, why))
      {
        IntervalIsWrittenIff(d, shared, intervals[k], ctx);
        IntervalRefusedIff(d, shared, intervals[k], ctx);
      }
      if EncodeIntervals(d, shared, front, ctx).Success? && IntervalRefusedFor(d, last, ctx, why) {
        assert intervals[|front|] == last;
      }
    }
  }

  /** What is wrong with a delivery, in the order in which it is found. */
  ghost predicate DeliveryRefusedFor(d: Stored, fields: seq<Declared>, ctx: Context, why: Refusal) {
    var fits := d.unit == ctx.measuredUnit(d.sparte) || d.unit == ctx.billingUnit(d.sparte);
    var tagged := exists kind :: TaggedBy(ctx.sourceJson(d.series.source), kind);
    if !fits then why == WrongUnit
    else if !tagged then why == UntaggedSource
    else if d.series.intervals == [] then false
    else if exists other :: ExtrasRefusedFor(d, fields, ctx, other) then ExtrasRefusedFor(d, fields, ctx, why)
    else IntervalsRefusedFor(d, d.series.intervals, ctx, why)
  }

  lemma DeliveryRefusedIff(d: Stored, fields: seq<Declared>, ctx: Context, why: Refusal)
    requires WellTyped(d, ctx)
    ensures EncodeDelivery(d, fields, ctx) == Failure(why) <==> DeliveryRefusedFor(d, fields, ctx, why)
  {
    hide ResolveExtra, EncodeIntervals, ExtrasRefusedFor, IntervalsRefusedFor, FieldsOf;
    TaggedIff(ctx.sourceJson(d.series.source));
    forall other
      ensures ResolveExtra(fields, d.extra, ctx) == Failure(other) <==> ExtrasRefusedFor(d, fields, ctx, other)
    {
      ExtrasRefusedIff(d, fields, ctx, other);
    }
    var source, resolved := EncodeSource(d.series.source, ctx), ResolveExtra(fields, d.extra, ctx);
    if source.Success? && resolved.Success? {
      IntervalsRefusedIff(d, FieldsOf(d, source.value, resolved.value, ctx), d.series.intervals, ctx, why);
    }
    assert resolved.Failure? ==> ExtrasRefusedFor(d, fields, ctx, resolved.error);
  }

  /** A batch is refused for what is wrong with the first delivery that cannot be stored. */
  lemma {:induction false} BatchIsRefusedFor(stored: seq<Stored>, fields: seq<Declared>, ctx: Context, why: Refusal)
    requires forall i :: 0 <= i < |stored| ==> WellTyped(stored[i], ctx)
    ensures Encode(stored, fields, ctx) == Failure(why)
      <==> exists i :: 0 <= i < |stored| && DeliveryRefusedFor(stored[i], fields, ctx, why)
                       && forall k :: 0 <= k < i ==> DeliveryIsWritable(stored[k], fields, ctx)
    decreases |stored|
  {
    hide EncodeDelivery, DeliveryIsWritable, DeliveryRefusedFor, WellTyped;
    if stored != [] {
      var front, last := stored[..|stored| - 1], stored[|stored| - 1];
      assert forall k :: 0 <= k < |front| ==> front[k] == stored[k];
      BatchIsRefusedFor(front, fields, ctx, why);
      BatchIsWrittenIff(front, fields, ctx);
      forall k | 0 <= k < |stored|
        ensures !(DeliveryIsWritable(stored[k], fields, ctx) && DeliveryRefusedFor(stored[k], fields, ctx, why))
      {
        DeliveryIsWrittenIff(stored[k], fields, ctx);
        DeliveryRefusedIff(stored[k], fields, ctx, why);
      }
      DeliveryRefusedIff(last, fields, ctx, why);
      if Encode(front, fields, ctx).Success? && DeliveryRefusedFor(last, fields, ctx, why) {
        assert stored[|front|] == last;
      }
    }
  }

  // ---------------------------------------------------------------- which refusal, when reading

  /** A text that is read, and is spelled as that is spelled. */
  predicate Canonical<T(!new)>(codec: Codec<T>, text: string) {
    codec.read(text).Some? && codec.spell(codec.read(text).value) == text
  }

  predicate SourceIsReadable(key: RunKey, ctx: Context) {
    && key.sourceDetail.Some? && ctx.readSource(key.sourceDetail.value).Some?
    && TaggedBy(ctx.sourceJson(ctx.readSource(key.sourceDetail.value).value), key.sourceKind)
  }

  /** The texts of a key; identifiers and provenance need not be spelled as they would be written. */
  predicate CodesAreReadable(key: RunKey, ctx: Context) {
    && Canonical(ctx.sparte, key.sparte) && Canonical(ctx.unit, key.unit) && Canonical(ctx.obis, key.obis)
    && (key.resolution.Some? ==> Canonical(ctx.resolution, key.resolution.value))
    && ctx.malo.read(key.malo).Some? && (key.melo.Some? ==> ctx.melo.read(key.melo.value).Some?)
    && (key.provenance.Some? ==> ctx.provenance.read(key.provenance.value).Some?)
  }

  predicate UnitIsReadable(key: RunKey, ctx: Context)
    requires CodesAreReadable(key, ctx)
  {
    var sparte, unit := ctx.sparte.read(key.sparte).value, ctx.unit.read(key.unit).value;
    unit == ctx.measuredUnit(sparte) || unit == ctx.billingUnit(sparte)
  }

  predicate VersionIsReadable(key: RunKey) {
    VersionScope.Parse(key.versionScope).Success? && 0 <= key.version < 100_000_000_000_000_000_000
  }

  /** When the head of a run is read, and as what. */
  lemma HeadIsReadIff(key: RunKey, fields: seq<Declared>, ctx: Context)
    requires |key.extra| == |fields|
    ensures DecodeHead(key, fields, ctx).Success?
      <==> && SourceIsReadable(key, ctx) && CodesAreReadable(key, ctx) && UnitIsReadable(key, ctx)
           && VersionIsReadable(key) && Watermark.Representable(key.recordedAt * 1_000)
    ensures DecodeHead(key, fields, ctx).Success? ==>
              var d := DecodeHead(key, fields, ctx).value;
              && Some(d.series.malo) == ctx.malo.read(key.malo)
              && d.series.melo == (if key.melo.None? then None else ctx.melo.read(key.melo.value))
              && d.series.obis == ctx.obis.read(key.obis)
              && d.series.resolution == (if key.resolution.None? then None
                                         else ctx.resolution.read(key.resolution.value))
              && Some(d.series.source) == ctx.readSource(key.sourceDetail.value)
              && (if key.provenance.None? then d.series.provenance == Provenance([])
                  else Some(d.series.provenance) == ctx.provenance.read(key.provenance.value))
              && Some(d.sparte) == ctx.sparte.read(key.sparte) && Some(d.unit) == ctx.unit.read(key.unit)
              && d.version == ScopedVersion(key.versionScope, key.version)
              && d.recordedAt == key.recordedAt * 1_000 && d.series.intervals == []
  {
    hide VersionScope.Parse, ExtraMap;
  }

  /** What the refusal of a head names is wrong with it. */
  lemma HeadIsRefusedFor(key: RunKey, fields: seq<Declared>, ctx: Context)
    requires |key.extra| == |fields| && DecodeHead(key, fields, ctx).Failure?
    ensures match DecodeHead(key, fields, ctx).error
      case SourceDisagrees =>
        key.sourceDetail.Some? && ctx.readSource(key.sourceDetail.value).Some? && !SourceIsReadable(key, ctx)
      case UntaggedSource =>
        && key.sourceDetail.Some? && ctx.readSource(key.sourceDetail.value).Some?
        && forall kind :: !TaggedBy(ctx.sourceJson(ctx.readSource(key.sourceDetail.value).value), kind)
      case BadCode =>
        || !CodesAreReadable(key, ctx)
        || key.sourceDetail.None? || ctx.readSource(key.sourceDetail.value).None?
      case WrongUnit =>
        && Canonical(ctx.sparte, key.sparte) && Canonical(ctx.unit, key.unit)
        && var sparte, unit := ctx.sparte.read(key.sparte).value, ctx.unit.read(key.unit).value;
           unit != ctx.measuredUnit(sparte) && unit != ctx.billingUnit(sparte)
      case BadVersion => SourceIsReadable(key, ctx) && CodesAreReadable(key, ctx) && !VersionIsReadable(key)
      case BadInstant => VersionIsReadable(key) && !Watermark.Representable(key.recordedAt * 1_000)
      case _ => false
  {
    hide VersionScope.Parse, ExtraMap;
  }

  /** When the value of a row is read, as what, and what a refusal means. */
  lemma ValueIsReadIff(row: StoredRow, ctx: Context)
    ensures var readable :=
        && Watermark.Representable(row.start * 1_000)
        && (row.end.Some? ==> Watermark.Representable(row.end.value * 1_000));
      match DecodeInterval(row, ctx)
      case Success(interval) =>
        && (ctx.points || row.end.Some?) && readable
        && Canonical(ctx.quality, row.quality) && Canonical(ctx.obis, row.obis)
        && interval.start == row.start * 1_000
        && interval.end == (if row.end.None? then None else Some(row.end.value * 1_000))
        && interval.value == FixedPoint.Decimal(row.value, 6)
        && Some(interval.quality) == ctx.quality.read(row.quality) && interval.obis == ctx.obis.read(row.obis)
      case Failure(PointRow) => !ctx.points && row.end.None?
      case Failure(BadInstant) => (ctx.points || row.end.Some?) && !readable
      case Failure(BadCode) =>
        && (ctx.points || row.end.Some?) && readable
        && !(Canonical(ctx.quality, row.quality) && Canonical(ctx.obis, row.obis))
      case Failure(_) => false
  {
  }
}
