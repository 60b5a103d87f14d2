/**
 The tiering watermark and the archival grid.

 Instants and durations are signed nanoseconds, measured from the Unix epoch.
 */
module Watermark {
  import opened Arithmetic
  import opened Results

  const NANOS_PER_SECOND := 1_000_000_000

  // The seconds an instant without the `large-dates` range can hold.
  const MIN_UNIX_SECONDS := -377_705_116_800
  const MAX_UNIX_SECONDS := 253_402_300_799

  predicate Representable(at: int) {
    MIN_UNIX_SECONDS * NANOS_PER_SECOND <= at < (MAX_UNIX_SECONDS + 1) * NANOS_PER_SECOND
  }

  datatype Error =
    | NonPositiveStep
    | NegativeLag
    | Misaligned
    | OutOfRange
    | EmptyWindow
    | MovesBackwards

  // ---------------------------------------------------------------- the boundary

  datatype Tier = Cold | Hot

  /** The routing rule: everything before the boundary is cold. */
  function TierFor(boundary: int, from: int): Tier {
    if from < boundary then Cold else Hot
  }

  predicate CanAdvanceTo(current: int, next: int) {
    next >= current
  }

  function AdvanceTo(current: int, next: int): Result<int, Error> {
    if CanAdvanceTo(current, next) then Success(next) else Failure(MovesBackwards)
  }

  // ---------------------------------------------------------------- windows

  /** A half-open archival window `[from, to)`. */
  datatype Window = Window(from: int, to: int) {
    predicate Contains(at: int) {
      from <= at < to
    }
  }

  function NewWindow(from: int, to: int): Result<Window, Error> {
    if to <= from then Failure(EmptyWindow) else Success(Window(from, to))
  }

  /** Seconds since the epoch, rounded towards the past. */
  function UnixSeconds(at: int): int {
    at / NANOS_PER_SECOND
  }

  /** A duration's whole seconds, rounded towards zero. */
  function WholeSeconds(d: int): int {
    if d >= 0 then d / NANOS_PER_SECOND else -((-d) / NANOS_PER_SECOND)
  }

  /** The spacing `AlignToStep` really uses: whole seconds, and never less than one. */
  function StepSeconds(step: int): (s: int)
    ensures s >= 1
  {
    if WholeSeconds(step) >= 1 then WholeSeconds(step) else 1
  }

  function AlignToStep(at: int, step: int): Result<int, Error> {
    var secs := UnixSeconds(at);
    var aligned := secs - secs % StepSeconds(step);
    if MIN_UNIX_SECONDS <= aligned <= MAX_UNIX_SECONDS
    then Success(aligned * NANOS_PER_SECOND)
    else Failure(OutOfRange)
  }

  /**
   The next window to archive, or `None` while the horizon is within one step of
   the boundary. An instant leaving the representable range stops the computation
   as `OutOfRange`, in the order the arithmetic is done.
   */
  function NextWindow(boundary: int, now: int, lag: int, step: int): Result<Option<Window>, Error> {
    if step <= 0 then Failure(NonPositiveStep)
    else if lag < 0 then Failure(NegativeLag)
    else
      match AlignToStep(boundary, step)
      case Failure(e) => Failure(e)
      case Success(aligned) =>
        if aligned != boundary then Failure(Misaligned)
        else if !Representable(now - lag) || !Representable(boundary + step) then Failure(OutOfRange)
        else if boundary + step > now - lag then Success(None)
        else
          match NewWindow(boundary, boundary + step)
          case Failure(e) => Failure(e)
          case Success(w) => Success(Some(w))
  }

  // ---------------------------------------------------------------- the grid

  /** A step the deployment may archive on: a positive number of whole seconds. */
  predicate WholeStep(step: int) {
    step > 0 && step % NANOS_PER_SECOND == 0
  }

  /** The points partitions start on. */
  predicate OnGrid(at: int, step: int)
    requires step > 0
  {
    at % step == 0
  }

  /** Aligning rounds down onto the grid, also before the epoch. */
  lemma AlignIsGridFloor(at: int, step: int)
    requires WholeStep(step) && Representable(at)
    ensures AlignToStep(at, step) ==
            if at - at % step >= MIN_UNIX_SECONDS * NANOS_PER_SECOND then Success(at - at % step)
            else Failure(OutOfRange)
  {
    var s := StepSeconds(step);
    var secs := UnixSeconds(at);
    var k, rest := secs / s, (secs % s) * NANOS_PER_SECOND + at % NANOS_PER_SECOND;
    assert step == s * NANOS_PER_SECOND;
    assert k * s * NANOS_PER_SECOND == k * (s * NANOS_PER_SECOND);
    assert at == k * step + rest by {
      assert secs == s * k + secs % s;
      assert s * k == k * s;
    }
    assert 0 <= rest < step by {
      assert secs % s <= s - 1;
    }
    DivModUnique(at, step, k, rest);
    assert at - at % step == (secs - secs % s) * NANOS_PER_SECOND;
  }

  /** A boundary is accepted for archival exactly when it lies on the step's grid. */
  lemma AlignedIffOnGrid(at: int, step: int)
    requires WholeStep(step) && Representable(at)
    ensures AlignToStep(at, step) == Success(at) <==> OnGrid(at, step)
  {
    AlignIsGridFloor(at, step);
  }

  /** What `NextWindow` answers, for every input it does not refuse outright. */
  lemma NextWindowIsNextTile(boundary: int, now: int, lag: int, step: int)
    requires WholeStep(step) && lag >= 0 && Representable(boundary) && Representable(now - lag)
    requires Representable(boundary + step)
    ensures NextWindow(boundary, now, lag, step) ==
            if !OnGrid(boundary, step) && AlignToStep(boundary, step).Failure? then Failure(OutOfRange)
            else if !OnGrid(boundary, step) then Failure(Misaligned)
            else if boundary + step <= now - lag then Success(Some(Window(boundary, boundary + step)))
            else Success(None)
  {
    AlignedIffOnGrid(boundary, step);
  }

  /** What is refused before any window is looked for, in this order. */
  lemma NextWindowRefuses(boundary: int, now: int, lag: int, step: int)
    ensures NextWindow(boundary, now, lag, step) == Failure(NonPositiveStep) <==> step <= 0
    ensures NextWindow(boundary, now, lag, step) == Failure(NegativeLag) <==> step > 0 && lag < 0
    ensures NextWindow(boundary, now, lag, step).Success? ==>
              Representable(now - lag) && Representable(boundary + step)
    ensures NextWindow(boundary, now, lag, step) != Failure(EmptyWindow)
  {
  }

  /** A step below two seconds, also one that is no step at all, aligns to whole seconds. */
  lemma ShortStepsAlignToSeconds(at: int, step: int)
    requires Representable(at) && step < 2 * 1_000_000_000
    ensures AlignToStep(at, step) == Success(at - at % 1_000_000_000)
  {
  }

  /** Days from the first of January of the year 0 to that of another, leap years as the Gregorian calendar has them. */
  function DaysBefore(year: int): int {
    365 * year + (year + 3) / 4 - (year + 99) / 100 + (year + 399) / 400
  }

  /** The representable instants are those of the years -9999 to 9999, to the nanosecond. */
  lemma RepresentableAreTheYears(at: int)
    ensures var (first, epoch, end) := (DaysBefore(-9999), DaysBefore(1970), DaysBefore(10_000));
      Representable(at)
      <==> (first - epoch) * 86_400 * 1_000_000_000 <= at < (end - epoch) * 86_400 * 1_000_000_000
  {
  }

  /** A window holds some instant, or there is none. */
  lemma WindowsAreNotEmpty(from: int, to: int)
    ensures NewWindow(from, to) == Success(Window(from, to)) <==> exists at :: Window(from, to).Contains(at)
    ensures NewWindow(from, to).Failure? ==> NewWindow(from, to) == Failure(EmptyWindow)
  {
    if NewWindow(from, to).Success? {
      assert Window(from, to).Contains(from);
    }
  }

  /** A boundary may be published again where it stands, and is never taken back. */
  lemma AdvanceNeverGoesBack(current: int, next: int)
    ensures AdvanceTo(current, current) == Success(current)
    ensures next < current ==> AdvanceTo(current, next) == Failure(MovesBackwards)
    ensures next > current ==> AdvanceTo(current, next) == Success(next)
  {
  }

  /**
   Only a whole-second step can be archived on twice: from an accepted boundary,
   the boundary one step later is accepted again if and only if the step has no
   fraction of a second.
   */
  lemma SecondWindowNeedsWholeStep(boundary: int, step: int)
    requires step > 0 && AlignToStep(boundary, step) == Success(boundary)
    requires Representable(boundary + step)
    ensures AlignToStep(boundary + step, step) == Success(boundary + step) <==> WholeStep(step)
  {
    if WholeStep(step) {
      AlignedIffOnGrid(boundary, step);
      NextGridPoint(boundary, step);
      AlignedIffOnGrid(boundary + step, step);
    } else {
      FractionIsNotAligned(boundary, step);
    }
  }

  /** A step of a second and a half: the first window is archived, and the boundary it leaves is refused. */
  lemma FractionalStepStopsAfterOne(now: int)
    requires Representable(now) && now >= 3 * NANOS_PER_SECOND
    ensures var step := NANOS_PER_SECOND + NANOS_PER_SECOND / 2;
      && NextWindow(0, now, 0, step) == Success(Some(Window(0, step)))
      && NextWindow(step, now, 0, step) == Failure(Misaligned)
  {
    var step := NANOS_PER_SECOND + NANOS_PER_SECOND / 2;
    assert UnixSeconds(step) == 1 && StepSeconds(step) == 1;
  }

  /** Whatever is aligned lies on a whole second. */
  lemma FractionIsNotAligned(at: int, step: int)
    requires AlignToStep(at, step) == Success(at)
    ensures at % NANOS_PER_SECOND == 0
    ensures forall step' :: step' % NANOS_PER_SECOND != 0 ==> AlignToStep(at + step', step) != Success(at + step')
  {
  }

  lemma NextGridPoint(at: int, step: int)
    requires step > 0 && OnGrid(at, step)
    ensures OnGrid(at + step, step)
  {
    DivModUnique(at + step, step, at / step + 1, 0);
  }

  // ---------------------------------------------------------------- catching up

  /** Asking for windows, and archiving each, until the answer is no longer a window. */
  function CatchUp(boundary: int, now: int, lag: int, step: int): (windows: seq<Window>)
    decreases now - lag - boundary
  {
    match NextWindow(boundary, now, lag, step)
    case Success(Some(w)) => [w] + CatchUp(w.to, now, lag, step)
    case _ => []
  }

  /** The boundary after archiving `windows` from `boundary`. */
  function BoundaryAfter(boundary: int, windows: seq<Window>): int {
    if windows == [] then boundary else windows[|windows| - 1].to
  }

  /** The windows `[start, start + step)`, `[start + step, start + 2 * step)`, and so on. */
  predicate Tiles(windows: seq<Window>, start: int, step: int) {
    forall i :: 0 <= i < |windows| ==> windows[i] == Window(start + i * step, start + (i + 1) * step)
  }

  /**
   Catching up from an aligned boundary archives exactly the tiles up to the
   horizon's grid point, and stops there because the next one would pass it.
   */
  lemma {:induction false} CatchUpReachesHorizon(boundary: int, now: int, lag: int, step: int)
    requires WholeStep(step) && lag >= 0
    requires Representable(boundary) && Representable(now - lag)
    requires OnGrid(boundary, step) && boundary <= now - lag
    ensures var windows := CatchUp(boundary, now, lag, step);
            var last := BoundaryAfter(boundary, windows);
            && Tiles(windows, boundary, step)
            && |windows| * step == last - boundary
            && AlignToStep(now - lag, step) == Success(last)
            && last <= now - lag < last + step
            && NextWindow(last, now, lag, step) ==
               if Representable(last + step) then Success(None) else Failure(OutOfRange)
    decreases now - lag - boundary
  {
    AlignedIffOnGrid(boundary, step);
    NextGridPoint(boundary, step);
    if boundary + step <= now - lag {
      CatchUpReachesHorizon(boundary + step, now, lag, step);
      CatchUpStep(boundary, now, lag, step);
    } else {
      LastGridPoint(boundary, now - lag, step);
      assert CatchUp(boundary, now, lag, step) == [];
    }
  }

  lemma LastGridPoint(last: int, horizon: int, step: int)
    requires WholeStep(step) && OnGrid(last, step) && last <= horizon < last + step
    requires Representable(last) && Representable(horizon)
    ensures AlignToStep(horizon, step) == Success(last)
  {
    DivModUnique(horizon, step, last / step, horizon - last);
    AlignIsGridFloor(horizon, step);
  }

  lemma CatchUpStep(boundary: int, now: int, lag: int, step: int)
    requires NextWindow(boundary, now, lag, step) == Success(Some(Window(boundary, boundary + step)))
    requires step > 0
    ensures var windows, rest := CatchUp(boundary, now, lag, step), CatchUp(boundary + step, now, lag, step);
            && BoundaryAfter(boundary, windows) == BoundaryAfter(boundary + step, rest)
            && |windows| * step == step + |rest| * step
            && (Tiles(rest, boundary + step, step) ==> Tiles(windows, boundary, step))
  {
    var windows, rest := CatchUp(boundary, now, lag, step), CatchUp(boundary + step, now, lag, step);
    assert windows == [Window(boundary, boundary + step)] + rest;
    if Tiles(rest, boundary + step, step) {
      TilesPrepend(rest, boundary, step);
    }
    assert |windows| * step == (1 + |rest|) * step;
  }

  lemma TilesPrepend(rest: seq<Window>, start: int, step: int)
    requires Tiles(rest, start + step, step)
    ensures Tiles([Window(start, start + step)] + rest, start, step)
  {
    var windows := [Window(start, start + step)] + rest;
    forall i | 0 <= i < |windows|
      ensures windows[i] == Window(start + i * step, start + (i + 1) * step)
    {
      if i > 0 {
        assert windows[i] == rest[i - 1];
        assert (i - 1) * step + step == i * step;
        assert (i - 1 + 1) * step + step == (i + 1) * step;
      }
    }
  }
}
