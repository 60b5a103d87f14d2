/** When a retention sweep may destroy a linkage: a period, a cutoff, and the epochs before it. */
module Retention {

  const I32_MIN := -0x8000_0000
  const I32_MAX := 0x7FFF_FFFF
  const U32_MAX := 0xFFFF_FFFF
  const EARLIEST_CUTOFF_YEAR := -9998
  const LAST_YEAR := 9999
  const SIX_HOURS := 6 * 3_600 * 1_000_000_000

  /** Instants are nanoseconds; the calendar library answers for the local year of one and the start of another. */
  datatype Calendar = Calendar(first: int, last: int, localYear: int -> int, yearStart: int -> int, gasYear: int -> int)
  {
    predicate Holds(at: int) {
      first <= at <= last
    }

    predicate Names(year: int) {
      EARLIEST_CUTOFF_YEAR <= year <= LAST_YEAR
    }

    /** The start of a year is the first instant of it, and years follow one another. */
    ghost predicate Valid() {
      && (forall at, year :: Holds(at) && Names(year) ==> (localYear(at) >= year <==> at >= yearStart(year)))
      && (forall year :: Names(year) ==> Holds(yearStart(year)))
      && (forall year, later :: Names(year) && Names(later) && year < later ==> yearStart(year) < yearStart(later))
      && (forall at :: Holds(at) ==> I32_MIN <= localYear(at) <= LAST_YEAR)
      // The gas day starts six hours after the local one, so the gas year lags by no more than that.
      && (forall at :: Holds(at) ==> gasYear(at) <= localYear(at))
      && (forall at :: Holds(at) && Holds(at - SIX_HOURS) ==> localYear(at - SIX_HOURS) <= gasYear(at))
    }
  }

  datatype Policy = CalendarYears(years: nat) | Rolling(window: int)

  function SaturatingI32(i: int): int {
    if i < I32_MIN then I32_MIN else if i > I32_MAX then I32_MAX else i
  }

  function Max(a: int, b: int): int {
    if a >= b then a else b
  }

  /** The instant a sweep at `now` treats as its ceiling. */
  function Cutoff(policy: Policy, now: int, c: Calendar): int {
    match policy
    case CalendarYears(years) =>
      var period := if years <= I32_MAX then years else I32_MAX;
      c.yearStart(Max(SaturatingI32(c.localYear(now) - period), EARLIEST_CUTOFF_YEAR))
    case Rolling(window) =>
      if c.Holds(now - window) then now - window else c.yearStart(EARLIEST_CUTOFF_YEAR)
  }

  /** Everything below this epoch is due. */
  function SweepBoundary(cutoff: int, c: Calendar): int {
    c.localYear(cutoff)
  }

  predicate Swept(epoch: int, policy: Policy, now: int, c: Calendar) {
    epoch < SweepBoundary(Cutoff(policy, now, c), c)
  }

  lemma YearOfItsStart(year: int, c: Calendar)
    requires c.Valid() && c.Names(year)
    ensures c.localYear(c.yearStart(year)) == year
  {
    assert c.localYear(c.yearStart(year)) >= year;
    if year < LAST_YEAR {
      assert c.Names(year + 1) && c.yearStart(year) < c.yearStart(year + 1);
    }
  }

  /** A year is due exactly when the period of calendar years after it is behind the current one, for every `u32`. */
  lemma CalendarYearsSweepIff(years: nat, now: int, epoch: int, c: Calendar)
    requires c.Valid() && c.Holds(now) && years <= U32_MAX && EARLIEST_CUTOFF_YEAR <= epoch
    ensures Swept(epoch, CalendarYears(years), now, c) <==> epoch + years < c.localYear(now)
  {
    var period := if years <= I32_MAX then years else I32_MAX;
    YearOfItsStart(Max(SaturatingI32(c.localYear(now) - period), EARLIEST_CUTOFF_YEAR), c);
  }

  /** So nothing is erased before its period is over: the whole of the last year of it lies before `now`. */
  lemma CalendarYearsNeverEarly(years: nat, now: int, epoch: int, at: int, c: Calendar)
    requires c.Valid() && c.Holds(now) && c.Holds(at) && years <= U32_MAX && EARLIEST_CUTOFF_YEAR <= epoch
    requires Swept(epoch, CalendarYears(years), now, c) && c.localYear(at) == epoch
    ensures c.Names(epoch + years + 1) && at < c.yearStart(epoch + years + 1) <= now
  {
    CalendarYearsSweepIff(years, now, epoch, c);
    assert c.Names(epoch + years + 1);
  }

  /** A rolling window takes exactly the years that had ended when the window began. */
  lemma RollingSweepsIffYearEnded(window: int, now: int, epoch: int, c: Calendar)
    requires c.Valid() && c.Holds(now) && EARLIEST_CUTOFF_YEAR <= epoch < LAST_YEAR
    ensures Swept(epoch, Rolling(window), now, c) <==> c.Holds(now - window) && c.yearStart(epoch + 1) <= now - window
  {
    YearOfItsStart(EARLIEST_CUTOFF_YEAR, c);
    assert c.Names(epoch + 1);
  }

  /** So every instant of a swept year is older than the window, and for gas older but for six hours. */
  lemma RollingNeverEarly(window: int, now: int, epoch: int, at: int, c: Calendar)
    requires c.Valid() && c.Holds(now) && c.Holds(at) && EARLIEST_CUTOFF_YEAR <= epoch
    requires Swept(epoch, Rolling(window), now, c)
    ensures c.localYear(at) <= epoch ==> at < now - window
    ensures c.Holds(at - SIX_HOURS) && c.gasYear(at) <= epoch ==> at < now - window + SIX_HOURS
  {
    YearOfItsStart(EARLIEST_CUTOFF_YEAR, c);
    var cutoff := Cutoff(Rolling(window), now, c);
    assert c.Holds(cutoff);
    assert c.localYear(cutoff) <= LAST_YEAR;
    RollingSweepsIffYearEnded(window, now, epoch, c);
    assert c.Names(epoch + 1);
    if c.Holds(at - SIX_HOURS) && c.gasYear(at) <= epoch {
      assert c.localYear(at - SIX_HOURS) < epoch + 1;
    }
  }

  /** Gas may go up to six hours sooner under a calendar period, and no sooner. */
  lemma GasGoesAtMostSixHoursEarly(years: nat, now: int, epoch: int, at: int, c: Calendar)
    requires c.Valid() && c.Holds(now) && c.Holds(at) && c.Holds(at - SIX_HOURS)
    requires years <= U32_MAX && EARLIEST_CUTOFF_YEAR <= epoch
    requires Swept(epoch, CalendarYears(years), now, c) && c.gasYear(at) == epoch
    ensures c.Names(epoch + years + 1) && c.yearStart(epoch + years + 1) <= now
    ensures at < c.yearStart(epoch + 1) + SIX_HOURS
  {
    CalendarYearsSweepIff(years, now, epoch, c);
    assert c.Names(epoch + 1) && c.Names(epoch + years + 1);
    assert c.localYear(at - SIX_HOURS) < epoch + 1;
  }

  /** A period that no calendar holds keeps everything: both kinds stop at the start of one year, and nothing is due. */
  lemma UnrepresentablePeriodsKeepEverything(years: nat, window: int, now: int, epoch: int, c: Calendar)
    requires c.Valid() && c.Holds(now) && -9998 <= epoch && years <= U32_MAX
    requires c.localYear(now) - years < -9998 && !c.Holds(now - window)
    ensures Cutoff(CalendarYears(years), now, c) == Cutoff(Rolling(window), now, c) == c.yearStart(-9998)
    ensures !Swept(epoch, CalendarYears(years), now, c) && !Swept(epoch, Rolling(window), now, c)
  {
    YearOfItsStart(EARLIEST_CUTOFF_YEAR, c);
  }

  /** A linkage that is due stays due, however often the sweep is put off. */
  lemma DueStaysDue(years: nat, now: int, later: int, epoch: int, c: Calendar)
    requires c.Valid() && c.Holds(now) && c.Holds(later) && now <= later
    requires years <= U32_MAX && EARLIEST_CUTOFF_YEAR <= epoch
    requires Swept(epoch, CalendarYears(years), now, c)
    ensures Swept(epoch, CalendarYears(years), later, c)
  {
    CalendarYearsSweepIff(years, now, epoch, c);
    CalendarYearsSweepIff(years, later, epoch, c);
    var year := c.localYear(now);
    assert c.Names(year) && later >= c.yearStart(year);
  }

  /**
   Under a rolling window too, exactly as long as the window's start is an instant at all,
   which it is for every window that is not negative.
   */
  lemma RollingDueStaysDueIff(window: int, now: int, later: int, epoch: int, c: Calendar)
    requires c.Valid() && c.Holds(now) && c.Holds(later) && now <= later && EARLIEST_CUTOFF_YEAR <= epoch
    requires Swept(epoch, Rolling(window), now, c)
    ensures Swept(epoch, Rolling(window), later, c) <==> c.Holds(later - window)
    ensures window >= 0 ==> c.Holds(later - window)
  {
    YearOfItsStart(EARLIEST_CUTOFF_YEAR, c);
    assert c.Holds(Cutoff(Rolling(window), now, c));
    assert c.localYear(Cutoff(Rolling(window), now, c)) <= LAST_YEAR;
    RollingSweepsIffYearEnded(window, now, epoch, c);
    RollingSweepsIffYearEnded(window, later, epoch, c);
  }
}
