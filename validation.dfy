/** The time checks of the agenda service: the shape of one slot or period,
    the shape of every period of a request, and the width of a search
    window. */
module Validation {
  import opened Errors
  import opened Time
  import opened Agendas

  /** `MAX_PERIOD_SEARCH_AVAILABILITY`: the widest search window, in whole days. */
  const MaxPeriodSearchAvailability: int := 5

  /** A slot or period that `validateAvailability` accepts. */
  predicate WellShaped(start: Instant, end: Instant)
  {
    OnTheHour(start) && OnTheHour(end) && start <= end
  }

  /** `validateAvailability`: both ends present, then both on minute 00, then
      the start not after the end.  A zero-length slot is accepted and the
      seconds are not looked at. */
  function ValidateAvailability(start: Option<Instant>, end: Option<Instant>): (o: Outcome)
    ensures o.Pass? <==> start.Some? && end.Some? && WellShaped(start.value, end.value)
    ensures o == Fail(IllegalArgument) <==> start.None? || end.None?
    ensures o == Fail(Validation(MinuteNotZero)) <==>
            start.Some? && end.Some? && (MinuteOfHour(start.value) != 0 || MinuteOfHour(end.value) != 0)
    ensures o == Fail(Validation(StartAfterEnd)) <==>
            start.Some? && end.Some? && OnTheHour(start.value) && OnTheHour(end.value) && start.value > end.value
  {
    if start.None? || end.None? then Fail(IllegalArgument)
    else if MinuteOfHour(start.value) != 0 || MinuteOfHour(end.value) != 0 then Fail(Validation(MinuteNotZero))
    else if start.value > end.value then Fail(Validation(StartAfterEnd))
    else Pass
  }

  /** The check `validateAvailabilities` runs on one period.  The period's
      local date-times are first turned into UTC offset date-times, and that
      conversion throws `NullPointerException` on a missing bound, before
      `validateAvailability` can see it. */
  function PeriodCheck(period: AvailabilityDto): Outcome
  {
    if period.start.None? || period.end.None? then Fail(NullPointer)
    else ValidateAvailability(period.start, period.end)
  }

  function PeriodChecks(periods: seq<AvailabilityDto>): (checks: seq<Outcome>)
    ensures |checks| == |periods|
    ensures forall i :: 0 <= i < |periods| ==> checks[i] == PeriodCheck(periods[i])
  {
    seq(|periods|, i requires 0 <= i < |periods| => PeriodCheck(periods[i]))
  }

  /** `validateAvailabilities`: every period in order, stopping at the first
      that throws. */
  function ValidateAvailabilities(periods: seq<AvailabilityDto>): Outcome
  {
    FirstFailure(PeriodChecks(periods))
  }

  /** A period with both bounds present, on the hour, in order. */
  predicate ValidPeriod(period: AvailabilityDto)
  {
    period.start.Some? && period.end.Some? && WellShaped(period.start.value, period.end.value)
  }

  /** The request's periods pass exactly when every one of them is valid. */
  lemma ValidateAvailabilitiesPassesIffAllValid(periods: seq<AvailabilityDto>)
    ensures ValidateAvailabilities(periods).Pass? <==> forall i :: 0 <= i < |periods| ==> ValidPeriod(periods[i])
  {
    FirstFailurePassesIffAll(PeriodChecks(periods));
  }

  /** When period `k` is the first invalid one, the request fails with the
      error of that period alone (fail-fast: later periods are not looked at). */
  lemma ValidateAvailabilitiesFailsAtFirstInvalid(periods: seq<AvailabilityDto>, k: nat)
    requires k < |periods| && !ValidPeriod(periods[k])
    requires forall j :: 0 <= j < k ==> ValidPeriod(periods[j])
    ensures ValidateAvailabilities(periods) == PeriodCheck(periods[k])
    ensures ValidateAvailabilities(periods).Fail?
  {
    FirstFailureIsFirst(PeriodChecks(periods), k);
  }

  /** `validatesPeriodInput`: both bounds present, and no more than five
      whole days between them.  Because the day count is truncated, the
      window fails exactly when it spans six days or more; a window whose end
      precedes its start always passes. */
  function ValidatesPeriodInput(startingFrom: Option<Instant>, endingAt: Option<Instant>): (o: Outcome)
    ensures o.Pass? <==>
            startingFrom.Some? && endingAt.Some? &&
            endingAt.value - startingFrom.value < (MaxPeriodSearchAvailability + 1) * SecondsPerDay
    ensures o == Fail(IllegalArgument) <==> startingFrom.None? || endingAt.None?
    ensures o == Fail(Validation(PeriodTooLong)) <==>
            startingFrom.Some? && endingAt.Some? &&
            endingAt.value - startingFrom.value >= (MaxPeriodSearchAvailability + 1) * SecondsPerDay
  {
    if startingFrom.None? || endingAt.None? then Fail(IllegalArgument)
    else if DaysUntil(startingFrom.value, endingAt.value) > MaxPeriodSearchAvailability then Fail(Validation(PeriodTooLong))
    else Pass
  }
}
