/** `getAgendaDtosFromAvailabilities`: every availability period is cut into
    one-hour slots by a cursor that starts at the period's start and moves one
    hour at a time while it is before the period's end. */
module SlotGeneration {
  import opened Errors
  import opened Time
  import opened Users
  import opened Agendas
  import opened Validation

  /** A period the cursor loop can run on (a missing bound would make the
      loop's `isBefore` throw; the only caller validates first). */
  predicate Complete(period: AvailabilityDto)
  {
    period.start.Some? && period.end.Some?
  }

  /** The slots the cursor loop emits from `cursor` on, while `cursor < end`. */
  function ExpandFrom(userId: Option<UserId>, cursor: Instant, end: Instant): seq<Agenda>
    decreases end - cursor
  {
    if cursor < end then [HourSlot(userId, cursor)] + ExpandFrom(userId, cursor + SecondsPerHour, end)
    else []
  }

  /** The slots of one period. */
  function ExpandPeriod(userId: Option<UserId>, period: AvailabilityDto): seq<Agenda>
    requires Complete(period)
  {
    ExpandFrom(userId, period.start.value, period.end.value)
  }

  /** The slots of all periods, period after period, in input order. */
  function ExpandPeriods(periods: seq<AvailabilityDto>, userId: Option<UserId>): seq<Agenda>
    requires forall i :: 0 <= i < |periods| ==> Complete(periods[i])
  {
    if periods == [] then []
    else ExpandPeriods(periods[..|periods| - 1], userId) + ExpandPeriod(userId, periods[|periods| - 1])
  }

  /** The number of cursor positions strictly before `end`: the length of
      the period in hours, rounded up; none for an empty or reversed period. */
  function SlotCount(start: Instant, end: Instant): nat
  {
    if start < end then (end - start + SecondsPerHour - 1) / SecondsPerHour else 0
  }

  /** The imperative expansion, as the service runs it. */
  method GetAgendaDtosFromAvailabilities(periods: seq<AvailabilityDto>, userId: Option<UserId>)
    returns (agendas: seq<Agenda>)
    requires forall i :: 0 <= i < |periods| ==> Complete(periods[i])
    ensures agendas == ExpandPeriods(periods, userId)
  {
    agendas := [];
    var i := 0;
    while i < |periods|
      invariant 0 <= i <= |periods|
      invariant agendas == ExpandPeriods(periods[..i], userId)
    {
      var period := periods[i];
      assert periods[..i + 1][..i] == periods[..i];
      var start := period.start.value;
      while start < period.end.value
        invariant agendas + ExpandFrom(userId, start, period.end.value) == ExpandPeriods(periods[..i + 1], userId)
        decreases period.end.value - start
      {
        agendas := agendas + [HourSlot(userId, start)];
        start := start + SecondsPerHour;
      }
      i := i + 1;
    }
    assert periods[..|periods|] == periods;
  }

  /** Slot `k` of a period starts `k` hours after the period's start and lasts
      one hour; there are as many slots as cursor positions before the end. */
  lemma {:induction false} ExpandFromShape(userId: Option<UserId>, start: Instant, end: Instant)
    ensures |ExpandFrom(userId, start, end)| == SlotCount(start, end)
    ensures forall k :: 0 <= k < |ExpandFrom(userId, start, end)| ==>
              ExpandFrom(userId, start, end)[k] == HourSlot(userId, start + k * SecondsPerHour)
    decreases end - start
  {
    if start < end {
      var rest := ExpandFrom(userId, start + SecondsPerHour, end);
      ExpandFromShape(userId, start + SecondsPerHour, end);
      assert ExpandFrom(userId, start, end) == [HourSlot(userId, start)] + rest;
      forall k | 0 < k < 1 + |rest|
        ensures ([HourSlot(userId, start)] + rest)[k] == HourSlot(userId, start + k * SecondsPerHour)
      {
        assert rest[k - 1] == HourSlot(userId, start + SecondsPerHour + (k - 1) * SecondsPerHour);
      }
    }
  }

  /** A period of exactly `n` hours gives exactly `n` contiguous one-hour
      slots, the first starting at the period's start and the last ending at
      the period's end. */
  lemma WholeHoursPeriod(userId: Option<UserId>, start: Instant, n: nat)
    ensures |ExpandFrom(userId, start, start + n * SecondsPerHour)| == n
    ensures forall k :: 0 <= k < n ==>
              ExpandFrom(userId, start, start + n * SecondsPerHour)[k] == HourSlot(userId, start + k * SecondsPerHour)
    ensures n > 0 ==> ExpandFrom(userId, start, start + n * SecondsPerHour)[n - 1].end == Some(start + n * SecondsPerHour)
  {
    ExpandFromShape(userId, start, start + n * SecondsPerHour);
    if n > 0 {
      assert (n * SecondsPerHour + SecondsPerHour - 1) / SecondsPerHour == n;
    }
  }

  /** A period whose length is not a whole number of hours still gets a full
      hour for its last cursor position: one slot more than its whole hours,
      the last overrunning the period's end by less than an hour. */
  lemma PartialHourOverruns(userId: Option<UserId>, start: Instant, end: Instant)
    requires start < end && (end - start) % SecondsPerHour != 0
    ensures |ExpandFrom(userId, start, end)| == (end - start) / SecondsPerHour + 1
    ensures var last := ExpandFrom(userId, start, end)[|ExpandFrom(userId, start, end)| - 1];
            last.end.Some? && end < last.end.value < end + SecondsPerHour
  {
    ExpandFromShape(userId, start, end);
    var len := end - start;
    var q := len / SecondsPerHour;
    assert len == q * SecondsPerHour + len % SecondsPerHour;
    assert (len + SecondsPerHour - 1) / SecondsPerHour == q + 1;
  }

  /** A period whose start is not before its end gives no slot. */
  lemma EmptyPeriodGivesNoSlots(userId: Option<UserId>, start: Instant, end: Instant)
    requires end <= start
    ensures ExpandFrom(userId, start, end) == []
  {
  }

  /** Expansion distributes over concatenation of the period list. */
  lemma {:induction false} ExpandPeriodsAppend(a: seq<AvailabilityDto>, b: seq<AvailabilityDto>, userId: Option<UserId>)
    requires forall i :: 0 <= i < |a| ==> Complete(a[i])
    requires forall i :: 0 <= i < |b| ==> Complete(b[i])
    ensures forall i :: 0 <= i < |a + b| ==> Complete((a + b)[i])
    ensures ExpandPeriods(a + b, userId) == ExpandPeriods(a, userId) + ExpandPeriods(b, userId)
    decreases |b|
  {
    if b == [] {
      assert a + b == a;
    } else {
      var b' := b[..|b| - 1];
      assert (a + b)[..|a + b| - 1] == a + b';
      ExpandPeriodsAppend(a, b', userId);
    }
  }

  /** Every expanded slot is a new slot (no id) of the given user, one hour long. */
  lemma {:induction false} ExpandPeriodsAreHourSlots(periods: seq<AvailabilityDto>, userId: Option<UserId>)
    requires forall i :: 0 <= i < |periods| ==> Complete(periods[i])
    ensures forall x :: x in ExpandPeriods(periods, userId) ==>
              x.id.None? && x.userId == userId && x.start.Some? && x.end == Some(x.start.value + SecondsPerHour)
  {
    if periods != [] {
      var last := periods[|periods| - 1];
      ExpandPeriodsAreHourSlots(periods[..|periods| - 1], userId);
      ExpandFromShape(userId, last.start.value, last.end.value);
    }
  }

  /** Every slot expanded from validated periods passes `validateAvailability`
      itself: it starts and ends on minute 00 and does not end before it
      starts. */
  lemma {:induction false} ExpandedSlotsAreValid(periods: seq<AvailabilityDto>, userId: Option<UserId>)
    requires forall i :: 0 <= i < |periods| ==> ValidPeriod(periods[i])
    ensures forall i :: 0 <= i < |periods| ==> Complete(periods[i])
    ensures forall x :: x in ExpandPeriods(periods, userId) ==> ValidateAvailability(x.start, x.end).Pass?
  {
    if periods != [] {
      var last := periods[|periods| - 1];
      var s := last.start.value;
      ExpandedSlotsAreValid(periods[..|periods| - 1], userId);
      ExpandFromShape(userId, s, last.end.value);
      forall x | x in ExpandPeriod(userId, last)
        ensures ValidateAvailability(x.start, x.end).Pass?
      {
        var k :| 0 <= k < |ExpandPeriod(userId, last)| && ExpandPeriod(userId, last)[k] == x;
        MinuteOfHourAfterHours(s, k);
        MinuteOfHourAfterHours(s, k + 1);
      }
    }
  }

  /** The period `[from, to)` hours into the day that starts at `midnight`. */
  function DayPeriod(midnight: Instant, day: int, from: int, to: int): AvailabilityDto
  {
    AvailabilityDto(Some(midnight + day * SecondsPerDay + from * SecondsPerHour),
                    Some(midnight + day * SecondsPerDay + to * SecondsPerHour))
  }

  /** An interviewer free from 09:00 to 16:00 on five consecutive days gets
      35 slots, 7 a day, day after day: the first from 09:00 to 10:00 on the
      first day, the seventh from 15:00 to 16:00, the eighth from 09:00 on the
      second day, the fourteenth from 15:00 on the second day, the
      twenty-ninth from 09:00 on the fifth day, and the last from 15:00 to
      16:00 on the fifth day. */
  lemma FiveDaysNineToFour(userId: Option<UserId>, midnight: Instant)
    ensures var periods := [DayPeriod(midnight, 0, 9, 16), DayPeriod(midnight, 1, 9, 16), DayPeriod(midnight, 2, 9, 16),
                            DayPeriod(midnight, 3, 9, 16), DayPeriod(midnight, 4, 9, 16)];
            var slots := ExpandPeriods(periods, userId);
            |slots| == 35 &&
            slots[0] == HourSlot(userId, midnight + 9 * SecondsPerHour) &&
            slots[6] == HourSlot(userId, midnight + 15 * SecondsPerHour) &&
            slots[7] == HourSlot(userId, midnight + SecondsPerDay + 9 * SecondsPerHour) &&
            slots[13] == HourSlot(userId, midnight + SecondsPerDay + 15 * SecondsPerHour) &&
            slots[28] == HourSlot(userId, midnight + 4 * SecondsPerDay + 9 * SecondsPerHour) &&
            slots[34] == HourSlot(userId, midnight + 4 * SecondsPerDay + 15 * SecondsPerHour)
  {
    var p0, p1, p2, p3, p4 := DayPeriod(midnight, 0, 9, 16), DayPeriod(midnight, 1, 9, 16), DayPeriod(midnight, 2, 9, 16),
                              DayPeriod(midnight, 3, 9, 16), DayPeriod(midnight, 4, 9, 16);
    var periods := [p0, p1, p2, p3, p4];
    var e0, e1, e2, e3, e4 := ExpandPeriod(userId, p0), ExpandPeriod(userId, p1), ExpandPeriod(userId, p2),
                              ExpandPeriod(userId, p3), ExpandPeriod(userId, p4);
    WholeHoursPeriod(userId, p0.start.value, 7);
    WholeHoursPeriod(userId, p1.start.value, 7);
    WholeHoursPeriod(userId, p4.start.value, 7);
    WholeHoursPeriod(userId, p2.start.value, 7);
    WholeHoursPeriod(userId, p3.start.value, 7);
    assert [p0][..0] == [];
    assert ExpandPeriods([p0], userId) == e0;
    assert [p0, p1][..1] == [p0];
    assert ExpandPeriods([p0, p1], userId) == e0 + e1;
    assert [p0, p1, p2][..2] == [p0, p1];
    assert ExpandPeriods([p0, p1, p2], userId) == e0 + e1 + e2;
    assert [p0, p1, p2, p3][..3] == [p0, p1, p2];
    assert ExpandPeriods([p0, p1, p2, p3], userId) == e0 + e1 + e2 + e3;
    assert periods[..4] == [p0, p1, p2, p3];
    var slots := ExpandPeriods(periods, userId);
    assert slots == e0 + e1 + e2 + e3 + e4;
    assert slots[6] == e0[6] == HourSlot(userId, p0.start.value + 6 * SecondsPerHour);
    assert slots[7] == e1[0];
    assert slots[13] == e1[6] == HourSlot(userId, p1.start.value + 6 * SecondsPerHour);
    assert slots[28] == e4[0];
    assert slots[34] == e4[6] == HourSlot(userId, p4.start.value + 6 * SecondsPerHour);
  }
}
