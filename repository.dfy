/** `AgendaRepository.searchAvailabilityBy`: the self-join of the agenda
    table that pairs a candidate's slot with every interviewer's slot that has
    the same start and the same end, keeps the pairs whose two slots both
    touch the search window, and returns the interviewer side; then the
    ordering by start and the page slice the service asks for. */
module AgendaRepository {
  import opened Errors
  import opened Time
  import opened Users
  import opened Agendas

  /** The bound parameters of the query: `?1`, `?2`, `?3` and `?4`. */
  datatype SearchQuery = SearchQuery(candidateId: Option<UserId>, interviewerIds: seq<Option<UserId>>,
                                     start: Instant, end: Instant)

  /** SQL `t between lo and hi`: inclusive at both ends, false on `null`. */
  predicate Between(t: Option<Instant>, lo: Instant, hi: Instant)
  {
    t.Some? && lo <= t.value <= hi
  }

  /** The window condition each side of a pair must meet: its start or its
      end lies in the window (a slot that only overlaps an edge qualifies). */
  predicate TouchesWindow(a: Agenda, lo: Instant, hi: Instant)
  {
    Between(a.start, lo, hi) || Between(a.end, lo, hi)
  }

  /** SQL equality of two timestamps: false when either is `null`. */
  predicate SameTime(x: Option<Instant>, y: Option<Instant>)
  {
    x.Some? && y.Some? && x.value == y.value
  }

  /** The join and where clauses, for the pair (candidate slot `c`,
      interviewer slot `i`). */
  predicate JoinMatch(c: Agenda, i: Agenda, q: SearchQuery)
  {
    && SameTime(c.start, i.start)
    && SameTime(c.end, i.end)
    && c.userId.Some? && c.userId == q.candidateId
    && i.userId.Some? && i.userId in q.interviewerIds
    && TouchesWindow(c, q.start, q.end)
    && TouchesWindow(i, q.start, q.end)
  }

  /** The interviewer rows joined to one candidate row. */
  function RowsFor(c: Agenda, slots: seq<Agenda>, q: SearchQuery): seq<Agenda>
  {
    if slots == [] then []
    else (if JoinMatch(c, slots[0], q) then [slots[0]] else []) + RowsFor(c, slots[1..], q)
  }

  /** The interviewer side of every matching pair, one row per pair. */
  function JoinRows(candidates: seq<Agenda>, slots: seq<Agenda>, q: SearchQuery): seq<Agenda>
  {
    if candidates == [] then []
    else RowsFor(candidates[0], slots, q) + JoinRows(candidates[1..], slots, q)
  }

  /** `SEARCH_AVAILABILITY` over the whole agenda table, before ordering. */
  function SearchAvailability(store: seq<Agenda>, q: SearchQuery): seq<Agenda>
  {
    JoinRows(store, store, q)
  }

  /** How many of `candidates` pair with the interviewer row `r`. */
  function PairCount(candidates: seq<Agenda>, r: Agenda, q: SearchQuery): nat
  {
    if candidates == [] then 0
    else (if JoinMatch(candidates[0], r, q) then 1 else 0) + PairCount(candidates[1..], r, q)
  }

  lemma {:induction false} RowsForMembership(c: Agenda, slots: seq<Agenda>, q: SearchQuery, r: Agenda)
    ensures r in RowsFor(c, slots, q) <==> r in slots && JoinMatch(c, r, q)
  {
    if slots != [] {
      RowsForMembership(c, slots[1..], q, r);
      assert slots == [slots[0]] + slots[1..];
    }
  }

  lemma {:induction false} RowsForMultiplicity(c: Agenda, slots: seq<Agenda>, q: SearchQuery, r: Agenda)
    ensures multiset(RowsFor(c, slots, q))[r] == if JoinMatch(c, r, q) then multiset(slots)[r] else 0
  {
    if slots != [] {
      RowsForMultiplicity(c, slots[1..], q, r);
      assert slots == [slots[0]] + slots[1..];
    }
  }

  lemma {:induction false} JoinRowsMembership(candidates: seq<Agenda>, slots: seq<Agenda>, q: SearchQuery, r: Agenda)
    ensures r in JoinRows(candidates, slots, q) <==> r in slots && exists c :: c in candidates && JoinMatch(c, r, q)
  {
    if candidates != [] {
      var c := candidates[0];
      JoinRowsMembership(candidates[1..], slots, q, r);
      RowsForMembership(c, slots, q, r);
      if r in slots && exists c' :: c' in candidates && JoinMatch(c', r, q) {
        var c' :| c' in candidates && JoinMatch(c', r, q);
        if c' != c {
          assert c' in candidates[1..];
        }
      }
    }
  }

  lemma {:induction false} JoinRowsMultiplicity(candidates: seq<Agenda>, slots: seq<Agenda>, q: SearchQuery, r: Agenda)
    ensures multiset(JoinRows(candidates, slots, q))[r] == PairCount(candidates, r, q) * multiset(slots)[r]
  {
    if candidates != [] {
      var c := candidates[0];
      JoinRowsMultiplicity(candidates[1..], slots, q, r);
      RowsForMultiplicity(c, slots, q, r);
      var m := multiset(slots)[r];
      var k := PairCount(candidates[1..], r, q);
      assert multiset(JoinRows(candidates, slots, q))[r] ==
             multiset(RowsFor(c, slots, q))[r] + multiset(JoinRows(candidates[1..], slots, q))[r];
      if JoinMatch(c, r, q) {
        assert PairCount(candidates, r, q) == 1 + k;
        assert multiset(RowsFor(c, slots, q))[r] == m;
        Distribute(k, m);
      } else {
        assert multiset(RowsFor(c, slots, q))[r] == 0;
      }
    }
  }

  /** `(1 + k) * m == m + k * m`, kept apart so the solver meets the product
      without the multiset facts around it. */
  lemma Distribute(k: int, m: int)
    ensures (1 + k) * m == m + k * m
  {
  }

  /** A row is returned exactly when it is a stored slot of one of the
      interviewers that touches the window and the candidate owns a stored
      slot with the same start and the same end that touches the window too. */
  lemma SearchRowsAreMatchedInterviewerSlots(store: seq<Agenda>, q: SearchQuery, r: Agenda)
    ensures r in SearchAvailability(store, q) <==>
            && r in store
            && r.userId.Some? && r.userId in q.interviewerIds
            && TouchesWindow(r, q.start, q.end)
            && exists c :: c in store && JoinMatch(c, r, q)
  {
    JoinRowsMembership(store, store, q, r);
  }

  /** One row per matching pair: a stored interviewer slot appears once for
      every candidate slot it pairs with, times the number of times it is
      stored; two interviewers free in the same hour give two rows. */
  lemma SearchRowsOnePerPair(store: seq<Agenda>, q: SearchQuery, r: Agenda)
    ensures multiset(SearchAvailability(store, q))[r] == PairCount(store, r, q) * multiset(store)[r]
  {
    JoinRowsMultiplicity(store, store, q, r);
  }

  /** A window that no stored start or end falls in gives no rows, not an
      error; in particular a window whose end is before its start. */
  lemma EmptyWindowGivesNoRows(store: seq<Agenda>, q: SearchQuery)
    requires q.end < q.start || forall a :: a in store ==> !TouchesWindow(a, q.start, q.end)
    ensures SearchAvailability(store, q) == []
  {
    var rows := SearchAvailability(store, q);
    if rows != [] {
      SearchRowsAreMatchedInterviewerSlots(store, q, rows[0]);
      assert false;
    }
  }

  /** With no interviewer ids the `in` clause matches nothing. */
  lemma NoInterviewersGivesNoRows(store: seq<Agenda>, q: SearchQuery)
    requires q.interviewerIds == []
    ensures SearchAvailability(store, q) == []
  {
    var rows := SearchAvailability(store, q);
    if rows != [] {
      SearchRowsAreMatchedInterviewerSlots(store, q, rows[0]);
      assert false;
    }
  }

  /** A row that is not the candidate's pairs with nothing. */
  lemma {:induction false} NonCandidateRowJoinsNothing(c: Agenda, slots: seq<Agenda>, q: SearchQuery)
    requires c.userId != q.candidateId
    ensures RowsFor(c, slots, q) == []
  {
    if slots != [] {
      NonCandidateRowJoinsNothing(c, slots[1..], q);
    }
  }

  /** A candidate and two interviewers all free in the same hour: the
      search returns that hour twice, once per interviewer. */
  lemma TwoInterviewersSameHourGiveTwoRows(candidate: UserId, first: UserId, second: UserId, hour: Instant)
    requires candidate != first && candidate != second && first != second
    ensures var c := Agenda(Some(1), Some(candidate), Some(hour), Some(hour + SecondsPerHour));
            var a := Agenda(Some(2), Some(first), Some(hour), Some(hour + SecondsPerHour));
            var b := Agenda(Some(3), Some(second), Some(hour), Some(hour + SecondsPerHour));
            SearchAvailability([c, a, b], SearchQuery(Some(candidate), [Some(first), Some(second)], hour, hour + SecondsPerHour))
              == [a, b]
  {
    var c := Agenda(Some(1), Some(candidate), Some(hour), Some(hour + SecondsPerHour));
    var a := Agenda(Some(2), Some(first), Some(hour), Some(hour + SecondsPerHour));
    var b := Agenda(Some(3), Some(second), Some(hour), Some(hour + SecondsPerHour));
    var q := SearchQuery(Some(candidate), [Some(first), Some(second)], hour, hour + SecondsPerHour);
    var store := [c, a, b];
    assert store[1..] == [a, b] && [a, b][1..] == [b] && [b][1..] == [];
    assert JoinMatch(c, a, q) && JoinMatch(c, b, q) && !JoinMatch(c, c, q);
    assert RowsFor(c, [b], q) == [b];
    assert RowsFor(c, [a, b], q) == [a] + [b];
    assert RowsFor(c, store, q) == [a, b];
    NonCandidateRowJoinsNothing(a, store, q);
    NonCandidateRowJoinsNothing(b, store, q);
    assert JoinRows([b], store, q) == [];
    assert JoinRows([a, b], store, q) == [];
  }

  /** Candidate free Monday and Tuesday 09:00-10:00, interviewer A free on
      Monday and B on Tuesday at the same hour: searching from Monday 00:00 to
      Wednesday 00:00 for both interviewers gives A's Monday slot and B's
      Tuesday slot. */
  lemma MondayAndTuesdayScenario(candidate: UserId, a: UserId, b: UserId, monday: Instant)
    requires candidate != a && candidate != b && a != b
    ensures var nine := monday + 9 * SecondsPerHour;
            var tuesday := nine + SecondsPerDay;
            var cMon := Agenda(Some(1), Some(candidate), Some(nine), Some(nine + SecondsPerHour));
            var cTue := Agenda(Some(2), Some(candidate), Some(tuesday), Some(tuesday + SecondsPerHour));
            var aMon := Agenda(Some(3), Some(a), Some(nine), Some(nine + SecondsPerHour));
            var bTue := Agenda(Some(4), Some(b), Some(tuesday), Some(tuesday + SecondsPerHour));
            SearchAvailability([cMon, cTue, aMon, bTue],
                               SearchQuery(Some(candidate), [Some(a), Some(b)], monday, monday + 2 * SecondsPerDay))
              == [aMon, bTue]
  {
    var nine := monday + 9 * SecondsPerHour;
    var tuesday := nine + SecondsPerDay;
    var cMon := Agenda(Some(1), Some(candidate), Some(nine), Some(nine + SecondsPerHour));
    var cTue := Agenda(Some(2), Some(candidate), Some(tuesday), Some(tuesday + SecondsPerHour));
    var aMon := Agenda(Some(3), Some(a), Some(nine), Some(nine + SecondsPerHour));
    var bTue := Agenda(Some(4), Some(b), Some(tuesday), Some(tuesday + SecondsPerHour));
    var q := SearchQuery(Some(candidate), [Some(a), Some(b)], monday, monday + 2 * SecondsPerDay);
    var store := [cMon, cTue, aMon, bTue];
    assert store[1..] == [cTue, aMon, bTue] && [cTue, aMon, bTue][1..] == [aMon, bTue];
    assert [aMon, bTue][1..] == [bTue] && [bTue][1..] == [];
    assert !JoinMatch(cMon, cMon, q) && !JoinMatch(cMon, cTue, q) && JoinMatch(cMon, aMon, q) && !JoinMatch(cMon, bTue, q);
    assert !JoinMatch(cTue, cMon, q) && !JoinMatch(cTue, cTue, q) && !JoinMatch(cTue, aMon, q) && JoinMatch(cTue, bTue, q);
    assert RowsFor(cMon, [bTue], q) == [];
    assert RowsFor(cMon, [aMon, bTue], q) == [aMon];
    assert RowsFor(cMon, [cTue, aMon, bTue], q) == [aMon];
    assert RowsFor(cMon, store, q) == [aMon];
    assert RowsFor(cTue, [bTue], q) == [bTue];
    assert RowsFor(cTue, [aMon, bTue], q) == [bTue];
    assert RowsFor(cTue, [cTue, aMon, bTue], q) == [bTue];
    assert RowsFor(cTue, store, q) == [bTue];
    NonCandidateRowJoinsNothing(aMon, store, q);
    NonCandidateRowJoinsNothing(bTue, store, q);
    assert JoinRows([bTue], store, q) == [];
    assert JoinRows([aMon, bTue], store, q) == [];
    assert JoinRows([cTue, aMon, bTue], store, q) == [bTue];
  }

  /** `a` is `user`'s slot from `start` to one hour later. */
  predicate HourSlotOf(a: Agenda, user: UserId, start: Instant)
  {
    a.userId == Some(user) && a.start == Some(start) && a.end == Some(start + SecondsPerHour)
  }

  /** The slot lies within `[from, to]`. */
  predicate Within(a: Agenda, from: Instant, to: Instant)
  {
    a.start.Some? && a.end.Some? && from <= a.start.value && a.end.value <= to
  }

  /** Carl's slots in the end-to-end scenario, counting from Monday 00:00:
      09:00 to 10:00 on every weekday, and 10:00 to 12:00 on Wednesday cut
      into two hours. */
  predicate CarlsSlot(a: Agenda, carl: UserId, monday: Instant)
  {
    || HourSlotOf(a, carl, monday + 9 * SecondsPerHour)
    || HourSlotOf(a, carl, monday + SecondsPerDay + 9 * SecondsPerHour)
    || HourSlotOf(a, carl, monday + 2 * SecondsPerDay + 10 * SecondsPerHour)
    || HourSlotOf(a, carl, monday + 2 * SecondsPerDay + 11 * SecondsPerHour)
    || HourSlotOf(a, carl, monday + 3 * SecondsPerDay + 9 * SecondsPerHour)
    || HourSlotOf(a, carl, monday + 4 * SecondsPerDay + 9 * SecondsPerHour)
  }

  /** Ingrid's periods in the end-to-end scenario: 12:00 to 18:00 on Monday
      and Wednesday, 09:00 to 12:00 on Tuesday and Thursday. */
  predicate InIngridsPeriods(a: Agenda, monday: Instant)
  {
    || Within(a, monday + 12 * SecondsPerHour, monday + 18 * SecondsPerHour)
    || Within(a, monday + SecondsPerDay + 9 * SecondsPerHour, monday + SecondsPerDay + 12 * SecondsPerHour)
    || Within(a, monday + 2 * SecondsPerDay + 12 * SecondsPerHour, monday + 2 * SecondsPerDay + 18 * SecondsPerHour)
    || Within(a, monday + 3 * SecondsPerDay + 9 * SecondsPerHour, monday + 3 * SecondsPerDay + 12 * SecondsPerHour)
  }

  /** The search of the end-to-end scenario: candidate Carl against
      interviewers Ingrid and Ines, from Monday 09:00 to Friday 18:00, where
      Carl's rows are his hour slots, Ingrid's rows lie in her periods and
      Ines has none.  Carl and Ingrid are both free from 09:00 to 10:00 on
      Tuesday and on Thursday, so those two slots of Ingrid's are returned
      (the result is not empty), and nothing else is: every returned row is
      one of them.  Other users' rows, such as David's, may be stored. */
  lemma CarlIngridInesSearch(store: seq<Agenda>, carl: UserId, ingrid: UserId, ines: UserId, monday: Instant,
                             carlTue: Agenda, carlThu: Agenda, ingridTue: Agenda, ingridThu: Agenda)
    requires carlTue in store && carlThu in store && ingridTue in store && ingridThu in store
    requires HourSlotOf(carlTue, carl, monday + SecondsPerDay + 9 * SecondsPerHour)
    requires HourSlotOf(carlThu, carl, monday + 3 * SecondsPerDay + 9 * SecondsPerHour)
    requires HourSlotOf(ingridTue, ingrid, monday + SecondsPerDay + 9 * SecondsPerHour)
    requires HourSlotOf(ingridThu, ingrid, monday + 3 * SecondsPerDay + 9 * SecondsPerHour)
    requires forall a :: a in store && a.userId == Some(carl) ==> CarlsSlot(a, carl, monday)
    requires forall a :: a in store && a.userId == Some(ingrid) ==> InIngridsPeriods(a, monday)
    requires forall a :: a in store ==> a.userId != Some(ines)
    ensures var q := SearchQuery(Some(carl), [Some(ingrid), Some(ines)],
                                 monday + 9 * SecondsPerHour, monday + 4 * SecondsPerDay + 18 * SecondsPerHour);
            && ingridTue in SearchAvailability(store, q)
            && ingridThu in SearchAvailability(store, q)
            && forall x :: x in SearchAvailability(store, q) ==>
                 || HourSlotOf(x, ingrid, monday + SecondsPerDay + 9 * SecondsPerHour)
                 || HourSlotOf(x, ingrid, monday + 3 * SecondsPerDay + 9 * SecondsPerHour)
  {
    var q := SearchQuery(Some(carl), [Some(ingrid), Some(ines)],
                         monday + 9 * SecondsPerHour, monday + 4 * SecondsPerDay + 18 * SecondsPerHour);
    assert JoinMatch(carlTue, ingridTue, q);
    assert JoinMatch(carlThu, ingridThu, q);
    SearchRowsAreMatchedInterviewerSlots(store, q, ingridTue);
    SearchRowsAreMatchedInterviewerSlots(store, q, ingridThu);
    forall x | x in SearchAvailability(store, q)
      ensures || HourSlotOf(x, ingrid, monday + SecondsPerDay + 9 * SecondsPerHour)
              || HourSlotOf(x, ingrid, monday + 3 * SecondsPerDay + 9 * SecondsPerHour)
    {
      SearchRowsAreMatchedInterviewerSlots(store, q, x);
      var c :| c in store && JoinMatch(c, x, q);
      assert CarlsSlot(c, carl, monday);
      assert x.userId == Some(ingrid);
      assert InIngridsPeriods(x, monday);
    }
  }

  /** `Sort.by("start")` ascending; a missing start sorts first. */
  predicate StartsNoLater(a: Agenda, b: Agenda)
  {
    a.start.None? || (b.start.Some? && a.start.value <= b.start.value)
  }

  predicate SortedByStart(rows: seq<Agenda>)
  {
    forall i, j :: 0 <= i < j < |rows| ==> StartsNoLater(rows[i], rows[j])
  }

  function Insert(x: Agenda, rows: seq<Agenda>): (r: seq<Agenda>)
    requires SortedByStart(rows)
    ensures SortedByStart(r)
    ensures multiset(r) == multiset(rows) + multiset{x}
  {
    if rows == [] then [x]
    else if StartsNoLater(x, rows[0]) then [x] + rows
    else
      var tail := Insert(x, rows[1..]);
      assert rows == [rows[0]] + rows[1..];
      InsertedAfterHead(x, rows, tail);
      [rows[0]] + tail
  }

  /** What an insertion behind the head leaves sorted. */
  lemma InsertedAfterHead(x: Agenda, rows: seq<Agenda>, tail: seq<Agenda>)
    requires rows != [] && SortedByStart(rows) && !StartsNoLater(x, rows[0])
    requires SortedByStart(tail) && multiset(tail) == multiset(rows[1..]) + multiset{x}
    ensures SortedByStart([rows[0]] + tail)
  {
    forall j | 0 <= j < |tail| ensures StartsNoLater(rows[0], tail[j]) {
      assert tail[j] in multiset(tail);
      if tail[j] != x {
        assert tail[j] in multiset(rows[1..]);
        var k :| 0 <= k < |rows[1..]| && rows[1..][k] == tail[j];
        assert rows[k + 1] == tail[j];
      }
    }
  }

  /** The rows ordered by start: a permutation of its input, ascending. */
  function SortByStart(rows: seq<Agenda>): (r: seq<Agenda>)
    ensures SortedByStart(r)
    ensures multiset(r) == multiset(rows)
  {
    if rows == [] then []
    else
      assert rows == [rows[0]] + rows[1..];
      Insert(rows[0], SortByStart(rows[1..]))
  }

  function Min(a: int, b: int): int
  {
    if a <= b then a else b
  }

  /** Page `number` (counted from zero) of `size` rows. */
  function PageOf(rows: seq<Agenda>, number: nat, size: nat): (page: seq<Agenda>)
    ensures |page| == if number * size < |rows| then Min(size, |rows| - number * size) else 0
    ensures forall j :: 0 <= j < |page| ==> page[j] == rows[number * size + j]
  {
    var from := number * size;
    if from >= |rows| then [] else rows[from..Min(|rows|, from + size)]
  }

  /** A page of ordered rows is ordered and takes each row at most as often
      as the rows hold it. */
  lemma PageOfSortedRows(rows: seq<Agenda>, number: nat, size: nat)
    requires SortedByStart(rows)
    ensures SortedByStart(PageOf(rows, number, size))
    ensures multiset(PageOf(rows, number, size)) <= multiset(rows)
  {
    var from := number * size;
    if from < |rows| {
      SliceOfSortedRows(rows, from, Min(|rows|, from + size));
      assert PageOf(rows, number, size) == rows[from..Min(|rows|, from + size)];
    } else {
      assert PageOf(rows, number, size) == [];
    }
  }

  lemma SliceOfSortedRows(rows: seq<Agenda>, from: nat, to: nat)
    requires from <= to <= |rows| && SortedByStart(rows)
    ensures SortedByStart(rows[from..to])
    ensures multiset(rows[from..to]) <= multiset(rows)
  {
    var slice := rows[from..to];
    forall i, j | 0 <= i < j < |slice| ensures StartsNoLater(slice[i], slice[j]) {
      assert slice[i] == rows[from + i] && slice[j] == rows[from + j];
    }
    assert rows == rows[..from] + slice + rows[to..];
  }

  /** Pages `0` to `count - 1`, one after the other. */
  function FirstPages(rows: seq<Agenda>, count: nat, size: nat): seq<Agenda>
  {
    if count == 0 then [] else FirstPages(rows, count - 1, size) + PageOf(rows, count - 1, size)
  }

  /** The pages tile the ordered rows: the first `count` pages are exactly
      the first `count * size` rows, with no row skipped or repeated. */
  lemma {:induction false} PagesTileRows(rows: seq<Agenda>, count: nat, size: nat)
    ensures FirstPages(rows, count, size) == rows[..Min(count * size, |rows|)]
  {
    if count > 0 {
      PagesTileRows(rows, count - 1, size);
      Distribute(count - 1, size);
      NextPage(rows, count - 1, size);
    }
  }

  /** Page `n` continues the rows before it. */
  lemma NextPage(rows: seq<Agenda>, n: nat, size: nat)
    ensures rows[..Min(n * size, |rows|)] + PageOf(rows, n, size) == rows[..Min(n * size + size, |rows|)]
  {
    var from := n * size;
    if from < |rows| {
      var to := Min(from + size, |rows|);
      assert PageOf(rows, n, size) == rows[from..to];
      assert rows[..to] == rows[..from] + rows[from..to];
    }
  }
}
