/** `AgendaServiceImpl`: creating agenda slots one by one, in a batch, or
    from availability periods, and searching the slots a candidate shares
    with a set of interviewers. */
module Service {
  import opened Errors
  import opened Time
  import opened Users
  import opened Agendas
  import opened Validation
  import opened SlotGeneration
  import opened AgendaRepository
  import opened AgendaStore

  /** `exists(Example.of(probe))` with Spring's default matcher: a stored
      row matches when it agrees with the probe on every field the probe
      sets, its id included; a `null` field of the probe matches anything. */
  predicate ExampleMatches(probe: Agenda, row: Agenda)
  {
    && (probe.id.None? || probe.id == row.id)
    && (probe.userId.None? || probe.userId == row.userId)
    && (probe.start.None? || probe.start == row.start)
    && (probe.end.None? || probe.end == row.end)
  }

  predicate ExistsExample(store: seq<Agenda>, probe: Agenda)
  {
    exists row :: row in store && ExampleMatches(probe, row)
  }

  /** `validateAgenda`: the slot must not be stored yet, then it must have
      the shape `validateAvailability` asks for. */
  function ValidateAgenda(store: seq<Agenda>, agendaDto: Agenda): Outcome
  {
    if ExistsExample(store, agendaDto) then Fail(Validation(AlreadyExists))
    else ValidateAvailability(agendaDto.start, agendaDto.end)
  }

  /** What `createAgenda` and every step of `createAgendas` check, in order:
      the user, then that the slot is new, then its shape. */
  function CheckAgenda(users: UserTable, store: seq<Agenda>, agendaDto: Agenda): Outcome
  {
    var user := ValidatesUserInput(users, agendaDto.userId);
    if user.Fail? then user else ValidateAgenda(store, agendaDto)
  }

  function AgendaChecks(users: UserTable, store: seq<Agenda>, agendaDtos: seq<Agenda>): (checks: seq<Outcome>)
    ensures |checks| == |agendaDtos|
    ensures forall i :: 0 <= i < |agendaDtos| ==> checks[i] == CheckAgenda(users, store, agendaDtos[i])
  {
    seq(|agendaDtos|, i requires 0 <= i < |agendaDtos| => CheckAgenda(users, store, agendaDtos[i]))
  }

  /** The validation loop of `createAgendas`: every slot is checked against
      the store as it was before the batch, stopping at the first failure. */
  function CheckAgendas(users: UserTable, store: seq<Agenda>, agendaDtos: seq<Agenda>): Outcome
  {
    FirstFailure(AgendaChecks(users, store, agendaDtos))
  }

  /** A slot as the service stores it: a known owner, both ends present, on
      the hour and in order (its id is not looked at). */
  predicate Stored(users: UserTable, a: Agenda)
  {
    && a.userId.Some? && a.userId.value in users
    && a.start.Some? && a.end.Some?
    && WellShaped(a.start.value, a.end.value)
  }

  /** For a probe with owner, start and end set, the example query asks
      whether some row holds that slot under any id when the probe has no
      id, and whether that very row (same id, same slot) is stored when it
      has one. */
  lemma ExampleOfCompleteSlotIsMembership(store: seq<Agenda>, probe: Agenda)
    requires probe.userId.Some? && probe.start.Some? && probe.end.Some?
    ensures probe.id.None? ==> (ExistsExample(store, probe) <==> HoldsSlot(store, probe))
    ensures probe.id.Some? ==> (ExistsExample(store, probe) <==> probe in store)
  {
    if probe.id.Some? && probe in store {
      assert ExampleMatches(probe, probe);
    }
    if probe.id.None? {
      if HoldsSlot(store, probe) {
        var a :| a in store && WithoutId(a) == WithoutId(probe);
        assert ExampleMatches(probe, a);
      }
      if ExistsExample(store, probe) {
        var a :| a in store && ExampleMatches(probe, a);
        assert WithoutId(a) == WithoutId(probe);
      }
    }
  }

  /** A slot passes the checks exactly when it is well formed, its owner is
      known and the example query finds nothing: for a slot without an id,
      no row holds the same owner, start and end; for a slot with an id, that
      exact row is not stored.  The errors come in the order user,
      duplicate, shape. */
  lemma CheckAgendaMeaning(users: UserTable, store: seq<Agenda>, agendaDto: Agenda)
    ensures CheckAgenda(users, store, agendaDto).Pass? <==>
            && Stored(users, agendaDto)
            && (agendaDto.id.None? ==> !HoldsSlot(store, agendaDto))
            && (agendaDto.id.Some? ==> agendaDto !in store)
    ensures agendaDto.userId.None? ==> CheckAgenda(users, store, agendaDto) == Fail(IllegalArgument)
    ensures agendaDto.userId.Some? && agendaDto.userId.value !in users ==> CheckAgenda(users, store, agendaDto) == Fail(NotFound)
    ensures agendaDto.userId.Some? && agendaDto.userId.value in users && ExistsExample(store, agendaDto) ==>
              CheckAgenda(users, store, agendaDto) == Fail(Validation(AlreadyExists))
    ensures agendaDto.userId.Some? && agendaDto.userId.value in users && !ExistsExample(store, agendaDto) ==>
              CheckAgenda(users, store, agendaDto) == ValidateAvailability(agendaDto.start, agendaDto.end)
  {
    if agendaDto.userId.Some? && agendaDto.start.Some? && agendaDto.end.Some? {
      ExampleOfCompleteSlotIsMembership(store, agendaDto);
    }
  }

  /** A slot with a missing start or end, of a user who already owns any
      stored slot, is reported as a duplicate: the example query ignores the
      missing fields and the duplicate check runs before the shape check. */
  lemma IncompleteSlotOfBusyUserIsDuplicate(users: UserTable, store: seq<Agenda>, user: UserId, other: Agenda)
    requires user in users && other in store && other.userId == Some(user)
    ensures CheckAgenda(users, store, Agenda(None, Some(user), None, None)) == Fail(Validation(AlreadyExists))
  {
    assert ExampleMatches(Agenda(None, Some(user), None, None), other);
  }

  /** Once a slot without an id is saved, creating it again fails as a
      duplicate, and so does creating the stored row under the id it was
      given. */
  lemma RepublishIsDuplicate(users: UserTable, t: Table, agendaDto: Agenda)
    requires Stored(users, agendaDto) && agendaDto.id.None?
    ensures var s := Save(t, agendaDto);
            && CheckAgenda(users, s.table.rows, agendaDto) == Fail(Validation(AlreadyExists))
            && CheckAgenda(users, s.table.rows, s.row) == Fail(Validation(AlreadyExists))
  {
    var s := Save(t, agendaDto);
    assert s.row in s.table.rows;
    CheckAgendaMeaning(users, s.table.rows, agendaDto);
    CheckAgendaMeaning(users, s.table.rows, s.row);
  }

  /** A slot that carries an id no row has passes the duplicate check even
      when its owner, start and end are already stored, and saving it
      stores a second copy under a fresh id. */
  lemma UnknownIdStoresCopy(users: UserTable, t: Table, agendaDto: Agenda)
    requires WellNumbered(t)
    requires Stored(users, agendaDto) && agendaDto.id.Some? && !HasId(t.rows, agendaDto.id.value)
    ensures CheckAgenda(users, t.rows, agendaDto) == Pass
    ensures Save(t, agendaDto).table.rows == t.rows + [agendaDto.(id := Some(t.nextId))]
  {
    CheckAgendaMeaning(users, t.rows, agendaDto);
    SaveInsertsOrReplaces(t, agendaDto);
  }

  /** A well-formed slot that carries the id of a stored row with another
      owner, start or end passes the checks, and saving it overwrites that
      row in place: the table does not grow. */
  lemma KnownIdOverwritesRow(users: UserTable, t: Table, agendaDto: Agenda, k: nat)
    requires WellNumbered(t)
    requires Stored(users, agendaDto) && k < |t.rows| && t.rows[k].id == agendaDto.id && t.rows[k] != agendaDto
    ensures CheckAgenda(users, t.rows, agendaDto) == Pass
    ensures Save(t, agendaDto).table == Table(t.rows[k := agendaDto], t.nextId)
  {
    CheckAgendaMeaning(users, t.rows, agendaDto);
    assert HasId(t.rows, agendaDto.id.value);
    SaveInsertsOrReplaces(t, agendaDto);
    var s := Save(t, agendaDto);
    assert s.table.rows == t.rows[k := agendaDto];
  }

  /** Two identical slots in one batch are both accepted: each is checked
      against the store as it was before the batch, not against its
      predecessor in the batch. */
  lemma BatchDuplicatesAccepted(users: UserTable, store: seq<Agenda>, agendaDto: Agenda)
    requires CheckAgenda(users, store, agendaDto).Pass?
    ensures CheckAgendas(users, store, [agendaDto, agendaDto]).Pass?
  {
    FirstFailurePassesIffAll(AgendaChecks(users, store, [agendaDto, agendaDto]));
  }

  /** Once the owner and the periods have passed, the slots expanded from the
      periods can only fail as duplicates, and they do exactly when a row
      already holds one of them. */
  lemma ExpandedSlotsFailOnlyAsDuplicates(users: UserTable, store: seq<Agenda>, userId: Option<UserId>,
                                          periods: seq<AvailabilityDto>)
    requires ValidatesUserInput(users, userId).Pass?
    requires forall i :: 0 <= i < |periods| ==> ValidPeriod(periods[i])
    ensures forall i :: 0 <= i < |periods| ==> Complete(periods[i])
    ensures var slots := ExpandPeriods(periods, userId);
            CheckAgendas(users, store, slots) ==
              if exists x :: x in slots && HoldsSlot(store, x) then Fail(Validation(AlreadyExists)) else Pass
  {
    var slots := ExpandPeriods(periods, userId);
    var checks := AgendaChecks(users, store, slots);
    ExpandedSlotsAreValid(periods, userId);
    ExpandPeriodsAreHourSlots(periods, userId);
    forall i | 0 <= i < |slots|
      ensures checks[i] == if HoldsSlot(store, slots[i]) then Fail(Validation(AlreadyExists)) else Pass
    {
      assert slots[i] in slots;
      CheckAgendaMeaning(users, store, slots[i]);
    }
    if exists x :: x in slots && HoldsSlot(store, x) {
      var x :| x in slots && HoldsSlot(store, x);
      var k :| 0 <= k < |slots| && slots[k] == x;
      FirstFailurePassesIffAll(checks);
      FirstFailureHasWitness(checks);
    } else {
      FirstFailurePassesIffAll(checks);
    }
  }

  /** The request of `getAvailability`, with the page it asks for. */
  datatype SearchInterviewsAvailability = SearchInterviewsAvailability(
    candidateId: Option<UserId>,
    interviewerIds: Option<seq<Option<UserId>>>,
    startingFrom: Option<Instant>,
    endingAt: Option<Instant>,
    pageNumber: nat,
    pageSize: nat)

  /** The three checks `getAvailability` runs before the query, in order. */
  predicate SearchInputValid(users: UserTable, search: SearchInterviewsAvailability)
  {
    && ValidatesUserInputWithUserType(users, search.candidateId, Candidate).Pass?
    && ValidatesUsersInputWithUserType(users, search.interviewerIds, Interviewer).Pass?
    && ValidatesPeriodInput(search.startingFrom, search.endingAt).Pass?
  }

  /** The query parameters bound from a validated request. */
  function QueryOf(search: SearchInterviewsAvailability): SearchQuery
    requires search.interviewerIds.Some? && search.startingFrom.Some? && search.endingAt.Some?
  {
    SearchQuery(search.candidateId, search.interviewerIds.value, search.startingFrom.value, search.endingAt.value)
  }

  /** A slot `getAvailability` may offer for a validated request: a stored
      slot of one of the requested interviewers (so not the candidate's own),
      touching the window, with the same hours as a stored slot of the
      candidate. */
  predicate OfferedSlot(users: UserTable, store: seq<Agenda>, search: SearchInterviewsAvailability, x: Agenda)
  {
    && search.interviewerIds.Some? && search.startingFrom.Some? && search.endingAt.Some?
    && x in store
    && x.userId.Some? && x.userId in search.interviewerIds.value
    && x.userId.value in users && users[x.userId.value] == Interviewer
    && x.userId != search.candidateId
    && TouchesWindow(x, search.startingFrom.value, search.endingAt.value)
    && exists c :: c in store && JoinMatch(c, x, QueryOf(search))
  }

  class AgendaService {
    /** The user repository, read only. */
    const users: UserTable
    /** The rows of the agenda table. */
    var store: seq<Agenda>
    /** The next value of the id generator. */
    var nextId: AgendaId

    /** Every stored row has its own id and was accepted by the service's
        checks. */
    ghost predicate Valid()
      reads this
    {
      && WellNumbered(Table(store, nextId))
      && forall a :: a in store ==> Stored(users, a)
    }

    constructor (users: UserTable, firstId: AgendaId)
      ensures this.users == users && store == [] && nextId == firstId && Valid()
    {
      this.users := users;
      store := [];
      nextId := firstId;
    }

    /** `createAgenda`: check, then save one slot and return it as stored. */
    method CreateAgenda(agendaDto: Agenda) returns (r: Result<Agenda>)
      requires Valid()
      modifies this
      ensures Valid()
      ensures CheckAgenda(users, old(store), agendaDto).Pass? ==>
                var s := Save(Table(old(store), old(nextId)), agendaDto);
                r == Ok(s.row) && store == s.table.rows && nextId == s.table.nextId
      ensures CheckAgenda(users, old(store), agendaDto).Pass? && agendaDto.id.None? ==>
                store == old(store) + [agendaDto.(id := Some(old(nextId)))]
      ensures CheckAgenda(users, old(store), agendaDto).Fail? ==>
                r == Err(CheckAgenda(users, old(store), agendaDto).error) && store == old(store) && nextId == old(nextId)
    {
      var user := ValidatesUserInput(users, agendaDto.userId);
      if user.Fail? {
        return Err(user.error);
      }
      var agenda := ValidateAgenda(store, agendaDto);
      if agenda.Fail? {
        return Err(agenda.error);
      }
      CheckAgendaMeaning(users, store, agendaDto);
      var s := Save(Table(store, nextId), agendaDto);
      SaveInsertsOrReplaces(Table(store, nextId), agendaDto);
      store, nextId := s.table.rows, s.table.nextId;
      r := Ok(s.row);
    }

    /** `createAgendas`: check every slot against the store as it is, then
        save them one after the other and return them as stored, in input
        order.  A failure anywhere saves nothing. */
    method CreateAgendas(agendaDtos: seq<Agenda>) returns (r: Result<seq<Agenda>>)
      requires Valid()
      modifies this
      ensures Valid()
      ensures CheckAgendas(users, old(store), agendaDtos).Pass? ==>
                var s := SaveAll(Table(old(store), old(nextId)), agendaDtos);
                r == Ok(s.rows) && store == s.table.rows && nextId == s.table.nextId
      ensures CheckAgendas(users, old(store), agendaDtos).Pass? && (forall i :: 0 <= i < |agendaDtos| ==> agendaDtos[i].id.None?) ==>
                && r == Ok(Numbered(agendaDtos, old(nextId)))
                && store == old(store) + Numbered(agendaDtos, old(nextId))
                && nextId == old(nextId) + |agendaDtos|
      ensures CheckAgendas(users, old(store), agendaDtos).Fail? ==>
                r == Err(CheckAgendas(users, old(store), agendaDtos).error) && store == old(store) && nextId == old(nextId)
    {
      var i := 0;
      while i < |agendaDtos|
        invariant 0 <= i <= |agendaDtos|
        invariant forall j :: 0 <= j < i ==> CheckAgenda(users, store, agendaDtos[j]).Pass?
      {
        var user := ValidatesUserInput(users, agendaDtos[i].userId);
        if user.Fail? {
          FirstFailureIsFirst(AgendaChecks(users, store, agendaDtos), i);
          return Err(user.error);
        }
        var agenda := ValidateAgenda(store, agendaDtos[i]);
        if agenda.Fail? {
          FirstFailureIsFirst(AgendaChecks(users, store, agendaDtos), i);
          return Err(agenda.error);
        }
        i := i + 1;
      }
      FirstFailurePassesIffAll(AgendaChecks(users, store, agendaDtos));
      forall a | a in agendaDtos ensures Stored(users, a) {
        CheckAgendaMeaning(users, store, a);
      }
      var s := SaveAll(Table(store, nextId), agendaDtos);
      SaveAllKeepsNumbering(Table(store, nextId), agendaDtos);
      if forall i :: 0 <= i < |agendaDtos| ==> agendaDtos[i].id.None? {
        SaveAllNewAppends(Table(store, nextId), agendaDtos);
      }
      store, nextId := s.table.rows, s.table.nextId;
      r := Ok(s.rows);
    }

    /** `createAvailability`: check the owner, then every period (failing on
        the first bad one), then expand the periods into one-hour slots and
        create them as a batch.  Nothing is stored unless every check passes
        and no expanded slot is stored yet; then the slots are stored under
        consecutive fresh ids. */
    method CreateAvailability(userId: Option<UserId>, availabilities: seq<AvailabilityDto>) returns (r: Result<seq<Agenda>>)
      requires Valid()
      modifies this
      ensures Valid()
      ensures ValidatesUserInput(users, userId).Fail? ==>
                r == Err(ValidatesUserInput(users, userId).error) && store == old(store) && nextId == old(nextId)
      ensures ValidatesUserInput(users, userId).Pass? && ValidateAvailabilities(availabilities).Fail? ==>
                r == Err(ValidateAvailabilities(availabilities).error) && store == old(store) && nextId == old(nextId)
      ensures ValidatesUserInput(users, userId).Pass? && ValidateAvailabilities(availabilities).Pass? ==>
                && (forall i :: 0 <= i < |availabilities| ==> Complete(availabilities[i]))
                && var slots := ExpandPeriods(availabilities, userId);
                   if exists x :: x in slots && HoldsSlot(old(store), x)
                   then r == Err(Validation(AlreadyExists)) && store == old(store) && nextId == old(nextId)
                   else && r == Ok(Numbered(slots, old(nextId)))
                        && store == old(store) + Numbered(slots, old(nextId))
                        && nextId == old(nextId) + |slots|
    {
      var user := ValidatesUserInput(users, userId);
      if user.Fail? {
        return Err(user.error);
      }
      var periods := ValidateAvailabilities(availabilities);
      if periods.Fail? {
        return Err(periods.error);
      }
      ValidateAvailabilitiesPassesIffAllValid(availabilities);
      ExpandedSlotsFailOnlyAsDuplicates(users, store, userId, availabilities);
      var agendaDtos := GetAgendaDtosFromAvailabilities(availabilities, userId);
      ExpandPeriodsAreHourSlots(availabilities, userId);
      assert forall i :: 0 <= i < |agendaDtos| ==> agendaDtos[i].id.None? by {
        forall i | 0 <= i < |agendaDtos| ensures agendaDtos[i].id.None? {
          assert agendaDtos[i] in agendaDtos;
        }
      }
      SaveAllNewAppends(Table(store, nextId), agendaDtos);
      r := CreateAgendas(agendaDtos);
    }

    /** `getAvailability`: check the candidate, the interviewers and the
        window, in that order, then return the requested page of the
        interviewer slots that match a candidate slot, ordered by start. */
    function GetAvailability(search: SearchInterviewsAvailability): (r: Result<seq<Agenda>>)
      reads this
      ensures r.Ok? <==> SearchInputValid(users, search)
      ensures ValidatesUserInputWithUserType(users, search.candidateId, Candidate).Fail? ==>
                r == Err(ValidatesUserInputWithUserType(users, search.candidateId, Candidate).error)
      ensures ValidatesUserInputWithUserType(users, search.candidateId, Candidate).Pass? &&
              ValidatesUsersInputWithUserType(users, search.interviewerIds, Interviewer).Fail? ==>
                r == Err(ValidatesUsersInputWithUserType(users, search.interviewerIds, Interviewer).error)
      ensures ValidatesUserInputWithUserType(users, search.candidateId, Candidate).Pass? &&
              ValidatesUsersInputWithUserType(users, search.interviewerIds, Interviewer).Pass? &&
              ValidatesPeriodInput(search.startingFrom, search.endingAt).Fail? ==>
                r == Err(ValidatesPeriodInput(search.startingFrom, search.endingAt).error)
      ensures r.Ok? ==>
                && |r.value| <= search.pageSize
                && SortedByStart(r.value)
                && exists rows :: SortedByStart(rows) &&
                                  multiset(rows) == multiset(SearchAvailability(store, QueryOf(search))) &&
                                  r.value == PageOf(rows, search.pageNumber, search.pageSize)
      ensures r.Ok? ==> forall x :: x in r.value ==> OfferedSlot(users, store, search, x)
    {
      var candidate := ValidatesUserInputWithUserType(users, search.candidateId, Candidate);
      if candidate.Fail? then Err(candidate.error)
      else
        var interviewers := ValidatesUsersInputWithUserType(users, search.interviewerIds, Interviewer);
        if interviewers.Fail? then Err(interviewers.error)
        else
          var period := ValidatesPeriodInput(search.startingFrom, search.endingAt);
          if period.Fail? then Err(period.error)
          else
            var rows := SortByStart(SearchAvailability(store, QueryOf(search)));
            var page := PageOf(rows, search.pageNumber, search.pageSize);
            SearchPageFacts(users, store, search, rows, page);
            Ok(page)
    }
  }

  /** An interviewer who submits the same slot twice in one batch gets it
      stored twice, under ids 1 and 2; creating it once more afterwards fails
      as a duplicate. */
  method DuplicateSlotScenario()
  {
    var service := new AgendaService(map[7 := Interviewer], 1);
    var slot := HourSlot(Some(7), 9 * SecondsPerHour);
    var first, second := slot.(id := Some(1)), slot.(id := Some(2));
    CheckAgendaMeaning(service.users, service.store, slot);
    BatchDuplicatesAccepted(service.users, service.store, slot);
    var batch := service.CreateAgendas([slot, slot]);
    assert Numbered([slot, slot], 1) == [first, second];
    assert batch == Ok([first, second]) && service.store == [first, second];

    CheckAgendaMeaning(service.users, service.store, slot);
    assert WithoutId(first) == WithoutId(slot);
    var again := service.CreateAgenda(slot);
    assert again == Err(Validation(AlreadyExists)) && service.store == [first, second];
  }

  /** A slot that carries an id no row has is stored again under a fresh id
      although the same slot is stored; a slot that carries the id of a
      stored row overwrites that row. */
  method SuppliedIdScenario()
  {
    var service := new AgendaService(map[7 := Interviewer], 1);
    var slot := HourSlot(Some(7), 9 * SecondsPerHour);
    CheckAgendaMeaning(service.users, service.store, slot);
    var created := service.CreateAgenda(slot);
    var first := slot.(id := Some(1));
    assert created == Ok(first) && service.store == [first];

    var unknown := slot.(id := Some(99));
    UnknownIdStoresCopy(service.users, Table(service.store, service.nextId), unknown);
    var copy := service.CreateAgenda(unknown);
    var second := slot.(id := Some(2));
    assert copy == Ok(second) && service.store == [first, second];

    var moved := HourSlot(Some(7), 11 * SecondsPerHour).(id := Some(1));
    KnownIdOverwritesRow(service.users, Table(service.store, service.nextId), moved, 0);
    var overwritten := service.CreateAgenda(moved);
    assert overwritten == Ok(moved) && service.store == [moved, second];
  }

  /** What every row of the search result is, once the request has passed
      its checks: a stored slot of one of the requested interviewers that
      lies in the window and has the same hours as a slot of the candidate. */
  lemma SearchRowFacts(users: UserTable, store: seq<Agenda>, search: SearchInterviewsAvailability, x: Agenda)
    requires SearchInputValid(users, search)
    requires x in SearchAvailability(store, QueryOf(search))
    ensures OfferedSlot(users, store, search, x)
  {
    UsersCheckPassesIffAllHaveType(users, search.interviewerIds, Interviewer);
    SearchRowsAreMatchedInterviewerSlots(store, QueryOf(search), x);
    var ids := search.interviewerIds.value;
    var k :| 0 <= k < |ids| && ids[k] == x.userId;
  }

  /** A page of the ordered join rows is ordered, and each of its rows is a
      join row. */
  lemma SearchPageFacts(users: UserTable, store: seq<Agenda>, search: SearchInterviewsAvailability,
                        rows: seq<Agenda>, page: seq<Agenda>)
    requires SearchInputValid(users, search)
    requires SortedByStart(rows) && multiset(rows) == multiset(SearchAvailability(store, QueryOf(search)))
    requires page == PageOf(rows, search.pageNumber, search.pageSize)
    ensures SortedByStart(page)
    ensures forall x :: x in page ==> OfferedSlot(users, store, search, x)
  {
    PageOfSortedRows(rows, search.pageNumber, search.pageSize);
    forall x | x in page ensures OfferedSlot(users, store, search, x) {
      assert x in multiset(page);
      assert x in multiset(SearchAvailability(store, QueryOf(search)));
      SearchRowFacts(users, store, search, x);
    }
  }
}
