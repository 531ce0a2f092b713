# Interview calendar: the availability engine

A model of the part of the interview calendar API that turns availability
into one-hour agenda slots and searches the slots a candidate and a set of
interviewers have in common.

- **Users.** Users are a fixed table from id to role (`CANDIDATE` or
  `INTERVIEWER`). A missing id is an `IllegalArgumentException`. An unknown
  id, or an id with the wrong role, is a `NotFoundException`. A list of ids
  is checked id by id and stops at the first that throws.
- **Slot shape.** A slot or period needs both ends, on minute 00, with the
  start not after the end. A request's periods are checked in order, and the
  first bad one decides the error.
- **Expansion.** A period is cut into one-hour slots by a cursor. The cursor
  starts at the period's start and moves one hour at a time while it is
  before the period's end.
- **Creation.** Each slot is checked: the user first, then that no stored
  row matches it (Spring's example query), then its shape. A batch is saved
  only when every slot passes. Each slot is checked against the store as it
  was before the batch.
- **Saving.** A slot without an id is inserted under the next value of the
  id generator. A slot with an id is merged: it overwrites the row with that
  id, or, when no row has it, is inserted under the next generated id. A
  batch is saved one slot after the other.
- **Search.** The search validates the candidate, the interviewers and the
  window (at most five whole days). It then runs the self-join of the agenda
  table: an interviewer slot is returned once per candidate slot with the
  same start and end, when both touch the window. The rows are ordered by
  start and cut into the requested page.

Instants are whole seconds since the epoch, read in UTC. A Java `null` is
`None`. An exception is an `Error` value. The agenda entity and its transfer
object are one datatype with four nullable fields: the mapper copies `id`,
`start` and `end` by name and maps `userId` to `user.id`. `AgendaService`
is a class whose agenda table is a sequence field and whose id generator is
a counter field; its creating methods save into them.

Modules:

- `Errors`: exceptions, and the fail-fast fold that the `forEach` validation
  loops perform.
- `Time`: the minute of the hour, and whole days between two instants.
- `Users`: the user checks.
- `Agendas`: the records.
- `AgendaStore`: what `save` and `saveAll` do to the agenda table.
- `Validation`: the slot, period and window checks.
- `SlotGeneration`: the expansion, as a function and as the service's loop.
- `AgendaRepository`: the search query, the ordering and the paging.
- `Service`: the service class and the lemmas about creating slots.

### Behaviour of the code worth knowing

- **Missing period bound.** `validateAvailabilities` converts each period
  bound with `OffsetDateTime.of(..., UTC)` before `validateAvailability`
  runs its null check (AgendaServiceImpl.java:137-141). A missing bound
  therefore throws a `NullPointerException`. The unit test at
  AgendaServiceImplTest.java:391-415 expects an `IllegalArgumentException`,
  but only because it mocks `validateAvailabilities` to throw one; the real
  method is not run there (`PeriodCheck`).
- **Search window width.** The window check compares whole days, truncated
  toward zero, and fails only when they exceed five (AgendaServiceImpl.java:167-170,
  whose message reads "shouldn't be greater than 5 days"). So a window
  fails only when it spans six days or more: five days and 23 hours
  passes. The unit test at AgendaServiceImplTest.java:599-605 uses a window
  of seven days and 23 hours. A reversed window passes as well
  (`ValidatesPeriodInput`).
- **Duplicates in one batch.** The comment at AgendaServiceImpl.java:114-116
  says `createAgendas` will catch duplicates inside the expanded list; it
  does not, because each slot is checked against the table as it was
  before the batch (AgendaServiceImpl.java:59-62). Two identical slots in
  one batch are both stored (`BatchDuplicatesAccepted`,
  `DuplicateSlotScenario`).
- **Example query and missing fields.** The example query ignores a probe's
  missing fields. A slot with no start and no end, from a user who owns any
  slot, is reported as a duplicate, not as an illegal argument
  (`IncompleteSlotOfBusyUserIsDuplicate`).
- **Caller-supplied ids.** The example query also matches the id. A slot
  that carries an id no row has passes the duplicate check even when the
  same owner, start and end are stored, and a second copy is saved under a
  fresh id (`UnknownIdStoresCopy`). A slot that carries the id of a stored
  row overwrites that row (`KnownIdOverwritesRow`, `SuppliedIdScenario`).
- **Slot shape.** A zero-length slot is accepted, and the seconds of a bound
  are not looked at.

## Model

| member | source | states |
|---|---|---|
| Errors.FirstFailurePassesIffAll | src/main/java/com/github/saleco/interview/calendar/api/agenda/service/AgendaServiceImpl.java:59-62 | a `forEach` of throwing checks completes exactly when every check passes |
| Errors.FirstFailureIsFirst | src/main/java/com/github/saleco/interview/calendar/api/agenda/service/AgendaServiceImpl.java:59-62 | when check k is the first to throw, the loop throws check k's error; later elements are never looked at |
| Errors.FirstFailureHasWitness | src/main/java/com/github/saleco/interview/calendar/api/agenda/service/AgendaServiceImpl.java:59-62 | a throwing loop throws the error of some element all of whose predecessors passed |
| Errors.FirstFailure | src/main/java/com/github/saleco/interview/calendar/api/agenda/service/AgendaServiceImpl.java:59-62 | the fail-fast `forEach` over throwing checks; the contract is stated by `Errors.FirstFailurePassesIffAll`, `Errors.FirstFailureIsFirst` and `Errors.FirstFailureHasWitness` |
| Time.MinuteOfHour | src/main/java/com/github/saleco/interview/calendar/api/agenda/service/AgendaServiceImpl.java:147 | the minute of the hour lies in 0..59 and, with the seconds, makes up the offset within the hour |
| Time.TruncDiv | src/main/java/com/github/saleco/interview/calendar/api/agenda/service/AgendaServiceImpl.java:167 | division rounding toward zero: the quotient brackets the dividend from below for non-negative dividends and from above for negative ones |
| Time.DaysUntil | src/main/java/com/github/saleco/interview/calendar/api/agenda/service/AgendaServiceImpl.java:167 | the number of complete days between two instants, signed, a partial day dropped toward zero |
| Time.MinuteOfHourAfterHours | src/main/java/com/github/saleco/interview/calendar/api/agenda/service/AgendaServiceImpl.java:124-128 | moving a time by whole hours keeps its minute of the hour |
| Users.ValidatesUserInput | src/main/java/com/github/saleco/interview/calendar/api/agenda/service/AgendaServiceImpl.java:156-162 | passes iff the id is given and known; a missing id is IllegalArgument; an unknown id is NotFound |
| Users.ValidatesUserInputWithUserType | src/main/java/com/github/saleco/interview/calendar/api/agenda/service/AgendaServiceImpl.java:180-186 | passes iff the id is given, known and has the role; a missing id is IllegalArgument; an unknown id or a wrong role is NotFound |
| Users.ValidatesUsersInputWithUserType | src/main/java/com/github/saleco/interview/calendar/api/agenda/service/AgendaServiceImpl.java:174-178 | a missing list is IllegalArgument, else each id is checked in turn; the contract is stated by `Users.UsersCheckPassesIffAllHaveType` and `Users.UsersCheckFailsAtFirstBadId` |
| Users.UsersCheckPassesIffAllHaveType | src/main/java/com/github/saleco/interview/calendar/api/agenda/service/AgendaServiceImpl.java:174-178 | the list check passes iff the list is given and every id in it is a known user of the role; an empty list passes |
| Users.UsersCheckFailsAtFirstBadId | src/main/java/com/github/saleco/interview/calendar/api/agenda/service/AgendaServiceImpl.java:174-178 | the list check throws for the first bad id: IllegalArgument for a missing one, NotFound otherwise |
| Validation.ValidateAvailability | src/main/java/com/github/saleco/interview/calendar/api/agenda/service/AgendaServiceImpl.java:143-154 | passes iff both ends are present, on minute 00, start not after end; each error case holds exactly when earlier checks pass and its own condition fails |
| Validation.PeriodCheck | src/main/java/com/github/saleco/interview/calendar/api/agenda/service/AgendaServiceImpl.java:137-141 | a period with a missing bound throws NullPointer, else the slot shape check; the contract is stated by `Validation.ValidateAvailabilitiesFailsAtFirstInvalid` |
| Validation.ValidateAvailabilities | src/main/java/com/github/saleco/interview/calendar/api/agenda/service/AgendaServiceImpl.java:137-141 | the periods checked in order, failing on the first bad one; the contract is stated by `Validation.ValidateAvailabilitiesPassesIffAllValid` and `Validation.ValidateAvailabilitiesFailsAtFirstInvalid` |
| Validation.ValidateAvailabilitiesPassesIffAllValid | src/main/java/com/github/saleco/interview/calendar/api/agenda/service/AgendaServiceImpl.java:137-141 | a request's periods pass iff every period has both bounds, on the hour, in order |
| Validation.ValidateAvailabilitiesFailsAtFirstInvalid | src/main/java/com/github/saleco/interview/calendar/api/agenda/service/AgendaServiceImpl.java:137-141 | the periods check throws the error of the first invalid period, NullPointer for a missing bound |
| Validation.ValidatesPeriodInput | src/main/java/com/github/saleco/interview/calendar/api/agenda/service/AgendaServiceImpl.java:164-172 | passes iff both bounds are present and the end lies less than six days after the start; missing bound is IllegalArgument; six days or more is PeriodTooLong |
| SlotGeneration.GetAgendaDtosFromAvailabilities | src/main/java/com/github/saleco/interview/calendar/api/agenda/service/AgendaServiceImpl.java:120-135 | the nested cursor loop returns exactly the slots of the periods, period after period, hour after hour |
| SlotGeneration.ExpandPeriods | src/main/java/com/github/saleco/interview/calendar/api/agenda/service/AgendaServiceImpl.java:120-135 | the slots of the periods, period after period; the contract is stated by `SlotGeneration.GetAgendaDtosFromAvailabilities`, `SlotGeneration.ExpandPeriodsAppend` and `SlotGeneration.ExpandPeriodsAreHourSlots` |
| SlotGeneration.ExpandFromShape | src/main/java/com/github/saleco/interview/calendar/api/agenda/service/AgendaServiceImpl.java:124-131 | a period gives its length in hours rounded up slots, slot k starting k hours after the period's start and lasting one hour |
| SlotGeneration.WholeHoursPeriod | src/test/java/com/github/saleco/interview/calendar/api/agenda/service/AgendaServiceImplTest.java:554-566 | a period of n whole hours gives n contiguous slots, the last ending at the period's end |
| SlotGeneration.PartialHourOverruns | src/main/java/com/github/saleco/interview/calendar/api/agenda/service/AgendaServiceImpl.java:124-128 | a period that is not a whole number of hours gives one slot more than its whole hours, the last running past the end by less than an hour |
| SlotGeneration.EmptyPeriodGivesNoSlots | src/main/java/com/github/saleco/interview/calendar/api/agenda/service/AgendaServiceImpl.java:124 | a period whose start is not before its end gives no slot |
| SlotGeneration.ExpandPeriodsAppend | src/main/java/com/github/saleco/interview/calendar/api/agenda/service/AgendaServiceImpl.java:123-132 | expanding two lists of periods one after the other gives the concatenation of their slots |
| SlotGeneration.ExpandPeriodsAreHourSlots | src/main/java/com/github/saleco/interview/calendar/api/agenda/service/AgendaServiceImpl.java:125-130 | every expanded slot is new (no id), belongs to the given user and lasts exactly one hour |
| SlotGeneration.ExpandedSlotsAreValid | src/main/java/com/github/saleco/interview/calendar/api/agenda/service/AgendaServiceImpl.java:109-112 | every slot expanded from validated periods passes the slot shape check itself |
| SlotGeneration.FiveDaysNineToFour | src/test/java/com/github/saleco/interview/calendar/api/InteviewCalendarAPIIT.java:66-90 | five days from 09:00 to 16:00 give 35 slots; slots 0, 6, 7, 13, 28 and 34 are 09:00 and 15:00 on day one, 09:00 and 15:00 on day two, and 09:00 and 15:00 on day five |
| AgendaRepository.JoinMatch | src/main/java/com/github/saleco/interview/calendar/api/agenda/repository/AgendaRepository.java:14-22 | a candidate row and an interviewer row join when they have the same start and end, the candidate row is the requested candidate's, the interviewer row a requested interviewer's, and both touch the window; the contract is stated by `AgendaRepository.SearchRowsAreMatchedInterviewerSlots` |
| AgendaRepository.SearchAvailability | src/main/java/com/github/saleco/interview/calendar/api/agenda/repository/AgendaRepository.java:14-22 | the self-join of the agenda table; the contract is stated by `AgendaRepository.SearchRowsAreMatchedInterviewerSlots` and `AgendaRepository.SearchRowsOnePerPair` |
| AgendaRepository.SearchRowsAreMatchedInterviewerSlots | src/main/java/com/github/saleco/interview/calendar/api/agenda/repository/AgendaRepository.java:14-22 | a slot is a search row iff it is stored, its owner is a requested interviewer, it touches the window, and a stored candidate slot in the window has the same start and end |
| AgendaRepository.SearchRowsOnePerPair | src/main/java/com/github/saleco/interview/calendar/api/agenda/repository/AgendaRepository.java:14-18 | the inner join returns an interviewer slot once per matching candidate slot per stored copy of it |
| AgendaRepository.EmptyWindowGivesNoRows | src/main/java/com/github/saleco/interview/calendar/api/agenda/repository/AgendaRepository.java:21-22 | a reversed window, or one no slot touches, gives no rows |
| AgendaRepository.NoInterviewersGivesNoRows | src/main/java/com/github/saleco/interview/calendar/api/agenda/repository/AgendaRepository.java:20 | an empty interviewer list gives no rows |
| AgendaRepository.NonCandidateRowJoinsNothing | src/main/java/com/github/saleco/interview/calendar/api/agenda/repository/AgendaRepository.java:19 | a slot not owned by the requested candidate contributes no rows |
| AgendaRepository.TwoInterviewersSameHourGiveTwoRows | src/main/java/com/github/saleco/interview/calendar/api/agenda/repository/AgendaRepository.java:14-22 | a candidate hour matched by two requested interviewers gives both interviewers' slots, and not the candidate's own |
| AgendaRepository.MondayAndTuesdayScenario | src/main/java/com/github/saleco/interview/calendar/api/agenda/repository/AgendaRepository.java:14-22 | example: a candidate free 09:00-10:00 on Monday and Tuesday, one interviewer free at that hour on Monday and another on Tuesday: the two-day search returns exactly those two interviewer slots |
| AgendaRepository.CarlIngridInesSearch | src/test/java/com/github/saleco/interview/calendar/api/InteviewCalendarAPIIT.java:145-162 | candidate Carl and interviewers Ingrid and Ines, Monday 09:00 to Friday 18:00, with Carl's rows his hour slots, Ingrid's rows within her periods and no rows of Ines: the result holds Ingrid's Tuesday and Thursday 09:00-10:00 slots (it is not empty) and every row returned is one of those two |
| AgendaRepository.Insert | src/main/java/com/github/saleco/interview/calendar/api/agenda/service/AgendaServiceImpl.java:90 | inserting into rows ordered by start keeps them ordered and adds exactly that row |
| AgendaRepository.SortByStart | src/main/java/com/github/saleco/interview/calendar/api/agenda/service/AgendaServiceImpl.java:90 | the sort by `start` is ordered and a permutation of its input; a missing start sorts first |
| AgendaRepository.PageOf | src/main/java/com/github/saleco/interview/calendar/api/agenda/service/AgendaServiceImpl.java:89-90 | page n of size s holds rows n*s onward, at most s of them, none past the end |
| AgendaRepository.PageOfSortedRows | src/main/java/com/github/saleco/interview/calendar/api/agenda/service/AgendaServiceImpl.java:89-90 | a page of ordered rows is ordered and draws only on the rows |
| AgendaRepository.PagesTileRows | src/main/java/com/github/saleco/interview/calendar/api/agenda/service/AgendaServiceImpl.java:89-90 | the first k pages together are exactly the first k*s rows: no row skipped or repeated |
| AgendaStore.IndexOfId | src/main/java/com/github/saleco/interview/calendar/api/agenda/model/Agenda.java:21-23 | finds a row with the given id exactly when one exists |
| AgendaStore.Save | src/main/java/com/github/saleco/interview/calendar/api/agenda/service/AgendaServiceImpl.java:51-52 | `save`: insert under the next id, or merge over the row with the entity's id; the contract is stated by `AgendaStore.SaveInsertsOrReplaces` |
| AgendaStore.SaveInsertsOrReplaces | src/main/java/com/github/saleco/interview/calendar/api/agenda/service/AgendaServiceImpl.java:51-52 | a save of an entity without an id, or with an id no row has, appends it under the next generated id; a save with a stored id replaces exactly that row and leaves the generator alone; either way the stored row is the entity up to its id, every other row is kept and ids stay distinct |
| AgendaStore.SaveAll | src/main/java/com/github/saleco/interview/calendar/api/agenda/service/AgendaServiceImpl.java:64-66 | `saveAll`: the saves one after the other, returning the stored rows in order; the contract is stated by `AgendaStore.SaveAllNewAppends` and `AgendaStore.SaveAllKeepsNumbering` |
| AgendaStore.Numbered | src/main/java/com/github/saleco/interview/calendar/api/agenda/model/Agenda.java:21-23 | the entities in order under consecutive ids from a given one |
| AgendaStore.SaveAllNewAppends | src/main/java/com/github/saleco/interview/calendar/api/agenda/service/AgendaServiceImpl.java:64-66 | saving entities none of which has an id appends them in order under consecutive fresh ids and returns them so numbered |
| AgendaStore.SaveAllKeepsNumbering | src/main/java/com/github/saleco/interview/calendar/api/agenda/service/AgendaServiceImpl.java:64-66 | after a `saveAll` ids stay distinct and below the generator, and every row is an old row or one of the entities up to its id |
| Service.ExampleMatches | src/main/java/com/github/saleco/interview/calendar/api/agenda/service/AgendaServiceImpl.java:71-72 | a stored row matches the example of a slot when it agrees with every field the slot sets, its id included; the contract is stated by `Service.ExampleOfCompleteSlotIsMembership` and `Service.CheckAgendaMeaning` |
| Service.ValidateAgenda | src/main/java/com/github/saleco/interview/calendar/api/agenda/service/AgendaServiceImpl.java:70-77 | AlreadyExists when the example query finds a row, else the slot shape check; the contract is stated by `Service.CheckAgendaMeaning` |
| Service.CheckAgenda | src/main/java/com/github/saleco/interview/calendar/api/agenda/service/AgendaServiceImpl.java:48-49 | the user check, then `validateAgenda`; the contract is stated by `Service.CheckAgendaMeaning` |
| Service.CheckAgendas | src/main/java/com/github/saleco/interview/calendar/api/agenda/service/AgendaServiceImpl.java:59-62 | the batch validation loop, each slot against the table as it was; the contract is stated by `Service.BatchDuplicatesAccepted`, `Service.ExpandedSlotsFailOnlyAsDuplicates` and `Service.AgendaService.CreateAgendas` |
| Service.CheckAgendaMeaning | src/main/java/com/github/saleco/interview/calendar/api/agenda/service/AgendaServiceImpl.java:44-77 | a slot passes iff it is well formed, its owner is known, and, without an id, no row holds its owner, start and end, or, with an id, that exact row is not stored; the errors come in the order user, duplicate, shape |
| Service.ExampleOfCompleteSlotIsMembership | src/main/java/com/github/saleco/interview/calendar/api/agenda/service/AgendaServiceImpl.java:70-72 | for a slot with owner, start and end set, the example query asks whether some row holds that slot under any id when the slot has no id, and whether that very row is stored when it has one |
| Service.IncompleteSlotOfBusyUserIsDuplicate | src/main/java/com/github/saleco/interview/calendar/api/agenda/service/AgendaServiceImpl.java:70-76 | a slot with no id, no start and no end, from a user who owns a stored slot, is reported as AlreadyExists |
| Service.RepublishIsDuplicate | src/main/java/com/github/saleco/interview/calendar/api/agenda/service/AgendaServiceImpl.java:70-74 | once a slot without an id is saved, creating it again throws AlreadyExists, and so does creating the stored row under its new id |
| Service.UnknownIdStoresCopy | src/main/java/com/github/saleco/interview/calendar/api/agenda/service/AgendaServiceImpl.java:48-52 | a well-formed slot carrying an id no row has passes the checks, and saving it appends a copy under the next generated id |
| Service.KnownIdOverwritesRow | src/main/java/com/github/saleco/interview/calendar/api/agenda/service/AgendaServiceImpl.java:48-52 | a well-formed slot carrying the id of a different stored row passes the checks, and saving it overwrites that row without growing the table |
| Service.BatchDuplicatesAccepted | src/main/java/com/github/saleco/interview/calendar/api/agenda/service/AgendaServiceImpl.java:55-67 | a new slot given twice in one batch passes the batch checks |
| Service.ExpandedSlotsFailOnlyAsDuplicates | src/main/java/com/github/saleco/interview/calendar/api/agenda/service/AgendaServiceImpl.java:103-118 | after the owner and period checks pass, the batch fails iff a row already holds one of the expanded slots, and only with AlreadyExists |
| Service.AgendaService.constructor | src/main/java/com/github/saleco/interview/calendar/api/agenda/service/AgendaServiceImpl.java:39-42 | a new service has the given users, an empty agenda table and the given first id |
| Service.AgendaService.CreateAgenda | src/main/java/com/github/saleco/interview/calendar/api/agenda/service/AgendaServiceImpl.java:44-53 | a passing slot is saved (inserted, or merged over the row with its id) and returned as stored; a new slot is appended under the next id; a failing one throws the check's error and leaves table and generator unchanged; stored rows keep distinct ids and stay well formed |
| Service.AgendaService.CreateAgendas | src/main/java/com/github/saleco/interview/calendar/api/agenda/service/AgendaServiceImpl.java:55-67 | when every slot passes against the old table, they are saved one after the other and returned as stored, in order; new slots are appended under consecutive ids; otherwise the first failure's error is thrown and nothing is stored |
| Service.AgendaService.CreateAvailability | src/main/java/com/github/saleco/interview/calendar/api/agenda/service/AgendaServiceImpl.java:103-118 | the owner error, then the first period error, then AlreadyExists if a row already holds an expanded slot; otherwise exactly the expanded slots are appended under consecutive fresh ids and returned |
| Service.AgendaService.GetAvailability | src/main/java/com/github/saleco/interview/calendar/api/agenda/service/AgendaServiceImpl.java:79-101 | succeeds iff the candidate, interviewer and window checks pass, else throws the first failing check's error; a result is a page of a start-ordering of the join rows, ordered, and each row is a requested interviewer's stored slot in the window matching a candidate slot |
| Service.SearchRowFacts | src/main/java/com/github/saleco/interview/calendar/api/agenda/repository/AgendaRepository.java:14-22 | every row of a validated search is a stored slot of a requested interviewer, not the candidate's own, in the window, matching a candidate slot |
| Service.SearchPageFacts | src/main/java/com/github/saleco/interview/calendar/api/agenda/service/AgendaServiceImpl.java:89-95 | a page of the ordered join rows is ordered and each of its rows is an offered slot |

## Left out

- The REST controllers, request annotations, exception handler, startup data loader, mappers and logging: they are wiring around the core.
- The timing of the search is left out: it reads the system clock and affects nothing.
- The id generator (`GenerationType.AUTO`) may be shared with other tables, so real ids need not be consecutive; the model keeps its own counter, and only the freshness of a generated id matters to the checks.
- The user table is fixed for the life of a service; creating users is not part of this model.
- The `userType == null` branch of the role checks is not modelled: every caller passes a constant role.
- A `null` list of periods, or a `null` batch, throws a `NullPointerException` in the source; the model takes a sequence, which is never absent.
- `AbstractService.getPageRequest` and `PageableDto` are not part of this model: a page number and size are taken as natural numbers, and their defaults are not modelled.
- The order of rows with equal starts is left open by the database: `GetAvailability` promises only some start ordering of the join rows, not which.
- `PARSEDATETIME` in the join and the conversion of offset date-times to SQL timestamps are read as plain equality and comparison of instants in UTC.
- Nanoseconds and time zones other than UTC: instants are whole seconds in UTC.
- Concurrency and transactions: two requests racing on the same slot are not modelled.
- Saving through the repository cannot fail in the model.
