/** The two records the availability engine moves around.  The JPA entity
    `Agenda` and its transfer object `AgendaDto` carry the same four nullable
    fields (the mapper copies `id`, `start` and `end` by name and maps
    `userId` to `user.id`), so one datatype stands for both. */
module Agendas {
  import opened Errors
  import opened Time
  import opened Users

  /** The generated key of an agenda row. */
  type AgendaId = int

  /** One slot of availability of one user; `id` is absent until the row is
      saved, and a caller may also supply one. */
  datatype Agenda = Agenda(id: Option<AgendaId>, userId: Option<UserId>, start: Option<Instant>, end: Option<Instant>)

  /** A caller-supplied period of free time, read as UTC. */
  datatype AvailabilityDto = AvailabilityDto(start: Option<Instant>, end: Option<Instant>)

  /** The slot `[start, start + 1h)` of a user, as the expansion builds it:
      without an id. */
  function HourSlot(userId: Option<UserId>, start: Instant): Agenda
  {
    Agenda(None, userId, Some(start), Some(start + SecondsPerHour))
  }

  /** The same slot with its id dropped. */
  function WithoutId(a: Agenda): Agenda
  {
    a.(id := None)
  }
}
