/**
 * The rows of the store's tables, as typed records (the source reads them as
 * column-name dictionaries).
 */
module Records {
  import opened Wrappers

  /** The `status` column of `events`. */
  datatype EventStatus = New | Pending | Approved | Rejected

  /** The `priority` column of `events`, written by the ingestion and manual-entry paths. */
  datatype Priority = High | Medium

  /**
   * A row of `events`. A column is `None` in rows whose inserting statement does not set it:
   * `priority`, `requiredRank` on the `add_event` path and `isItRelated`, `source` on the
   * `add_new_event` path. `createdAt` is the insertion time.
   */
  datatype Event = Event(
    id: nat,
    title: string,
    description: string,
    dateStr: string,
    location: string,
    url: string,
    aiAnalysis: string,
    score: int,
    isItRelated: Option<int>,
    source: Option<string>,
    status: EventStatus,
    priority: Option<Priority>,
    requiredRank: Option<int>,
    eventDatetime: string,
    createdAt: int)

  /**
   * The columns `add_new_event` is given, in the handlers' argument order; the store adds
   * the id and the insertion time, and leaves `is_it_related` and `source` unset.
   */
  datatype NewEvent = NewEvent(
    title: string,
    description: string,
    location: string,
    dateStr: string,
    url: string,
    aiAnalysis: string,
    score: int,
    priority: Priority,
    requiredRank: int,
    eventDatetime: string,
    status: EventStatus)

  /** The row that `add_new_event` stores for `n` under the key `id`. */
  function Stored(n: NewEvent, id: nat, createdAt: int): Event
  {
    Event(id, n.title, n.description, n.dateStr, n.location, n.url, n.aiAnalysis, n.score, None, None,
          n.status, Some(n.priority), Some(n.requiredRank), n.eventDatetime, createdAt)
  }

  /** `event.get('required_rank', 99)`: a row without a required rank demands rank 99. */
  function RequiredRank(e: Event): int
  {
    e.requiredRank.GetOr(99)
  }

  /** A row of `admins`. */
  datatype Admin = Admin(telegramId: int, username: string, role: string)

  /** A row of `users`: `id` is the internal key, `telegramId` the chat identity. */
  datatype User = User(id: nat, telegramId: int, fullName: string, position: string, status: string)

  /** The status of a registration row. */
  datatype RegStatus = RegPending | RegApproved

  /** A row of the user-event registration table. */
  datatype Registration = Registration(userId: int, eventId: int, status: RegStatus)

  /** The button of the cancel keyboard that every form offers. */
  const CancelButton: string := "❌ Отменить"
}
