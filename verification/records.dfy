/** The interaction record of the contact-centre export, before and after the
    store gives it an id, and the raw CSV row it is built from. */
module Records {
  import opened Wrappers

  /** An instant as milliseconds since the epoch, read in the local time zone
      (the source's `Date`). */
  type Instant = int

  const MillisPerSecond: nat := 1000
  const MillisPerMinute: nat := 60000
  const MillisPerHour: nat := 3600000

  /** `getHours()` of an instant, with no daylight-saving shifts. */
  function HourOf(t: Instant): (h: nat)
    ensures h < 24
  {
    (t / MillisPerHour) % 24
  }

  /** An interaction as it is uploaded (`InsertInteraction`): everything but
      the id. `duration` is in milliseconds. */
  datatype Record = Record(
    conversationId: string,
    agent: string,
    customer: string,
    queue: string,
    mediaType: string,
    direction: string,
    duration: int,
    wrapUp: Option<string>,
    flow: Option<string>,
    startTime: Instant,
    endTime: Instant,
    ani: Option<string>,
    dnis: Option<string>)

  /** A stored interaction: a record and the id the store gave it. */
  datatype Interaction = Interaction(id: int, rec: Record)
  {
    function agent(): string { rec.agent }
    function customer(): string { rec.customer }
    function queue(): string { rec.queue }
    function mediaType(): string { rec.mediaType }
    function direction(): string { rec.direction }
    function duration(): int { rec.duration }
    function wrapUp(): Option<string> { rec.wrapUp }
    function flow(): Option<string> { rec.flow }
    function startTime(): Instant { rec.startTime }
    function endTime(): Instant { rec.endTime }
    function conversationId(): string { rec.conversationId }
  }

  /** The columns of the export that the normaliser reads. */
  datatype Column =
    | ConversationId | Date | EndDate | Users | Remote | Queue | MediaType
    | Direction | Duration | WrapUp | Flow | Ani | Dnis

  /** The header text of each column in the export file. */
  function Header(c: Column): string
  {
    match c
    case ConversationId => "Conversation ID"
    case Date => "Date"
    case EndDate => "End Date"
    case Users => "Users"
    case Remote => "Remote"
    case Queue => "Queue"
    case MediaType => "Media Type"
    case Direction => "Direction"
    case Duration => "Duration"
    case WrapUp => "Wrap-up"
    case Flow => "Flow"
    case Ani => "ANI"
    case Dnis => "DNIS"
  }

  /** One CSV line as the header-mode parser hands it over: column to cell
      text; a column missing from a short line is absent. */
  type RawRow = map<Column, string>

  /** JavaScript truthiness of an optional string: present and non-empty. */
  predicate Truthy(v: Option<string>)
  {
    v.Some? && v.value != ""
  }

  /** `x || null` on a nullable string: the empty string becomes null. */
  function NullIfEmpty(v: Option<string>): (r: Option<string>)
    ensures r.Some? <==> Truthy(v)
    ensures r.Some? ==> r == v
  {
    if Truthy(v) then v else None
  }
}
