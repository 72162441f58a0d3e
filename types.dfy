/**
 * The deadline record as the web client sees it (src/types/deadline.ts).
 * Timestamps are integer milliseconds since the epoch; their ISO-8601 text
 * form is not modelled.
 */
module DeadlineTypes {
  import opened Wrappers

  datatype Priority = High | Medium | Low

  datatype Status = Pending | Completed

  /** One deadline in the wire format of the REST service. */
  datatype Deadline = Deadline(
    id: string,
    title: string,
    description: Option<string>,
    due_date: int,
    priority: Priority,
    status: Status,
    user_id: string,
    created_at: int,
    updated_at: int)

  /** The string literal of a priority in the TypeScript union and on the wire. */
  function PriorityName(p: Priority): string
  {
    match p
    case High => "high"
    case Medium => "medium"
    case Low => "low"
  }

  function StatusName(s: Status): string
  {
    match s
    case Pending => "pending"
    case Completed => "completed"
  }

  /** Reads a priority literal; anything outside the union is refused. */
  function ParsePriority(s: string): (r: Option<Priority>)
    ensures r.Some? <==> s in {"high", "medium", "low"}
    ensures r.Some? ==> PriorityName(r.value) == s
  {
    if s == "high" then Some(High)
    else if s == "medium" then Some(Medium)
    else if s == "low" then Some(Low)
    else None
  }

  function ParseStatus(s: string): (r: Option<Status>)
    ensures r.Some? <==> s in {"pending", "completed"}
    ensures r.Some? ==> StatusName(r.value) == s
  {
    if s == "pending" then Some(Pending)
    else if s == "completed" then Some(Completed)
    else None
  }

  lemma PriorityNameRoundTrip(p: Priority)
    ensures ParsePriority(PriorityName(p)) == Some(p)
  {
  }

  lemma StatusNameRoundTrip(s: Status)
    ensures ParseStatus(StatusName(s)) == Some(s)
  {
  }
}
