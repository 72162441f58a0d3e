/**
 * The per-user deadline table behind the REST handlers
 * (server/src/routes/deadlines.ts). The table is a map from id to row; every
 * handler is scoped to the authenticated user, and a row of another user
 * answers exactly like a missing one. Ids, creation times and date parsing
 * come from the database and the runtime, so they are parameters here.
 */
module DeadlineRoutes {
  import opened Wrappers
  import opened DeadlineTypes
  import opened DeadlineSchemas

  /** A row of the deadline table, with the persistence layer's column names. */
  datatype Row = Row(
    id: string,
    title: string,
    description: Option<string>,
    dueDate: int,
    priority: Priority,
    status: Status,
    userId: string,
    createdAt: int,
    updatedAt: int)

  /**
   * The response body every handler builds from a row. It loses nothing:
   * the row can be read back from it.
   */
  function ToResponse(r: Row): (d: Deadline)
    ensures FromResponse(d) == r
    ensures d.id == r.id && d.user_id == r.userId
  {
    Deadline(
      id := r.id, title := r.title, description := r.description, due_date := r.dueDate,
      priority := r.priority, status := r.status, user_id := r.userId,
      created_at := r.createdAt, updated_at := r.updatedAt)
  }

  function FromResponse(d: Deadline): Row
  {
    Row(d.id, d.title, d.description, d.due_date, d.priority, d.status, d.user_id, d.created_at, d.updated_at)
  }

  const NotFoundMessage: string := "Deadline not found"

  /** Errors the handlers pass on to the application's error handler. */
  datatype HandlerError =
    | ValidationFailed(issues: seq<Issue>)
    | InvalidDate(text: string)

  datatype Response =
    | Listed(items: seq<Deadline>)
    | Found(deadline: Deadline)
    | Created(deadline: Deadline)
    | Updated(deadline: Deadline)
    | Deleted
    | NotFound(error: string)
    | Failed(cause: HandlerError)

  /**
   * The HTTP status a handler answers with: 201 for a creation, 204 for a
   * deletion, 404 for a missing or foreign row, 200 for any other success;
   * None where the error handler decides.
   */
  function StatusCode(r: Response): (code: Option<int>)
    ensures code.Some? <==> !r.Failed?
    ensures code == Some(201) <==> r.Created?
    ensures code == Some(204) <==> r.Deleted?
    ensures code == Some(404) <==> r.NotFound?
    ensures code == Some(200) <==> r.Listed? || r.Found? || r.Updated?
  {
    match r
    case Listed(_) => Some(200)
    case Found(_) => Some(200)
    case Created(_) => Some(201)
    case Updated(_) => Some(200)
    case Deleted => Some(204)
    case NotFound(_) => Some(404)
    case Failed(_) => None
  }

  // ------------------------------------------------------------ create row

  /**
   * The row the create handler inserts: an empty or missing description is
   * stored as null, a missing status as pending, and the row belongs to the
   * caller.
   */
  function NewRow(id: string, userId: string, data: CreateData, due: int, now: int): (r: Row)
    ensures r.id == id && r.userId == userId && r.dueDate == due
    ensures r.title == data.title && r.priority == data.priority
    ensures r.description.None? <==> data.description.None? || data.description.value == ""
    ensures r.description.Some? ==> r.description == data.description
    ensures r.status == Completed <==> data.status == Some(Completed)
    ensures r.createdAt == now && r.updatedAt == now
  {
    Row(
      id := id,
      title := data.title,
      description := if data.description.Some? && data.description.value != "" then data.description else None,
      dueDate := due,
      priority := data.priority,
      status := if data.status.Some? then data.status.value else Pending,
      userId := userId,
      createdAt := now,
      updatedAt := now)
  }

  // ------------------------------------------------------------ update patch

  /** The columns an update may set, one optional value each; Some(None) clears the description. */
  datatype Patch = Patch(
    title: Option<string>,
    description: Option<Option<string>>,
    dueDate: Option<int>,
    priority: Option<Priority>,
    status: Option<Status>)

  /** The fields a patch sets. */
  function PatchFields(p: Patch): set<Field>
  {
    (if p.title.Some? then {TitleField} else {})
    + (if p.description.Some? then {DescriptionField} else {})
    + (if p.dueDate.Some? then {DueDateField} else {})
    + (if p.priority.Some? then {PriorityField} else {})
    + (if p.status.Some? then {StatusField} else {})
  }

  /** The fields an update payload supplies. */
  function GivenFields(d: UpdateData): set<Field>
  {
    (if d.title.Some? then {TitleField} else {})
    + (if !d.description.Absent? then {DescriptionField} else {})
    + (if d.due_date.Some? then {DueDateField} else {})
    + (if d.priority.Some? then {PriorityField} else {})
    + (if d.status.Some? then {StatusField} else {})
  }

  /** The editable fields on which two rows differ. */
  function ChangedFields(r: Row, r': Row): set<Field>
  {
    (if r.title != r'.title then {TitleField} else {})
    + (if r.description != r'.description then {DescriptionField} else {})
    + (if r.dueDate != r'.dueDate then {DueDateField} else {})
    + (if r.priority != r'.priority then {PriorityField} else {})
    + (if r.status != r'.status then {StatusField} else {})
  }

  /**
   * The row after the database applies a patch: every field the patch sets
   * takes the patch's value, and nothing else changes.
   */
  function ApplyPatch(r: Row, p: Patch): (r': Row)
    ensures r'.id == r.id && r'.userId == r.userId && r'.createdAt == r.createdAt && r'.updatedAt == r.updatedAt
    ensures ChangedFields(r, r') <= PatchFields(p)
    ensures p.title.Some? ==> r'.title == p.title.value
    ensures p.description.Some? ==> r'.description == p.description.value
    ensures p.dueDate.Some? ==> r'.dueDate == p.dueDate.value
    ensures p.priority.Some? ==> r'.priority == p.priority.value
    ensures p.status.Some? ==> r'.status == p.status.value
  {
    r.(
      title := if p.title.Some? then p.title.value else r.title,
      description := if p.description.Some? then p.description.value else r.description,
      dueDate := if p.dueDate.Some? then p.dueDate.value else r.dueDate,
      priority := if p.priority.Some? then p.priority.value else r.priority,
      status := if p.status.Some? then p.status.value else r.status)
  }

  /**
   * A patched field ends with the patch's value whatever the row held: after
   * the same patch two rows differ exactly in the fields they differed in
   * before and the patch does not set.
   */
  lemma ApplyPatchOverrides(r1: Row, r2: Row, p: Patch)
    ensures ChangedFields(ApplyPatch(r1, p), ApplyPatch(r2, p)) == ChangedFields(r1, r2) - PatchFields(p)
  {
  }

  /** Applying the same patch twice is the same as applying it once. */
  lemma ApplyPatchIdempotent(r: Row, p: Patch)
    ensures ApplyPatch(ApplyPatch(r, p), p) == ApplyPatch(r, p)
  {
  }

  /**
   * The updateData object built from the parsed payload, where `due` is the
   * timestamp of the payload's due date, if any.
   */
  function PatchOf(d: UpdateData, due: Option<int>): (p: Patch)
    requires d.due_date.Some? <==> due.Some?
    ensures PatchFields(p) == GivenFields(d)
    ensures p.title == d.title && p.dueDate == due && p.priority == d.priority && p.status == d.status
    ensures d.description.Nulled? ==> p.description == Some(None)
    ensures d.description.Given? ==> p.description == Some(Some(d.description.value))
  {
    Patch(
      d.title,
      match d.description
      case Absent => None
      case Nulled => Some(None)
      case Given(s) => Some(Some(s)),
      due, d.priority, d.status)
  }

  // ------------------------------------------------------------ listing order

  /** 0 for the status the database lists first, 1 for the other. */
  function StatusOrder(s: Status, first: Status): nat
  {
    if s == first then 0 else 1
  }

  /** `a` may be listed before `b`: status first, then due date ascending. */
  predicate ListedBefore(a: Deadline, b: Deadline, first: Status)
  {
    || StatusOrder(a.status, first) < StatusOrder(b.status, first)
    || (StatusOrder(a.status, first) == StatusOrder(b.status, first) && a.due_date <= b.due_date)
  }

  ghost predicate ListOrdered(s: seq<Deadline>, first: Status)
  {
    forall i, j :: 0 <= i < j < |s| ==> ListedBefore(s[i], s[j], first)
  }

  /** Places x before the first element it may be listed before. */
  function InsertListed(s: seq<Deadline>, x: Deadline, first: Status): (r: seq<Deadline>)
    ensures multiset(r) == multiset(s) + multiset{x}
  {
    if s == [] then [x]
    else if ListedBefore(x, s[0], first) then [x] + s
    else
      assert s == [s[0]] + s[1..];
      [s[0]] + InsertListed(s[1..], x, first)
  }

  /** Putting in front an element that may be listed before every other keeps the order. */
  lemma PrependOrdered(x: Deadline, s: seq<Deadline>, first: Status)
    requires ListOrdered(s, first)
    requires forall k :: 0 <= k < |s| ==> ListedBefore(x, s[k], first)
    ensures ListOrdered([x] + s, first)
  {
    var r := [x] + s;
    forall i, j | 0 <= i < j < |r|
      ensures ListedBefore(r[i], r[j], first)
    {
      if i > 0 { assert r[i] == s[i - 1] && r[j] == s[j - 1]; }
    }
  }

  lemma {:induction false} InsertListedOrdered(s: seq<Deadline>, x: Deadline, first: Status)
    requires ListOrdered(s, first)
    ensures ListOrdered(InsertListed(s, x, first), first)
    decreases |s|
  {
    if s == [] {
    } else if ListedBefore(x, s[0], first) {
      forall k | 0 <= k < |s|
        ensures ListedBefore(x, s[k], first)
      {
        if k > 0 { assert ListedBefore(s[0], s[k], first); }
      }
      PrependOrdered(x, s, first);
    } else {
      var tail := s[1..];
      assert ListOrdered(tail, first);
      InsertListedOrdered(tail, x, first);
      var rest := InsertListed(tail, x, first);
      forall k | 0 <= k < |rest|
        ensures ListedBefore(s[0], rest[k], first)
      {
        assert rest[k] in multiset(rest);
        if rest[k] != x {
          assert rest[k] in multiset(tail);
          var m :| 0 <= m < |tail| && tail[m] == rest[k];
          assert s[m + 1] == rest[k];
        }
      }
      PrependOrdered(s[0], rest, first);
    }
  }

  // ------------------------------------------------------------ the table

  class DeadlineStore {
    var rows: map<string, Row>

    /** Every row is filed under its own id. */
    ghost predicate Valid()
      reads this
    {
      forall id :: id in rows ==> rows[id].id == id
    }

    constructor ()
      ensures Valid() && rows == map[]
    {
      rows := map[];
    }

    /** findFirst with both the id and the owner: None for a missing or foreign id. */
    function Find(id: string, userId: string): (r: Option<Row>)
      reads this
      ensures r.Some? <==> id in rows && rows[id].userId == userId
      ensures r.Some? ==> r.value == rows[id]
    {
      if id in rows && rows[id].userId == userId then Some(rows[id]) else None
    }

    /** The response bodies of the caller's rows whose ids are in `ids`. */
    ghost function OwnedAmong(ids: set<string>, userId: string): set<Deadline>
      reads this
    {
      set id | id in ids && id in rows && rows[id].userId == userId :: ToResponse(rows[id])
    }

    /** The response bodies of all the caller's rows. */
    ghost function OwnedDeadlines(userId: string): set<Deadline>
      reads this
    {
      OwnedAmong(rows.Keys, userId)
    }

    /** Taking one more id into account adds its row, if it is the caller's, once. */
    lemma OwnedAmongOneMore(ids: set<string>, id: string, userId: string)
      requires Valid()
      requires id in rows && id !in ids
      ensures rows[id].userId == userId ==>
        multiset(OwnedAmong(ids + {id}, userId)) == multiset(OwnedAmong(ids, userId)) + multiset{ToResponse(rows[id])}
      ensures rows[id].userId != userId ==> OwnedAmong(ids + {id}, userId) == OwnedAmong(ids, userId)
    {
      var d := ToResponse(rows[id]);
      if rows[id].userId == userId {
        assert d !in OwnedAmong(ids, userId);
        assert OwnedAmong(ids + {id}, userId) == OwnedAmong(ids, userId) + {d};
      }
    }

    /**
     * GET /: every deadline of the caller exactly once and no other, ordered
     * by status and then by due date. `statusFirst` is the status the
     * database's enum order puts first.
     */
    method List(userId: string, statusFirst: Status) returns (resp: Response)
      requires Valid()
      ensures resp.Listed?
      ensures multiset(resp.items) == multiset(OwnedDeadlines(userId))
      ensures ListOrdered(resp.items, statusFirst)
    {
      var items: seq<Deadline> := [];
      var remaining := rows.Keys;
      ghost var seen: set<string> := {};
      while remaining != {}
        invariant remaining <= rows.Keys && seen <= rows.Keys
        invariant seen == rows.Keys - remaining
        invariant multiset(items) == multiset(OwnedAmong(seen, userId))
        invariant ListOrdered(items, statusFirst)
        decreases |remaining|
      {
        var id :| id in remaining;
        OwnedAmongOneMore(seen, id, userId);
        if rows[id].userId == userId {
          var d := ToResponse(rows[id]);
          InsertListedOrdered(items, d, statusFirst);
          items := InsertListed(items, d, statusFirst);
        }
        remaining := remaining - {id};
        seen := seen + {id};
      }
      resp := Listed(items);
    }

    /** GET /:id: the caller's deadline, or 404 for a missing or foreign id. */
    method Get(userId: string, id: string) returns (resp: Response)
      requires Valid()
      ensures resp.Found? <==> id in rows && rows[id].userId == userId
      ensures resp.Found? ==> resp.deadline == ToResponse(rows[id]) && resp.deadline.id == id
      ensures !resp.Found? ==> resp == NotFound(NotFoundMessage)
    {
      var found := Find(id, userId);
      if found.None? {
        resp := NotFound(NotFoundMessage);
        return;
      }
      resp := Found(ToResponse(found.value));
    }

    /**
     * POST /: validates the body, converts its due date, and inserts a new
     * row owned by the caller under the id the database generated.
     */
    method Create(userId: string, body: Body, newId: string, now: int, parseDate: string -> Option<int>)
      returns (resp: Response)
      requires Valid()
      requires newId !in rows
      modifies this
      ensures Valid()
      ensures ParseCreate(body).Failure? ==> resp == Failed(ValidationFailed(ParseCreate(body).error))
      ensures ParseCreate(body).Success? && parseDate(ParseCreate(body).value.due_date).None? ==>
        resp == Failed(InvalidDate(ParseCreate(body).value.due_date))
      ensures resp.Created? <==> ParseCreate(body).Success? && parseDate(ParseCreate(body).value.due_date).Some?
      ensures resp.Created? ==>
        var data := ParseCreate(body).value;
        && rows == old(rows)[newId := NewRow(newId, userId, data, parseDate(data.due_date).value, now)]
        && resp.deadline == ToResponse(rows[newId])
      ensures !resp.Created? ==> resp.Failed? && rows == old(rows)
    {
      var parsed := ParseCreate(body);
      if parsed.Failure? {
        resp := Failed(ValidationFailed(parsed.error));
        return;
      }
      var data := parsed.value;
      var due := parseDate(data.due_date);
      if due.None? {
        resp := Failed(InvalidDate(data.due_date));
        return;
      }
      var row := NewRow(newId, userId, data, due.value, now);
      rows := rows[newId := row];
      resp := Created(ToResponse(row));
    }

    /**
     * PUT /:id: validates the body before looking the row up; a missing or
     * foreign id answers 404; otherwise only the supplied fields are written.
     */
    method Update(userId: string, id: string, body: Body, parseDate: string -> Option<int>)
      returns (resp: Response)
      requires Valid()
      modifies this
      ensures Valid()
      ensures ParseUpdate(body).Failure? ==> resp == Failed(ValidationFailed(ParseUpdate(body).error))
      ensures ParseUpdate(body).Success? && old(Find(id, userId)).None? ==> resp == NotFound(NotFoundMessage)
      ensures
        && ParseUpdate(body).Success? && old(Find(id, userId)).Some?
        && ParseUpdate(body).value.due_date.Some? && parseDate(ParseUpdate(body).value.due_date.value).None?
        ==> resp == Failed(InvalidDate(ParseUpdate(body).value.due_date.value))
      ensures resp.Updated? <==>
        && ParseUpdate(body).Success? && old(Find(id, userId)).Some?
        && (ParseUpdate(body).value.due_date.Some? ==> parseDate(ParseUpdate(body).value.due_date.value).Some?)
      ensures resp.Updated? ==>
        var data := ParseUpdate(body).value;
        var due := if data.due_date.Some? then parseDate(data.due_date.value) else None;
        && rows == old(rows)[id := ApplyPatch(old(rows)[id], PatchOf(data, due))]
        && ChangedFields(old(rows)[id], rows[id]) <= GivenFields(data)
        && resp.deadline == ToResponse(rows[id])
      ensures !resp.Updated? ==> rows == old(rows)
    {
      var parsed := ParseUpdate(body);
      if parsed.Failure? {
        resp := Failed(ValidationFailed(parsed.error));
        return;
      }
      var data := parsed.value;
      var existing := Find(id, userId);
      if existing.None? {
        resp := NotFound(NotFoundMessage);
        return;
      }
      var due: Option<int> := None;
      if data.due_date.Some? {
        due := parseDate(data.due_date.value);
        if due.None? {
          resp := Failed(InvalidDate(data.due_date.value));
          return;
        }
      }
      var updateData := Patch(None, None, None, None, None);
      if data.title.Some? { updateData := updateData.(title := data.title); }
      if !data.description.Absent? {
        updateData := updateData.(description := Some(OptionOf(data.description)));
      }
      if data.due_date.Some? { updateData := updateData.(dueDate := due); }
      if data.priority.Some? { updateData := updateData.(priority := data.priority); }
      if data.status.Some? { updateData := updateData.(status := data.status); }
      assert updateData == PatchOf(data, due);
      var row := ApplyPatch(existing.value, updateData);
      rows := rows[id := row];
      resp := Updated(ToResponse(row));
    }

    /** DELETE /:id: removes the caller's row and no other, or answers 404. */
    method Delete(userId: string, id: string) returns (resp: Response)
      requires Valid()
      modifies this
      ensures Valid()
      ensures old(Find(id, userId)).Some? ==> resp == Deleted && rows == old(rows) - {id}
      ensures old(Find(id, userId)).None? ==> resp == NotFound(NotFoundMessage) && rows == old(rows)
    {
      var existing := Find(id, userId);
      if existing.None? {
        resp := NotFound(NotFoundMessage);
        return;
      }
      rows := rows - {id};
      resp := Deleted;
    }
  }
}
