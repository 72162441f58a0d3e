/**
 * The request-body validation of the deadline routes (createDeadlineSchema and
 * updateDeadlineSchema in server/src/routes/deadlines.ts). A body is the five
 * known members as JSON values; members the schemas do not name are dropped
 * by the object schema and are not represented. Issues are reported field by
 * field in the order the schema declares the fields.
 */
module DeadlineSchemas {
  import opened Wrappers
  import opened DeadlineTypes

  /** One member of the JSON body: missing, null, a string, or any other JSON value. */
  datatype Json = Undefined | Null | Str(s: string) | OtherValue

  datatype Body = Body(title: Json, description: Json, due_date: Json, priority: Json, status: Json)

  datatype Field = TitleField | DescriptionField | DueDateField | PriorityField | StatusField

  const AllFields: set<Field> := {TitleField, DescriptionField, DueDateField, PriorityField, StatusField}

  datatype Issue =
    | Required(field: Field)
    | InvalidType(field: Field)
    | TooSmall(field: Field, minimum: nat)
    | TooBig(field: Field, maximum: nat)
    | InvalidEnumValue(field: Field)

  /** A parsed member that may be left out, be explicitly null, or carry a value. */
  datatype Presence<+T> = Absent | Nulled | Given(value: T)

  const TitleMax: nat := 200
  const DescriptionMax: nat := 1000

  /** The fields that some issue in the list is about. */
  function FieldsOf(issues: seq<Issue>): set<Field>
  {
    if issues == [] then {} else {issues[0].field} + FieldsOf(issues[1..])
  }

  function IssuesOf<T>(r: Result<T, seq<Issue>>): seq<Issue>
  {
    if r.Failure? then r.error else []
  }

  function LengthIssues(s: string, f: Field, min: nat, max: Option<nat>): (issues: seq<Issue>)
    ensures issues == [] <==> min <= |s| && (max.None? || |s| <= max.value)
    ensures FieldsOf(issues) <= {f}
  {
    var small := if |s| < min then [TooSmall(f, min)] else [];
    var big := if max.Some? && |s| > max.value then [TooBig(f, max.value)] else [];
    FieldsOfConcat(small, big);
    small + big
  }

  /**
   * A string member with a minimum and optional maximum length, possibly
   * optional (undefined accepted) and nullable (null accepted).
   */
  function StringMember(v: Json, f: Field, min: nat, max: Option<nat>, optional: bool, nullable: bool)
    : (r: Result<Presence<string>, seq<Issue>>)
    ensures r.Success? <==>
      || (v.Undefined? && optional)
      || (v.Null? && nullable)
      || (v.Str? && min <= |v.s| && (max.None? || |v.s| <= max.value))
    ensures r.Success? && r.value.Given? ==> v == Str(r.value.value)
    ensures r.Success? && r.value.Absent? ==> v.Undefined?
    ensures r.Success? && r.value.Nulled? ==> v.Null?
    ensures r.Failure? ==> r.error != [] && FieldsOf(r.error) == {f}
  {
    match v
    case Undefined => if optional then Success(Absent) else Failure([Required(f)])
    case Null => if nullable then Success(Nulled) else Failure([InvalidType(f)])
    case Str(s) =>
      var issues := LengthIssues(s, f, min, max);
      if issues == [] then Success(Given(s))
      else
        assert issues[0].field == f;
        Failure(issues)
    case OtherValue => Failure([InvalidType(f)])
  }

  /** z.enum(['high', 'medium', 'low']), with an optional default for a missing member. */
  function PriorityMember(v: Json, default: Option<Priority>): (r: Result<Presence<Priority>, seq<Issue>>)
    ensures r.Success? <==> v.Undefined? || (v.Str? && v.s in {"high", "medium", "low"})
    ensures r.Success? && r.value.Given? ==> if v.Str? then PriorityName(r.value.value) == v.s else Some(r.value.value) == default
    ensures r.Success? ==> !r.value.Nulled? && (r.value.Absent? <==> v.Undefined? && default.None?)
    ensures r.Failure? ==> r.error != [] && FieldsOf(r.error) == {PriorityField}
  {
    match v
    case Undefined => if default.Some? then Success(Given(default.value)) else Success(Absent)
    case Str(s) =>
      var p := ParsePriority(s);
      if p.Some? then Success(Given(p.value)) else Failure([InvalidEnumValue(PriorityField)])
    case _ => Failure([InvalidType(PriorityField)])
  }

  /** z.enum(['pending', 'completed']).optional(). */
  function StatusMember(v: Json): (r: Result<Presence<Status>, seq<Issue>>)
    ensures r.Success? <==> v.Undefined? || (v.Str? && v.s in {"pending", "completed"})
    ensures r.Success? && r.value.Given? ==> v.Str? && StatusName(r.value.value) == v.s
    ensures r.Success? ==> !r.value.Nulled? && (r.value.Absent? <==> v.Undefined?)
    ensures r.Failure? ==> r.error != [] && FieldsOf(r.error) == {StatusField}
  {
    match v
    case Undefined => Success(Absent)
    case Str(s) =>
      var st := ParseStatus(s);
      if st.Some? then Success(Given(st.value)) else Failure([InvalidEnumValue(StatusField)])
    case _ => Failure([InvalidType(StatusField)])
  }

  function OptionOf<T>(p: Presence<T>): Option<T>
  {
    if p.Given? then Some(p.value) else None
  }

  /** Present-or-absent as a body member. */
  function MemberOf(s: Option<string>): Json
  {
    if s.Some? then Str(s.value) else Undefined
  }

  // ---------------------------------------------------------------- create

  /** The parsed create payload; the priority has already received its default. */
  datatype CreateData = CreateData(
    title: string,
    description: Option<string>,
    due_date: string,
    priority: Priority,
    status: Option<Status>)

  /** The rule createDeadlineSchema enforces on each field. */
  predicate CreateFieldOk(b: Body, f: Field)
  {
    match f
    case TitleField => b.title.Str? && 1 <= |b.title.s| <= TitleMax
    case DescriptionField => b.description.Undefined? || (b.description.Str? && |b.description.s| <= DescriptionMax)
    case DueDateField => b.due_date.Str? && |b.due_date.s| >= 1
    case PriorityField => b.priority.Undefined? || (b.priority.Str? && b.priority.s in {"high", "medium", "low"})
    case StatusField => b.status.Undefined? || (b.status.Str? && b.status.s in {"pending", "completed"})
  }

  predicate ValidCreateBody(b: Body)
  {
    forall f :: f in AllFields ==> CreateFieldOk(b, f)
  }

  /** The fields of a create body that break their rule. */
  function BrokenCreateFields(b: Body): (fs: set<Field>)
    ensures fs == set f | f in AllFields && !CreateFieldOk(b, f)
  {
    Broken(CreateFieldOk(b, TitleField), CreateFieldOk(b, DescriptionField), CreateFieldOk(b, DueDateField),
           CreateFieldOk(b, PriorityField), CreateFieldOk(b, StatusField))
  }

  /**
   * createDeadlineSchema.parse: accepts exactly the bodies whose every field
   * keeps its rule, and otherwise reports an issue for exactly the fields that
   * break theirs.
   */
  function ParseCreate(b: Body): (r: Result<CreateData, seq<Issue>>)
    ensures r.Success? <==> ValidCreateBody(b)
    ensures r.Failure? ==> FieldsOf(r.error) == BrokenCreateFields(b) && r.error != []
    ensures r.Success? ==>
      && b.title == Str(r.value.title)
      && b.description == MemberOf(r.value.description)
      && b.due_date == Str(r.value.due_date)
      && (if b.priority.Undefined? then r.value.priority == Medium else b.priority == Str(PriorityName(r.value.priority)))
      && b.status == MemberOf(if r.value.status.Some? then Some(StatusName(r.value.status.value)) else None)
  {
    var title := StringMember(b.title, TitleField, 1, Some(TitleMax), false, false);
    var description := StringMember(b.description, DescriptionField, 0, Some(DescriptionMax), true, false);
    var dueDate := StringMember(b.due_date, DueDateField, 1, None, false, false);
    var priority := PriorityMember(b.priority, Some(Medium));
    var status := StatusMember(b.status);
    var issues := IssuesOf(title) + IssuesOf(description) + IssuesOf(dueDate) + IssuesOf(priority) + IssuesOf(status);
    CombineIssues(IssuesOf(title), IssuesOf(description), IssuesOf(dueDate), IssuesOf(priority), IssuesOf(status),
                  CreateFieldOk(b, TitleField), CreateFieldOk(b, DescriptionField), CreateFieldOk(b, DueDateField),
                  CreateFieldOk(b, PriorityField), CreateFieldOk(b, StatusField));
    if issues != [] then Failure(issues)
    else
      Success(CreateData(title.value.value, OptionOf(description.value), dueDate.value.value,
                         priority.value.value, OptionOf(status.value)))
  }

  lemma {:induction false} FieldsOfConcat(a: seq<Issue>, b: seq<Issue>)
    ensures FieldsOf(a + b) == FieldsOf(a) + FieldsOf(b)
    decreases |a|
  {
    if a == [] {
      assert a + b == b;
    } else {
      assert (a + b)[1..] == a[1..] + b;
      FieldsOfConcat(a[1..], b);
    }
  }

  /** The issues of one member: none when it keeps its rule, else only about it. */
  ghost predicate MemberIssues(issues: seq<Issue>, f: Field, ok: bool)
  {
    (issues == [] <==> ok) && FieldsOf(issues) <= {f}
  }

  lemma MemberIssuesFields(issues: seq<Issue>, f: Field, ok: bool)
    requires MemberIssues(issues, f, ok)
    ensures FieldsOf(issues) == if ok then {} else {f}
  {
    if issues != [] {
      assert issues[0].field in FieldsOf(issues);
    }
  }

  /** The fields, among the five, whose rule is broken. */
  function Broken(title: bool, description: bool, dueDate: bool, priority: bool, status: bool): set<Field>
  {
    (if title then {} else {TitleField})
    + (if description then {} else {DescriptionField})
    + (if dueDate then {} else {DueDateField})
    + (if priority then {} else {PriorityField})
    + (if status then {} else {StatusField})
  }

  /**
   * Joining the issues of the five members in declaration order: the result
   * is empty exactly when every member keeps its rule, and it is about exactly
   * the members that break theirs.
   */
  lemma CombineIssues(i1: seq<Issue>, i2: seq<Issue>, i3: seq<Issue>, i4: seq<Issue>, i5: seq<Issue>,
                      ok1: bool, ok2: bool, ok3: bool, ok4: bool, ok5: bool)
    requires MemberIssues(i1, TitleField, ok1)
    requires MemberIssues(i2, DescriptionField, ok2)
    requires MemberIssues(i3, DueDateField, ok3)
    requires MemberIssues(i4, PriorityField, ok4)
    requires MemberIssues(i5, StatusField, ok5)
    ensures i1 + i2 + i3 + i4 + i5 == [] <==> ok1 && ok2 && ok3 && ok4 && ok5
    ensures FieldsOf(i1 + i2 + i3 + i4 + i5) == Broken(ok1, ok2, ok3, ok4, ok5)
  {
    assert i1 + i2 + i3 + i4 + i5 == [] <==> i1 == [] && i2 == [] && i3 == [] && i4 == [] && i5 == [];
    FieldsOfConcat(i1, i2);
    FieldsOfConcat(i1 + i2, i3);
    FieldsOfConcat(i1 + i2 + i3, i4);
    FieldsOfConcat(i1 + i2 + i3 + i4, i5);
    MemberIssuesFields(i1, TitleField, ok1);
    MemberIssuesFields(i2, DescriptionField, ok2);
    MemberIssuesFields(i3, DueDateField, ok3);
    MemberIssuesFields(i4, PriorityField, ok4);
    MemberIssuesFields(i5, StatusField, ok5);
  }

  /** The body a client sends for a create payload. */
  function CreateBodyOf(d: CreateData): Body
  {
    Body(Str(d.title), MemberOf(d.description), Str(d.due_date), Str(PriorityName(d.priority)),
         MemberOf(if d.status.Some? then Some(StatusName(d.status.value)) else None))
  }

  predicate ValidCreateData(d: CreateData)
  {
    && 1 <= |d.title| <= TitleMax
    && (d.description.None? || |d.description.value| <= DescriptionMax)
    && |d.due_date| >= 1
  }

  /** Every payload within the bounds survives being sent and parsed unchanged. */
  lemma CreateRoundTrip(d: CreateData)
    requires ValidCreateData(d)
    ensures ParseCreate(CreateBodyOf(d)) == Success(d)
  {
    var r := ParseCreate(CreateBodyOf(d));
    assert r.Success?;
    PriorityNameRoundTrip(d.priority);
    if d.status.Some? { StatusNameRoundTrip(d.status.value); }
  }

  // ---------------------------------------------------------------- update

  /** The parsed update payload: every field may be left out; the description may be null. */
  datatype UpdateData = UpdateData(
    title: Option<string>,
    description: Presence<string>,
    due_date: Option<string>,
    priority: Option<Priority>,
    status: Option<Status>)

  /** The rule updateDeadlineSchema enforces on each field. */
  predicate UpdateFieldOk(b: Body, f: Field)
  {
    match f
    case TitleField => b.title.Undefined? || (b.title.Str? && 1 <= |b.title.s| <= TitleMax)
    case DescriptionField =>
      b.description.Undefined? || b.description.Null? || (b.description.Str? && |b.description.s| <= DescriptionMax)
    case DueDateField => b.due_date.Undefined? || (b.due_date.Str? && |b.due_date.s| >= 1)
    case PriorityField => b.priority.Undefined? || (b.priority.Str? && b.priority.s in {"high", "medium", "low"})
    case StatusField => b.status.Undefined? || (b.status.Str? && b.status.s in {"pending", "completed"})
  }

  predicate ValidUpdateBody(b: Body)
  {
    forall f :: f in AllFields ==> UpdateFieldOk(b, f)
  }

  /** The fields of an update body that break their rule. */
  function BrokenUpdateFields(b: Body): (fs: set<Field>)
    ensures fs == set f | f in AllFields && !UpdateFieldOk(b, f)
  {
    Broken(UpdateFieldOk(b, TitleField), UpdateFieldOk(b, DescriptionField), UpdateFieldOk(b, DueDateField),
           UpdateFieldOk(b, PriorityField), UpdateFieldOk(b, StatusField))
  }

  /**
   * updateDeadlineSchema.parse: accepts exactly the bodies whose every field
   * keeps its rule, reports an issue for exactly the fields that break theirs,
   * and keeps "left out" apart from "null" for the description.
   */
  function ParseUpdate(b: Body): (r: Result<UpdateData, seq<Issue>>)
    ensures r.Success? <==> ValidUpdateBody(b)
    ensures r.Failure? ==> FieldsOf(r.error) == BrokenUpdateFields(b) && r.error != []
    ensures r.Success? ==>
      && b.title == MemberOf(r.value.title)
      && (r.value.description.Absent? <==> b.description.Undefined?)
      && (r.value.description.Nulled? <==> b.description.Null?)
      && (r.value.description.Given? ==> b.description == Str(r.value.description.value))
      && b.due_date == MemberOf(r.value.due_date)
      && b.priority == MemberOf(if r.value.priority.Some? then Some(PriorityName(r.value.priority.value)) else None)
      && b.status == MemberOf(if r.value.status.Some? then Some(StatusName(r.value.status.value)) else None)
  {
    var title := StringMember(b.title, TitleField, 1, Some(TitleMax), true, false);
    var description := StringMember(b.description, DescriptionField, 0, Some(DescriptionMax), true, true);
    var dueDate := StringMember(b.due_date, DueDateField, 1, None, true, false);
    var priority := PriorityMember(b.priority, None);
    var status := StatusMember(b.status);
    var issues := IssuesOf(title) + IssuesOf(description) + IssuesOf(dueDate) + IssuesOf(priority) + IssuesOf(status);
    CombineIssues(IssuesOf(title), IssuesOf(description), IssuesOf(dueDate), IssuesOf(priority), IssuesOf(status),
                  UpdateFieldOk(b, TitleField), UpdateFieldOk(b, DescriptionField), UpdateFieldOk(b, DueDateField),
                  UpdateFieldOk(b, PriorityField), UpdateFieldOk(b, StatusField));
    if issues != [] then Failure(issues)
    else
      Success(UpdateData(OptionOf(title.value), description.value, OptionOf(dueDate.value),
                         OptionOf(priority.value), OptionOf(status.value)))
  }

  /** The body a client sends for an update payload. */
  function UpdateBodyOf(d: UpdateData): Body
  {
    Body(MemberOf(d.title),
         match d.description
         case Absent => Undefined
         case Nulled => Null
         case Given(s) => Str(s),
         MemberOf(d.due_date),
         MemberOf(if d.priority.Some? then Some(PriorityName(d.priority.value)) else None),
         MemberOf(if d.status.Some? then Some(StatusName(d.status.value)) else None))
  }

  predicate ValidUpdateData(d: UpdateData)
  {
    && (d.title.None? || 1 <= |d.title.value| <= TitleMax)
    && (d.description.Given? ==> |d.description.value| <= DescriptionMax)
    && (d.due_date.None? || |d.due_date.value| >= 1)
  }

  /** Every update payload within the bounds survives being sent and parsed unchanged. */
  lemma UpdateRoundTrip(d: UpdateData)
    requires ValidUpdateData(d)
    ensures ParseUpdate(UpdateBodyOf(d)) == Success(d)
  {
    var r := ParseUpdate(UpdateBodyOf(d));
    assert r.Success?;
    if d.priority.Some? { PriorityNameRoundTrip(d.priority.value); }
    if d.status.Some? { StatusNameRoundTrip(d.status.value); }
  }

  /** An empty update body is valid and changes nothing. */
  lemma EmptyUpdateAccepted()
    ensures ParseUpdate(Body(Undefined, Undefined, Undefined, Undefined, Undefined))
         == Success(UpdateData(None, Absent, None, None, None))
  {
  }
}
