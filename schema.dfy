/**
 * The value types of the practice log and the constraints an input must meet
 * before it reaches a handler (server/src/schema.ts).
 */
module Schema {

  datatype Option<+T> = None | Some(value: T) {
    /** The value, or `default` when there is none. */
    function GetOr(default: T): T {
      match this
      case Some(v) => v
      case None => default
    }
  }

  /** A calendar day (no time of day), counted in days; only the order of days matters. */
  type Date = int

  /** The instant at which a row was inserted. */
  type Timestamp = int

  /** The closed set of strokes. */
  datatype Stroke = Freestyle | Breaststroke | Backstroke | Butterfly | IM

  /** Every stroke, in the order the enum declares them. */
  const AllStrokes: seq<Stroke> := [Freestyle, Breaststroke, Backstroke, Butterfly, IM]

  /** Where a stroke stands in the declared order: each stroke appears there exactly once. */
  function Position(s: Stroke): (i: nat)
    ensures i < |AllStrokes| && AllStrokes[i] == s
    ensures forall j :: 0 <= j < |AllStrokes| && AllStrokes[j] == s ==> j == i
  {
    match s
    case Freestyle => 0
    case Breaststroke => 1
    case Backstroke => 2
    case Butterfly => 3
    case IM => 4
  }

  /** A stored practice record; `notes` is `None` for SQL NULL, which differs from every string. */
  datatype Practice = Practice(
    id: int,
    date: Date,
    durationMinutes: int,
    totalDistance: real,
    mainStroke: Stroke,
    notes: Option<string>,
    createdAt: Timestamp)

  /** What a caller supplies to create a practice. */
  datatype CreateInput = CreateInput(
    date: Date,
    durationMinutes: int,
    totalDistance: real,
    mainStroke: Stroke,
    notes: Option<string>)

  /**
   * A partial update. Every field but `id` may be absent (`None`). `notes` has three
   * states: absent (`None`), null (`Some(None)`) and a string (`Some(Some(text))`).
   */
  datatype UpdateInput = UpdateInput(
    id: int,
    date: Option<Date>,
    durationMinutes: Option<int>,
    totalDistance: Option<real>,
    mainStroke: Option<Stroke>,
    notes: Option<Option<string>>)

  /** The filters and the page a listing asks for; an absent query has every field absent. */
  datatype ListQuery = ListQuery(
    limit: Option<int>,
    offset: Option<int>,
    strokeType: Option<Stroke>,
    dateFrom: Option<Date>,
    dateTo: Option<Date>)

  /** `duration_minutes` is a positive integer. */
  predicate ValidDuration(minutes: int) {
    minutes >= 1
  }

  /** `total_distance` is a positive number. */
  predicate ValidDistance(distance: real) {
    distance > 0.0
  }

  /** A stored record: positive integer duration and positive distance. */
  predicate ValidPractice(p: Practice) {
    ValidDuration(p.durationMinutes) && ValidDistance(p.totalDistance)
  }

  predicate ValidCreateInput(c: CreateInput) {
    ValidDuration(c.durationMinutes) && ValidDistance(c.totalDistance)
  }

  /** Every field the update supplies meets the constraint of that field. */
  predicate ValidUpdateInput(u: UpdateInput) {
    && (u.durationMinutes.Some? ==> ValidDuration(u.durationMinutes.value))
    && (u.totalDistance.Some? ==> ValidDistance(u.totalDistance.value))
  }

  /** `limit`, when given, is a positive integer; `offset`, when given, is non-negative. */
  predicate ValidListQuery(q: ListQuery) {
    && (q.limit.Some? ==> q.limit.value >= 1)
    && (q.offset.Some? ==> q.offset.value >= 0)
  }

  /** The user-chosen fields of a stored record, that is, the record without `id` and `created_at`. */
  function AsCreateInput(p: Practice): (c: CreateInput)
    ensures ValidPractice(p) <==> ValidCreateInput(c)
  {
    CreateInput(p.date, p.durationMinutes, p.totalDistance, p.mainStroke, p.notes)
  }

  /** The row the table stores for a create input, given the id and timestamp the table assigns. */
  function Stored(c: CreateInput, id: int, createdAt: Timestamp): (p: Practice)
    ensures AsCreateInput(p) == c && p.id == id && p.createdAt == createdAt
    ensures ValidPractice(p) <==> ValidCreateInput(c)
  {
    Practice(id, c.date, c.durationMinutes, c.totalDistance, c.mainStroke, c.notes, createdAt)
  }
}
