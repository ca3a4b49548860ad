/** The task record shared by both copies of the todo utilities, the
    retention constants, and the JavaScript value conventions the two copies
    rely on (numeric coercion and truthiness of `archivedAt`, floor and
    ceiling of a millisecond quotient). */
module TodoModel {

  datatype Option<T> = None | Some(value: T)

  /** One task: `{id, text, completed, archived, archivedAt}`. The id is a
      clock reading in milliseconds; `archivedAt` is null (None) or a clock
      reading taken when the task was archived. */
  datatype Todo = Todo(id: int, text: string, completed: bool, archived: bool, archivedAt: Option<int>)

  /** Days an archived task is kept before it is purged. */
  const ARCHIVE_DURATION_DAYS: int := 30
  /** Days before the purge during which an archived task is flagged. */
  const EXPIRATION_WARNING_DAYS: int := 7
  /** `24 * 60 * 60 * 1000`. */
  const DAY_MS: int := 86400000
  /** `ARCHIVE_DURATION_DAYS * 24 * 60 * 60 * 1000`. */
  const ARCHIVE_DURATION_MS: int := ARCHIVE_DURATION_DAYS * DAY_MS

  /** The number JavaScript uses for `archivedAt` in arithmetic: null is 0. */
  function AsNumber(t: Option<int>): (n: int)
    ensures t == None ==> n == 0
    ensures t != None ==> n == t.value
  {
    match t
    case None => 0
    case Some(v) => v
  }

  /** JavaScript truthiness of `archivedAt`: null and 0 are falsy. */
  predicate Truthy(t: Option<int>) {
    t.Some? && t.value != 0
  }

  /** `Math.floor(ms / DAY_MS)`: the number of whole days in `ms`. */
  function FloorDays(ms: int): (d: int)
    ensures d * DAY_MS <= ms < d * DAY_MS + DAY_MS
  {
    ms / DAY_MS
  }

  /** `Math.ceil(ms / DAY_MS)`: the number of started days in `ms`. */
  function CeilDays(ms: int): (d: int)
    ensures d * DAY_MS - DAY_MS < ms <= d * DAY_MS
  {
    -((-ms) / DAY_MS)
  }

  /** `Math.max(a, b)`. */
  function Max(a: int, b: int): (m: int)
    ensures m >= a && m >= b && (m == a || m == b)
  {
    if a >= b then a else b
  }

  /** The shape `todos.map(todo => todo.id === id ? f(todo) : todo)` that
      every per-id edit of both copies has. */
  function MapMatching(todos: seq<Todo>, id: int, f: Todo -> Todo): (r: seq<Todo>)
    ensures |r| == |todos|
    ensures forall i :: 0 <= i < |todos| && todos[i].id != id ==> r[i] == todos[i]
    ensures forall i :: 0 <= i < |todos| && todos[i].id == id ==> r[i] == f(todos[i])
  {
    seq(|todos|, i requires 0 <= i < |todos| => if todos[i].id == id then f(todos[i]) else todos[i])
  }

  /** The record invariant the lifecycle is meant to keep: a task carries an
      archive timestamp exactly when it is archived. */
  predicate ArchiveConsistent(t: Todo) {
    t.archived <==> t.archivedAt.Some?
  }

  predicate AllArchiveConsistent(todos: seq<Todo>) {
    forall t :: t in todos ==> ArchiveConsistent(t)
  }

  /** No two tasks share an id. */
  predicate UniqueIds(todos: seq<Todo>) {
    forall i, j :: 0 <= i < j < |todos| ==> todos[i].id != todos[j].id
  }
}
