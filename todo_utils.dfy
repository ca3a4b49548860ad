/** The first copy of the todo utilities (`src/utils/todoUtils.js`): task
    creation, the per-id edits, permanent deletion, the retention arithmetic,
    the purge of expired archived tasks, the warning list and the filtered,
    sorted view. The clock reading `Date.now()` is the parameter `now`. */
module TodoUtils {
  import opened TodoModel
  import opened Sequences
  import opened Sorting

  // ---------------------------------------------------------------------
  // Creation and per-id edits
  // ---------------------------------------------------------------------

  /** Appends a new open task whose id is the clock reading. */
  function AddTodo(todos: seq<Todo>, text: string, now: int): (r: seq<Todo>)
    ensures |r| == |todos| + 1 && r[..|todos|] == todos
    ensures r[|todos|] == Todo(now, text, false, false, None)
  {
    todos + [Todo(now, text, false, false, None)]
  }

  /** Flips `completed` on every task with the given id. */
  function ToggleTodo(todos: seq<Todo>, id: int): (r: seq<Todo>)
    ensures |r| == |todos|
    ensures forall i :: 0 <= i < |r| ==>
      r[i] == todos[i].(completed := r[i].completed) && (r[i].completed != todos[i].completed <==> todos[i].id == id)
  {
    MapMatching(todos, id, (t: Todo) => t.(completed := !t.completed))
  }

  /** Archives every task with the given id, stamping it with the clock
      reading; an already archived task gets a fresh stamp. */
  function ArchiveTodo(todos: seq<Todo>, id: int, now: int): (r: seq<Todo>)
    ensures |r| == |todos|
    ensures forall i :: 0 <= i < |r| && todos[i].id != id ==> r[i] == todos[i]
    ensures forall i :: 0 <= i < |r| && todos[i].id == id ==>
      r[i].archived && r[i].archivedAt == Some(now) && r[i] == todos[i].(archived := true, archivedAt := Some(now))
  {
    MapMatching(todos, id, (t: Todo) => t.(archived := true, archivedAt := Some(now)))
  }

  /** Takes every task with the given id out of the archive. */
  function RestoreTodo(todos: seq<Todo>, id: int): (r: seq<Todo>)
    ensures |r| == |todos|
    ensures forall i :: 0 <= i < |r| && todos[i].id != id ==> r[i] == todos[i]
    ensures forall i :: 0 <= i < |r| && todos[i].id == id ==>
      !r[i].archived && r[i].archivedAt == None && r[i] == todos[i].(archived := false, archivedAt := None)
  {
    MapMatching(todos, id, (t: Todo) => t.(archived := false, archivedAt := None))
  }

  /** Replaces the text of every task with the given id, verbatim. */
  function EditTodo(todos: seq<Todo>, id: int, newText: string): (r: seq<Todo>)
    ensures |r| == |todos|
    ensures forall i :: 0 <= i < |r| && todos[i].id != id ==> r[i] == todos[i]
    ensures forall i :: 0 <= i < |r| && todos[i].id == id ==> r[i] == todos[i].(text := newText)
  {
    MapMatching(todos, id, (t: Todo) => t.(text := newText))
  }

  /** The condition "does not have the given id". */
  function IdIsNot(id: int): Todo -> bool {
    (t: Todo) => t.id != id
  }

  /** Removes every task with the given id, keeping the others in order. */
  function PermanentDeleteTodo(todos: seq<Todo>, id: int): (r: seq<Todo>)
    ensures IsSubsequence(r, todos)
    ensures forall t: Todo :: t in r <==> t in todos && t.id != id
    ensures forall t: Todo :: t.id != id ==> multiset(r)[t] == multiset(todos)[t]
  {
    FilterIsSubsequence(todos, IdIsNot(id));
    FilterCounts(todos, IdIsNot(id));
    Filter(todos, IdIsNot(id))
  }

  // ---------------------------------------------------------------------
  // Retention arithmetic
  // ---------------------------------------------------------------------

  /** Days left before an archived task is purged:
      `max(0, 30 - floor((now - archivedAt) / DAY_MS))`, with a null
      `archivedAt` counting as 0. */
  function GetDaysUntilDeletion(archivedAt: Option<int>, now: int): (d: int)
    ensures d >= 0
    ensures d == 0 <==> now - AsNumber(archivedAt) >= ARCHIVE_DURATION_MS
    ensures d > 0 ==>
      (ARCHIVE_DURATION_DAYS - d) * DAY_MS <= now - AsNumber(archivedAt) < (ARCHIVE_DURATION_DAYS - d + 1) * DAY_MS
    ensures AsNumber(archivedAt) <= now ==> d <= ARCHIVE_DURATION_DAYS
    ensures now == AsNumber(archivedAt) ==> d == ARCHIVE_DURATION_DAYS
  {
    var daysPassed := FloorDays(now - AsNumber(archivedAt));
    Max(0, ARCHIVE_DURATION_DAYS - daysPassed)
  }

  /** The countdown never goes up as time passes. */
  lemma DaysUntilDeletionNonIncreasing(archivedAt: Option<int>, now: int, later: int)
    requires now <= later
    ensures GetDaysUntilDeletion(archivedAt, later) <= GetDaysUntilDeletion(archivedAt, now)
  {
    var a := AsNumber(archivedAt);
    var d1, d2 := FloorDays(now - a), FloorDays(later - a);
    assert d1 * DAY_MS <= later - a < d2 * DAY_MS + DAY_MS;
  }

  // ---------------------------------------------------------------------
  // Purge of expired archived tasks
  // ---------------------------------------------------------------------

  /** The purge keeps a task that is not archived, or was archived at most
      30 days (in milliseconds) ago. */
  predicate Retained(t: Todo, now: int) {
    !t.archived || now - AsNumber(t.archivedAt) <= ARCHIVE_DURATION_MS
  }

  function RetainedAt(now: int): Todo -> bool {
    (t: Todo) => Retained(t, now)
  }

  /** Drops the archived tasks whose 30-day window has elapsed. */
  function RemoveExpiredTodos(todos: seq<Todo>, now: int): (r: seq<Todo>)
    ensures IsSubsequence(r, todos)
    ensures forall t: Todo :: t in r <==> t in todos && (!t.archived || now - AsNumber(t.archivedAt) <= ARCHIVE_DURATION_MS)
    ensures forall t: Todo :: Retained(t, now) ==> multiset(r)[t] == multiset(todos)[t]
  {
    FilterIsSubsequence(todos, RetainedAt(now));
    FilterCounts(todos, RetainedAt(now));
    Filter(todos, RetainedAt(now))
  }

  lemma RemoveExpiredIdempotent(todos: seq<Todo>, now: int)
    ensures RemoveExpiredTodos(RemoveExpiredTodos(todos, now), now) == RemoveExpiredTodos(todos, now)
  {
    FilterIdempotent(todos, RetainedAt(now));
  }

  /** A task archived exactly 30 days ago survives the purge; one archived a
      millisecond earlier does not. */
  lemma RemoveExpiredBoundary(t: Todo, now: int)
    requires t.archived && t.archivedAt.Some?
    ensures now - t.archivedAt.value == ARCHIVE_DURATION_MS ==> RemoveExpiredTodos([t], now) == [t]
    ensures now - t.archivedAt.value == ARCHIVE_DURATION_MS + 1 ==> RemoveExpiredTodos([t], now) == []
  {
    assert [t][1..] == [];
  }

  /** Every task the purge removes was archived and shows 0 days left; every
      archived task with days left survives. */
  lemma RemovedHaveNoDaysLeft(todos: seq<Todo>, now: int, t: Todo)
    requires t in todos
    ensures t !in RemoveExpiredTodos(todos, now) ==> t.archived && GetDaysUntilDeletion(t.archivedAt, now) == 0
    ensures t.archived && GetDaysUntilDeletion(t.archivedAt, now) > 0 ==> t in RemoveExpiredTodos(todos, now)
  {
  }

  // ---------------------------------------------------------------------
  // Warning list
  // ---------------------------------------------------------------------

  /** A task of the warning list, with the `daysLeft` field the source adds. */
  datatype ExpiringTodo = ExpiringTodo(todo: Todo, daysLeft: int)

  /** Archived, with between 1 and 7 days left. */
  predicate ExpiresSoon(t: Todo, now: int) {
    t.archived &&
    var daysLeft := GetDaysUntilDeletion(t.archivedAt, now);
    daysLeft <= EXPIRATION_WARNING_DAYS && daysLeft > 0
  }

  function ExpiresSoonAt(now: int): Todo -> bool {
    (t: Todo) => ExpiresSoon(t, now)
  }

  /** A task is on the warning list from 23 full days after it was archived
      until the 30th day has passed. */
  lemma ExpiresSoonWindow(t: Todo, now: int)
    ensures ExpiresSoon(t, now) <==>
      t.archived &&
      (ARCHIVE_DURATION_DAYS - EXPIRATION_WARNING_DAYS) * DAY_MS <= now - AsNumber(t.archivedAt) < ARCHIVE_DURATION_MS
  {
  }

  /** `{...todo, daysLeft: getDaysUntilDeletion(todo.archivedAt)}`. */
  function Annotate(t: Todo, now: int): ExpiringTodo {
    ExpiringTodo(t, GetDaysUntilDeletion(t.archivedAt, now))
  }

  function AnnotateAt(now: int): Todo -> ExpiringTodo {
    (t: Todo) => Annotate(t, now)
  }

  function TodoOf(e: ExpiringTodo): Todo {
    e.todo
  }

  function DaysLeftKey(e: ExpiringTodo): Key {
    Key(e.daysLeft, 0)
  }

  /** The archived tasks with 1 to 7 days left, each with its days left,
      fewest days first. */
  function GetExpiringTodos(todos: seq<Todo>, now: int): (r: seq<ExpiringTodo>)
    ensures forall i, j :: 0 <= i < j < |r| ==> r[i].daysLeft <= r[j].daysLeft
    ensures forall e :: e in r ==>
      e.todo in todos && e.todo.archived && e.daysLeft == GetDaysUntilDeletion(e.todo.archivedAt, now) &&
      0 < e.daysLeft <= EXPIRATION_WARNING_DAYS
    ensures forall t: Todo ::
      multiset(r)[Annotate(t, now)] == (if t.archived && 0 < GetDaysUntilDeletion(t.archivedAt, now) <= EXPIRATION_WARNING_DAYS
       then multiset(todos)[t] else 0)
  {
    var annotated := Map(Filter(todos, ExpiresSoonAt(now)), AnnotateAt(now));
    ExpiringCandidates(todos, now);
    var r := SortBy(annotated, DaysLeftKey);
    assert forall e :: e in r ==> e in annotated by {
      forall e | e in r ensures e in annotated {
        assert e in multiset(r);
      }
    }
    r
  }

  /** The condition "on the warning list with exactly `d` days left". */
  function ExpiresInDays(now: int, d: int): Todo -> bool {
    (t: Todo) => ExpiresSoon(t, now) && GetDaysUntilDeletion(t.archivedAt, now) == d
  }

  /** The sort by days left is stable: the entries with `d` days left are the
      tasks with `d` days left, annotated, in their input order. */
  lemma ExpiringKeepsTies(todos: seq<Todo>, now: int, d: int)
    ensures Filter(GetExpiringTodos(todos, now), KeyIs(DaysLeftKey, Key(d, 0))) ==
            Map(Filter(todos, ExpiresInDays(now, d)), AnnotateAt(now))
  {
    var soon := Filter(todos, ExpiresSoonAt(now));
    var tie := KeyIs(DaysLeftKey, Key(d, 0));
    SortByIsStable(Map(soon, AnnotateAt(now)), DaysLeftKey, Key(d, 0));
    FilterMap(soon, AnnotateAt(now), tie);
    FilterFilter(todos, ExpiresSoonAt(now), Preimage(AnnotateAt(now), tie));
    FilterExt(todos, Both(ExpiresSoonAt(now), Preimage(AnnotateAt(now), tie)), ExpiresInDays(now, d));
  }

  /** What the filter-then-annotate step of the warning list produces, before sorting. */
  lemma ExpiringCandidates(todos: seq<Todo>, now: int)
    ensures forall e :: e in Map(Filter(todos, ExpiresSoonAt(now)), AnnotateAt(now)) ==>
      e.todo in todos && ExpiresSoon(e.todo, now) && e == Annotate(e.todo, now)
    ensures forall t: Todo ::
      multiset(Map(Filter(todos, ExpiresSoonAt(now)), AnnotateAt(now)))[Annotate(t, now)] ==
      (if ExpiresSoon(t, now) then multiset(todos)[t] else 0)
  {
    var soon := Filter(todos, ExpiresSoonAt(now));
    var annotated := Map(soon, AnnotateAt(now));
    forall e | e in annotated ensures e.todo in soon && e == Annotate(e.todo, now) {
      var i :| 0 <= i < |annotated| && annotated[i] == e;
      assert e == Annotate(soon[i], now);
    }
    FilterCounts(todos, ExpiresSoonAt(now));
    forall t: Todo ensures multiset(annotated)[Annotate(t, now)] == multiset(soon)[t] {
      MapCounts(soon, AnnotateAt(now), TodoOf, t);
    }
  }

  // ---------------------------------------------------------------------
  // Filtered and sorted view
  // ---------------------------------------------------------------------

  /** Which tasks a filter shows: "completed" the completed, unarchived
      ones; "archived" the archived ones; any other value the unarchived ones. */
  predicate Shown(filter: string, t: Todo) {
    if filter == "completed" then t.completed && !t.archived
    else if filter == "archived" then t.archived
    else !t.archived
  }

  function ShownBy(filter: string): Todo -> bool {
    (t: Todo) => Shown(filter, t)
  }

  /** Whether the view puts completed tasks below open ones. */
  predicate Partitioned(filter: string) {
    filter != "completed" && filter != "archived"
  }

  /** The order of the comparator: completed tasks last where the filter
      partitions, then by id, descending for "desc" and ascending otherwise. */
  function ViewKey(filter: string, sortOrder: string): Todo -> Key {
    (t: Todo) => Key(if Partitioned(filter) && t.completed then 1 else 0, if sortOrder == "desc" then -t.id else t.id)
  }

  /** The tasks the filter shows, each as often as in the input, completed
      below open ones outside the "completed" and "archived" filters, and by
      id in the requested direction. */
  function GetFilteredAndSortedTodos(todos: seq<Todo>, filter: string, sortOrder: string): (r: seq<Todo>)
    ensures forall t: Todo :: multiset(r)[t] == if Shown(filter, t) then multiset(todos)[t] else 0
    ensures forall t: Todo :: t in r <==> t in todos && Shown(filter, t)
    ensures Partitioned(filter) ==> forall i, j :: 0 <= i < j < |r| && r[i].completed ==> r[j].completed
    ensures forall i, j :: 0 <= i < j < |r| && (!Partitioned(filter) || r[i].completed == r[j].completed) ==>
      if sortOrder == "desc" then r[i].id >= r[j].id else r[i].id <= r[j].id
  {
    var shown := Filter(todos, ShownBy(filter));
    var r := SortBy(shown, ViewKey(filter, sortOrder));
    FilterCounts(todos, ShownBy(filter));
    assert forall t: Todo :: t in r <==> t in shown by {
      forall t ensures t in r <==> t in shown {
        assert t in r <==> t in multiset(r);
      }
    }
    r
  }

  /** The condition "ties with a task of this id and completion state" under
      the view's comparator (completion matters only where it partitions). */
  function Tie(filter: string, id: int, completed: bool): Todo -> bool {
    (t: Todo) => t.id == id && (!Partitioned(filter) || t.completed == completed)
  }

  /** The sort is stable: tasks the comparator cannot tell apart keep the
      order they have in the input. */
  lemma ViewKeepsTies(todos: seq<Todo>, filter: string, sortOrder: string, id: int, completed: bool)
    ensures Filter(GetFilteredAndSortedTodos(todos, filter, sortOrder), Tie(filter, id, completed)) ==
            Filter(Filter(todos, ShownBy(filter)), Tie(filter, id, completed))
  {
    var shown := Filter(todos, ShownBy(filter));
    var key := ViewKey(filter, sortOrder);
    var k := Key(if Partitioned(filter) && completed then 1 else 0, if sortOrder == "desc" then -id else id);
    SortByIsStable(shown, key, k);
    FilterExt(shown, Tie(filter, id, completed), KeyIs(key, k));
    FilterExt(SortBy(shown, key), Tie(filter, id, completed), KeyIs(key, k));
  }

  // ---------------------------------------------------------------------
  // Properties of the lifecycle
  // ---------------------------------------------------------------------

  /** Adding a task and deleting its id removes it again, together with any
      older task that happened to share the clock reading. */
  lemma AddThenDelete(todos: seq<Todo>, text: string, now: int)
    ensures PermanentDeleteTodo(AddTodo(todos, text, now), now) == PermanentDeleteTodo(todos, now)
    ensures (forall t: Todo :: t in todos ==> t.id != now) ==> PermanentDeleteTodo(AddTodo(todos, text, now), now) == todos
  {
    var added := Todo(now, text, false, false, None);
    FilterAppend(todos, [added], IdIsNot(now));
    assert Filter([added], IdIsNot(now)) == [] by {
      assert [added][1..] == [];
    }
    assert Filter(todos, IdIsNot(now)) + [] == Filter(todos, IdIsNot(now));
    if forall t: Todo :: t in todos ==> t.id != now {
      FilterKeepsAll(todos, IdIsNot(now));
    }
  }

  /** A new task is open and unarchived, so the default view lists it. */
  lemma AddedTodoIsListed(todos: seq<Todo>, text: string, now: int, filter: string, sortOrder: string)
    requires Partitioned(filter)
    ensures Todo(now, text, false, false, None) in GetFilteredAndSortedTodos(AddTodo(todos, text, now), filter, sortOrder)
  {
    assert AddTodo(todos, text, now)[|todos|] == Todo(now, text, false, false, None);
  }

  /** An archived task leaves the default view and appears in the archive view. */
  lemma ArchivedLeavesDefaultView(todos: seq<Todo>, id: int, now: int, filter: string, sortOrder: string)
    requires Partitioned(filter)
    ensures forall t: Todo :: t in GetFilteredAndSortedTodos(ArchiveTodo(todos, id, now), filter, sortOrder) ==> t.id != id
    ensures forall t: Todo :: t in todos && t.id == id ==>
      t.(archived := true, archivedAt := Some(now)) in GetFilteredAndSortedTodos(ArchiveTodo(todos, id, now), "archived", sortOrder)
  {
    var archived := ArchiveTodo(todos, id, now);
    forall t: Todo | t in archived && t.id == id ensures t.archived {
      var i :| 0 <= i < |archived| && archived[i] == t;
    }
    forall t: Todo | t in todos && t.id == id
      ensures t.(archived := true, archivedAt := Some(now)) in archived
    {
      var i :| 0 <= i < |todos| && todos[i] == t;
      assert archived[i] == t.(archived := true, archivedAt := Some(now));
    }
  }

  /** Completing an unarchived task keeps it in the default view. */
  lemma ToggledStaysInDefaultView(todos: seq<Todo>, id: int, filter: string, sortOrder: string)
    requires Partitioned(filter)
    ensures forall t: Todo :: t in todos && t.id == id && !t.archived ==>
      t.(completed := !t.completed) in GetFilteredAndSortedTodos(ToggleTodo(todos, id), filter, sortOrder)
  {
    var toggled := ToggleTodo(todos, id);
    forall t: Todo | t in todos && t.id == id && !t.archived
      ensures t.(completed := !t.completed) in toggled
    {
      var i :| 0 <= i < |todos| && todos[i] == t;
      assert toggled[i] == t.(completed := !t.completed);
    }
  }

  /** Toggling the same id twice gives back the original list. */
  lemma ToggleTwice(todos: seq<Todo>, id: int)
    ensures ToggleTodo(ToggleTodo(todos, id), id) == todos
  {
    var r := ToggleTodo(ToggleTodo(todos, id), id);
    assert forall i :: 0 <= i < |r| ==> r[i] == todos[i];
  }

  /** Archiving twice is archiving once, at the later time. */
  lemma ArchiveTwice(todos: seq<Todo>, id: int, first: int, second: int)
    ensures ArchiveTodo(ArchiveTodo(todos, id, first), id, second) == ArchiveTodo(todos, id, second)
  {
    var r, s := ArchiveTodo(ArchiveTodo(todos, id, first), id, second), ArchiveTodo(todos, id, second);
    assert forall i :: 0 <= i < |r| ==> r[i] == s[i];
  }

  /** Editing twice keeps only the second text. */
  lemma EditTwice(todos: seq<Todo>, id: int, first: string, second: string)
    ensures EditTodo(EditTodo(todos, id, first), id, second) == EditTodo(todos, id, second)
  {
    var r, s := EditTodo(EditTodo(todos, id, first), id, second), EditTodo(todos, id, second);
    assert forall i :: 0 <= i < |r| ==> r[i] == s[i];
  }

  /** Restoring an archived task brings back the task it was before it was
      archived, when that task was an unarchived one. */
  lemma RestoreUndoesArchive(todos: seq<Todo>, id: int, now: int)
    requires forall t: Todo :: t in todos && t.id == id ==> !t.archived && t.archivedAt == None
    ensures RestoreTodo(ArchiveTodo(todos, id, now), id) == todos
  {
    var r := RestoreTodo(ArchiveTodo(todos, id, now), id);
    forall i | 0 <= i < |r| ensures r[i] == todos[i] {
      assert todos[i] in todos;
    }
  }

  /** With an id no task has, every edit and the deletion return the input. */
  lemma UnknownIdIsNoop(todos: seq<Todo>, id: int, now: int, newText: string)
    requires forall t: Todo :: t in todos ==> t.id != id
    ensures ToggleTodo(todos, id) == todos
    ensures ArchiveTodo(todos, id, now) == todos
    ensures RestoreTodo(todos, id) == todos
    ensures EditTodo(todos, id, newText) == todos
    ensures PermanentDeleteTodo(todos, id) == todos
  {
    assert forall i :: 0 <= i < |todos| ==> todos[i].id != id by {
      forall i | 0 <= i < |todos| ensures todos[i].id != id {
        assert todos[i] in todos;
      }
    }
    FilterKeepsAll(todos, IdIsNot(id));
  }

  lemma PermanentDeleteIdempotent(todos: seq<Todo>, id: int)
    ensures PermanentDeleteTodo(PermanentDeleteTodo(todos, id), id) == PermanentDeleteTodo(todos, id)
  {
    FilterIdempotent(todos, IdIsNot(id));
  }

  /** Every operation keeps a task's archive stamp present exactly when the
      task is archived. */
  lemma OperationsKeepArchiveConsistent(todos: seq<Todo>, id: int, now: int, text: string)
    requires AllArchiveConsistent(todos)
    ensures AllArchiveConsistent(AddTodo(todos, text, now))
    ensures AllArchiveConsistent(ToggleTodo(todos, id))
    ensures AllArchiveConsistent(ArchiveTodo(todos, id, now))
    ensures AllArchiveConsistent(RestoreTodo(todos, id))
    ensures AllArchiveConsistent(EditTodo(todos, id, text))
    ensures AllArchiveConsistent(PermanentDeleteTodo(todos, id))
    ensures AllArchiveConsistent(RemoveExpiredTodos(todos, now))
  {
    forall i | 0 <= i < |todos| ensures ArchiveConsistent(todos[i]) {
      assert todos[i] in todos;
    }
  }

  /** Ids stay unique when the clock reading is later than every existing id. */
  lemma AddKeepsIdsUnique(todos: seq<Todo>, text: string, now: int)
    requires UniqueIds(todos)
    requires forall t: Todo :: t in todos ==> t.id < now
    ensures UniqueIds(AddTodo(todos, text, now))
  {
    var r := AddTodo(todos, text, now);
    forall i, j | 0 <= i < j < |r| ensures r[i].id != r[j].id {
      if j == |todos| {
        assert r[i] == todos[i] && todos[i] in todos;
      }
    }
  }
}
