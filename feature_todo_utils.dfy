/** The second copy of the todo utilities
    (`src/features/todos/utils/todoUtils.js`): task creation returning a
    single record, the per-id edits, two deletions, the retention arithmetic
    with ceiling rounding and a null result, the warning list, the purge and
    the view split into a filter and a sort. The clock reading `Date.now()`
    is the parameter `now`. */
module FeatureTodoUtils {
  import opened TodoModel
  import opened Sequences
  import opened Sorting

  // ---------------------------------------------------------------------
  // Creation and per-id edits
  // ---------------------------------------------------------------------

  /** A new open task whose id is the clock reading; the caller appends it. */
  function AddTodo(text: string, now: int): (r: Todo)
    ensures r.id == now && r.text == text
    ensures !r.completed && !r.archived && r.archivedAt == None
  {
    Todo(now, text, false, false, None)
  }

  /** Flips `completed` on every task with the given id. */
  function ToggleTodo(todos: seq<Todo>, id: int): (r: seq<Todo>)
    ensures |r| == |todos|
    ensures forall i :: 0 <= i < |r| ==>
      r[i] == todos[i].(completed := r[i].completed) && (r[i].completed != todos[i].completed <==> todos[i].id == id)
  {
    MapMatching(todos, id, (t: Todo) => t.(completed := !t.completed))
  }

  /** Replaces the text of every task with the given id, verbatim. */
  function EditTodo(todos: seq<Todo>, id: int, text: string): (r: seq<Todo>)
    ensures |r| == |todos|
    ensures forall i :: 0 <= i < |r| && todos[i].id != id ==> r[i] == todos[i]
    ensures forall i :: 0 <= i < |r| && todos[i].id == id ==> r[i] == todos[i].(text := text)
  {
    MapMatching(todos, id, (t: Todo) => t.(text := text))
  }

  /** Archives every task with the given id, stamping it with the clock reading. */
  function ArchiveTodo(todos: seq<Todo>, id: int, now: int): (r: seq<Todo>)
    ensures |r| == |todos|
    ensures forall i :: 0 <= i < |r| && todos[i].id != id ==> r[i] == todos[i]
    ensures forall i :: 0 <= i < |r| && todos[i].id == id ==>
      r[i].archived && r[i].archivedAt == Some(now) && r[i] == todos[i].(archived := true, archivedAt := Some(now))
  {
    MapMatching(todos, id, (t: Todo) => t.(archived := true, archivedAt := Some(now)))
  }

  /** Takes every task with the given id out of the archive. */
  function RestoreTodo(todos: seq<Todo>, id: int): (r: seq<Todo>)
    ensures |r| == |todos|
    ensures forall i :: 0 <= i < |r| && todos[i].id != id ==> r[i] == todos[i]
    ensures forall i :: 0 <= i < |r| && todos[i].id == id ==>
      !r[i].archived && r[i].archivedAt == None && r[i] == todos[i].(archived := false, archivedAt := None)
  {
    MapMatching(todos, id, (t: Todo) => t.(archived := false, archivedAt := None))
  }

  /** The condition "does not have the given id". */
  function IdIsNot(id: int): Todo -> bool {
    (t: Todo) => t.id != id
  }

  /** Removes every task with the given id, keeping the others in order. */
  function DeleteTodo(todos: seq<Todo>, id: int): (r: seq<Todo>)
    ensures IsSubsequence(r, todos)
    ensures forall t: Todo :: t in r <==> t in todos && t.id != id
    ensures forall t: Todo :: t.id != id ==> multiset(r)[t] == multiset(todos)[t]
  {
    FilterIsSubsequence(todos, IdIsNot(id));
    FilterCounts(todos, IdIsNot(id));
    Filter(todos, IdIsNot(id))
  }

  /** The deletion offered from the archive view; the same filter as `DeleteTodo`. */
  function PermanentDeleteTodo(todos: seq<Todo>, id: int): (r: seq<Todo>)
    ensures IsSubsequence(r, todos)
    ensures forall t: Todo :: t in r <==> t in todos && t.id != id
    ensures forall t: Todo :: t.id != id ==> multiset(r)[t] == multiset(todos)[t]
  {
    FilterIsSubsequence(todos, IdIsNot(id));
    FilterCounts(todos, IdIsNot(id));
    Filter(todos, IdIsNot(id))
  }

  // ---------------------------------------------------------------------
  // Retention arithmetic
  // ---------------------------------------------------------------------

  /** Days left before deletion, `max(0, ceil((archivedAt + 30 days - now) / DAY_MS))`,
      or null when the timestamp is falsy (null or 0). */
  function GetDaysUntilDeletion(archivedTimestamp: Option<int>, now: int): (r: Option<int>)
    ensures r.None? <==> !Truthy(archivedTimestamp)
    ensures r.Some? ==> r.value >= 0
    ensures r.Some? ==> (r.value == 0 <==> now >= archivedTimestamp.value + ARCHIVE_DURATION_MS)
    ensures r.Some? && r.value > 0 ==>
      (r.value - 1) * DAY_MS < archivedTimestamp.value + ARCHIVE_DURATION_MS - now <= r.value * DAY_MS
    ensures r.Some? && archivedTimestamp.value <= now ==> r.value <= ARCHIVE_DURATION_DAYS
    ensures r.Some? && now == archivedTimestamp.value ==> r.value == ARCHIVE_DURATION_DAYS
  {
    if !Truthy(archivedTimestamp) then None
    else
      var deletionTime := archivedTimestamp.value + ARCHIVE_DURATION_MS;
      var daysLeft := CeilDays(deletionTime - now);
      Some(Max(0, daysLeft))
  }

  /** The countdown never goes up as time passes. */
  lemma DaysUntilDeletionNonIncreasing(archivedTimestamp: Option<int>, now: int, later: int)
    requires now <= later && Truthy(archivedTimestamp)
    ensures GetDaysUntilDeletion(archivedTimestamp, later).value <= GetDaysUntilDeletion(archivedTimestamp, now).value
  {
    var deletionTime := archivedTimestamp.value + ARCHIVE_DURATION_MS;
    var c1, c2 := CeilDays(deletionTime - now), CeilDays(deletionTime - later);
    assert c2 * DAY_MS - DAY_MS < deletionTime - later <= deletionTime - now <= c1 * DAY_MS;
  }

  // ---------------------------------------------------------------------
  // Warning list
  // ---------------------------------------------------------------------

  /** Archived with a truthy timestamp and at most 7 days left (0 included). */
  predicate ExpiresSoon(t: Todo, now: int) {
    if !t.archived || !Truthy(t.archivedAt) then false
    else
      var daysLeft := GetDaysUntilDeletion(t.archivedAt, now);
      daysLeft.Some? && daysLeft.value <= EXPIRATION_WARNING_DAYS
  }

  function ExpiresSoonAt(now: int): Todo -> bool {
    (t: Todo) => ExpiresSoon(t, now)
  }

  /** The archived tasks that have at most 7 days left, in input order, as
      they are (no days-left field is added). A task is on the list exactly
      when at least 23 days have passed since it was archived. */
  function GetExpiringTodos(todos: seq<Todo>, now: int): (r: seq<Todo>)
    ensures |todos| == 0 ==> r == []
    ensures IsSubsequence(r, todos)
    ensures forall t: Todo :: t in r <==>
      t in todos && t.archived && Truthy(t.archivedAt) &&
      now - t.archivedAt.value >= (ARCHIVE_DURATION_DAYS - EXPIRATION_WARNING_DAYS) * DAY_MS
    ensures forall t: Todo :: ExpiresSoon(t, now) ==> multiset(r)[t] == multiset(todos)[t]
  {
    if |todos| == 0 then []
    else
      FilterIsSubsequence(todos, ExpiresSoonAt(now));
      FilterCounts(todos, ExpiresSoonAt(now));
      Filter(todos, ExpiresSoonAt(now))
  }

  // ---------------------------------------------------------------------
  // Purge of expired archived tasks
  // ---------------------------------------------------------------------

  /** The purge keeps a task that is not archived or has a falsy timestamp,
      and an archived one whose deletion time has not been reached. */
  predicate Retained(t: Todo, now: int) {
    if !t.archived || !Truthy(t.archivedAt) then true
    else
      var expirationTime := t.archivedAt.value + ARCHIVE_DURATION_MS;
      now < expirationTime
  }

  function RetainedAt(now: int): Todo -> bool {
    (t: Todo) => Retained(t, now)
  }

  /** Drops the archived tasks whose 30-day window has been reached. */
  function RemoveExpiredTodos(todos: seq<Todo>, now: int): (r: seq<Todo>)
    ensures |todos| == 0 ==> r == []
    ensures IsSubsequence(r, todos)
    ensures forall t: Todo :: t in r <==>
      t in todos && (!t.archived || !Truthy(t.archivedAt) || now < t.archivedAt.value + ARCHIVE_DURATION_MS)
    ensures forall t: Todo :: Retained(t, now) ==> multiset(r)[t] == multiset(todos)[t]
  {
    if |todos| == 0 then []
    else
      FilterIsSubsequence(todos, RetainedAt(now));
      FilterCounts(todos, RetainedAt(now));
      Filter(todos, RetainedAt(now))
  }

  lemma RemoveExpiredIdempotent(todos: seq<Todo>, now: int)
    ensures RemoveExpiredTodos(RemoveExpiredTodos(todos, now), now) == RemoveExpiredTodos(todos, now)
  {
    FilterIdempotent(todos, RetainedAt(now));
  }

  /** A task archived exactly 30 days ago is removed; one archived a
      millisecond later is kept. */
  lemma RemoveExpiredBoundary(t: Todo, now: int)
    requires t.archived && Truthy(t.archivedAt)
    ensures now - t.archivedAt.value == ARCHIVE_DURATION_MS ==> RemoveExpiredTodos([t], now) == []
    ensures now - t.archivedAt.value == ARCHIVE_DURATION_MS - 1 ==> RemoveExpiredTodos([t], now) == [t]
  {
    assert [t][1..] == [];
  }

  /** The purge removes exactly the tasks that have a days count and it is 0. */
  lemma RemovedIffNoDaysLeft(todos: seq<Todo>, now: int, t: Todo)
    requires t in todos && t.archived
    ensures t !in RemoveExpiredTodos(todos, now) <==> GetDaysUntilDeletion(t.archivedAt, now) == Some(0)
  {
  }

  // ---------------------------------------------------------------------
  // Filtered and sorted view
  // ---------------------------------------------------------------------

  /** Which tasks a filter selects: "active" the open, unarchived ones;
      "completed" the completed, unarchived ones; "archived" the archived
      ones; "all" and any other value the unarchived ones. */
  predicate Selected(filter: string, t: Todo) {
    if filter == "active" then !t.completed && !t.archived
    else if filter == "completed" then t.completed && !t.archived
    else if filter == "archived" then t.archived
    else !t.archived
  }

  function SelectedBy(filter: string): Todo -> bool {
    (t: Todo) => Selected(filter, t)
  }

  function FilterTodos(todos: seq<Todo>, filter: string): (r: seq<Todo>)
    ensures IsSubsequence(r, todos)
    ensures forall t: Todo :: t in r <==> t in todos && Selected(filter, t)
    ensures forall t: Todo :: Selected(filter, t) ==> multiset(r)[t] == multiset(todos)[t]
  {
    FilterIsSubsequence(todos, SelectedBy(filter));
    FilterCounts(todos, SelectedBy(filter));
    Filter(todos, SelectedBy(filter))
  }

  /** The comparator's order: ascending ids for "asc", descending otherwise. */
  function IdKey(sortOrder: string): Todo -> Key {
    (t: Todo) => Key(0, if sortOrder == "asc" then t.id else -t.id)
  }

  /** A sorted copy: the same tasks, by id in the requested direction. */
  function SortTodos(todos: seq<Todo>, sortOrder: string): (r: seq<Todo>)
    ensures multiset(r) == multiset(todos)
    ensures forall i, j :: 0 <= i < j < |r| ==>
      if sortOrder == "asc" then r[i].id <= r[j].id else r[i].id >= r[j].id
  {
    SortBy(todos, IdKey(sortOrder))
  }

  function HasId(id: int): Todo -> bool {
    (t: Todo) => t.id == id
  }

  /** The sort is stable: tasks that share an id keep their input order. */
  lemma SortTodosKeepsTies(todos: seq<Todo>, sortOrder: string, id: int)
    ensures Filter(SortTodos(todos, sortOrder), HasId(id)) == Filter(todos, HasId(id))
  {
    var k := Key(0, if sortOrder == "asc" then id else -id);
    SortByIsStable(todos, IdKey(sortOrder), k);
    FilterExt(todos, HasId(id), KeyIs(IdKey(sortOrder), k));
    FilterExt(SortTodos(todos, sortOrder), HasId(id), KeyIs(IdKey(sortOrder), k));
  }

  /** The selected tasks, each as often as in the input, by id in the
      requested direction. */
  function GetFilteredAndSortedTodos(todos: seq<Todo>, filter: string, sortOrder: string): (r: seq<Todo>)
    ensures forall t: Todo :: multiset(r)[t] == if Selected(filter, t) then multiset(todos)[t] else 0
    ensures forall t: Todo :: t in r <==> t in todos && Selected(filter, t)
    ensures forall i, j :: 0 <= i < j < |r| ==>
      if sortOrder == "asc" then r[i].id <= r[j].id else r[i].id >= r[j].id
  {
    var filtered := FilterTodos(todos, filter);
    var r := SortTodos(filtered, sortOrder);
    FilterCounts(todos, SelectedBy(filter));
    assert forall t: Todo :: t in r <==> t in filtered by {
      forall t: Todo ensures t in r <==> t in filtered {
        assert t in r <==> t in multiset(r);
      }
    }
    r
  }

  // ---------------------------------------------------------------------
  // Properties of the lifecycle
  // ---------------------------------------------------------------------

  /** A new task is selected by the "active" filter and the default one. */
  lemma AddedTodoIsActive(text: string, now: int, filter: string)
    requires filter != "completed" && filter != "archived"
    ensures Selected(filter, AddTodo(text, now))
  {
  }

  /** Toggling the same id twice gives back the original list. */
  lemma ToggleTwice(todos: seq<Todo>, id: int)
    ensures ToggleTodo(ToggleTodo(todos, id), id) == todos
  {
    var r := ToggleTodo(ToggleTodo(todos, id), id);
    assert forall i :: 0 <= i < |r| ==> r[i] == todos[i];
  }

  /** Archiving twice is archiving once, at the later time. */
  lemma ArchiveTwice(todos: seq<Todo>, id: int, first: int, second: int)
    ensures ArchiveTodo(ArchiveTodo(todos, id, first), id, second) == ArchiveTodo(todos, id, second)
  {
    var r, s := ArchiveTodo(ArchiveTodo(todos, id, first), id, second), ArchiveTodo(todos, id, second);
    assert forall i :: 0 <= i < |r| ==> r[i] == s[i];
  }

  /** Editing twice keeps only the second text. */
  lemma EditTwice(todos: seq<Todo>, id: int, first: string, second: string)
    ensures EditTodo(EditTodo(todos, id, first), id, second) == EditTodo(todos, id, second)
  {
    var r, s := EditTodo(EditTodo(todos, id, first), id, second), EditTodo(todos, id, second);
    assert forall i :: 0 <= i < |r| ==> r[i] == s[i];
  }

  /** Restoring an archived task brings back the unarchived task it was. */
  lemma RestoreUndoesArchive(todos: seq<Todo>, id: int, now: int)
    requires forall t: Todo :: t in todos && t.id == id ==> !t.archived && t.archivedAt == None
    ensures RestoreTodo(ArchiveTodo(todos, id, now), id) == todos
  {
    var r := RestoreTodo(ArchiveTodo(todos, id, now), id);
    forall i | 0 <= i < |r| ensures r[i] == todos[i] {
      assert todos[i] in todos;
    }
  }

  /** With an id no task has, every edit and both deletions return the input. */
  lemma UnknownIdIsNoop(todos: seq<Todo>, id: int, now: int, text: string)
    requires forall t: Todo :: t in todos ==> t.id != id
    ensures ToggleTodo(todos, id) == todos
    ensures EditTodo(todos, id, text) == todos
    ensures ArchiveTodo(todos, id, now) == todos
    ensures RestoreTodo(todos, id) == todos
    ensures DeleteTodo(todos, id) == todos
    ensures PermanentDeleteTodo(todos, id) == todos
  {
    assert forall i :: 0 <= i < |todos| ==> todos[i].id != id by {
      forall i | 0 <= i < |todos| ensures todos[i].id != id {
        assert todos[i] in todos;
      }
    }
    FilterKeepsAll(todos, IdIsNot(id));
  }

  /** The two deletions agree, and deleting twice is deleting once. */
  lemma DeleteIdempotent(todos: seq<Todo>, id: int)
    ensures PermanentDeleteTodo(todos, id) == DeleteTodo(todos, id)
    ensures DeleteTodo(DeleteTodo(todos, id), id) == DeleteTodo(todos, id)
    ensures PermanentDeleteTodo(PermanentDeleteTodo(todos, id), id) == PermanentDeleteTodo(todos, id)
  {
    FilterIdempotent(todos, IdIsNot(id));
  }

  /** Every operation keeps a task's archive stamp present exactly when the
      task is archived. */
  lemma OperationsKeepArchiveConsistent(todos: seq<Todo>, id: int, now: int, text: string)
    requires AllArchiveConsistent(todos)
    ensures ArchiveConsistent(AddTodo(text, now))
    ensures AllArchiveConsistent(ToggleTodo(todos, id))
    ensures AllArchiveConsistent(EditTodo(todos, id, text))
    ensures AllArchiveConsistent(ArchiveTodo(todos, id, now))
    ensures AllArchiveConsistent(RestoreTodo(todos, id))
    ensures AllArchiveConsistent(DeleteTodo(todos, id))
    ensures AllArchiveConsistent(RemoveExpiredTodos(todos, now))
  {
    forall i | 0 <= i < |todos| ensures ArchiveConsistent(todos[i]) {
      assert todos[i] in todos;
    }
  }
}
