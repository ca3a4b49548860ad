/** Where the two copies of the todo utilities agree and where they differ:
    `src/utils/todoUtils.js` (module TodoUtils) against
    `src/features/todos/utils/todoUtils.js` (module FeatureTodoUtils). */
module CopyDifferences {
  import opened TodoModel
  import opened Sequences
  import opened Sorting
  import TodoUtils
  import FeatureTodoUtils

  // ---------------------------------------------------------------------
  // Creation, per-id edits and day counts
  // ---------------------------------------------------------------------

  /** The first copy appends the record that the second copy returns, which
      is what the second copy's caller does with it. */
  lemma AddTodoAppendsRecord(todos: seq<Todo>, text: string, now: int)
    ensures TodoUtils.AddTodo(todos, text, now) == todos + [FeatureTodoUtils.AddTodo(text, now)]
  {
  }

  /** The per-id edits and the deletions are the same functions in both copies. */
  lemma EditsAgree(todos: seq<Todo>, id: int, now: int, text: string)
    ensures TodoUtils.ToggleTodo(todos, id) == FeatureTodoUtils.ToggleTodo(todos, id)
    ensures TodoUtils.EditTodo(todos, id, text) == FeatureTodoUtils.EditTodo(todos, id, text)
    ensures TodoUtils.ArchiveTodo(todos, id, now) == FeatureTodoUtils.ArchiveTodo(todos, id, now)
    ensures TodoUtils.RestoreTodo(todos, id) == FeatureTodoUtils.RestoreTodo(todos, id)
    ensures TodoUtils.PermanentDeleteTodo(todos, id) == FeatureTodoUtils.PermanentDeleteTodo(todos, id)
    ensures TodoUtils.PermanentDeleteTodo(todos, id) == FeatureTodoUtils.DeleteTodo(todos, id)
  {
    var a, b := TodoUtils.ToggleTodo(todos, id), FeatureTodoUtils.ToggleTodo(todos, id);
    assert forall i :: 0 <= i < |a| ==> a[i] == b[i];
    FilterExt(todos, TodoUtils.IdIsNot(id), FeatureTodoUtils.IdIsNot(id));
  }

  /** For a truthy timestamp the two day counts agree: the ceiling of
      `30 - x` days is 30 minus the floor of `x` days. The second copy
      answers null where the first computes from a stamp of 0. */
  lemma DaysAgree(archivedAt: Option<int>, now: int)
    ensures Truthy(archivedAt) ==>
      FeatureTodoUtils.GetDaysUntilDeletion(archivedAt, now) == Some(TodoUtils.GetDaysUntilDeletion(archivedAt, now))
    ensures !Truthy(archivedAt) ==> FeatureTodoUtils.GetDaysUntilDeletion(archivedAt, now) == None
  {
    if Truthy(archivedAt) {
      var a := archivedAt.value;
      var f := FloorDays(now - a);
      var c := CeilDays(a + ARCHIVE_DURATION_MS - now);
      assert f * DAY_MS <= now - a < f * DAY_MS + DAY_MS;
      assert c * DAY_MS - DAY_MS < a + ARCHIVE_DURATION_MS - now <= c * DAY_MS;
      assert c == ARCHIVE_DURATION_DAYS - f;
    }
  }

  /** On the "completed" and "archived" tabs, with "asc" or "desc", both
      copies show exactly the same list. */
  lemma TabsAgree(todos: seq<Todo>, filter: string, sortOrder: string)
    requires filter == "completed" || filter == "archived"
    requires sortOrder == "asc" || sortOrder == "desc"
    ensures TodoUtils.GetFilteredAndSortedTodos(todos, filter, sortOrder) ==
            FeatureTodoUtils.GetFilteredAndSortedTodos(todos, filter, sortOrder)
  {
    FilterExt(todos, TodoUtils.ShownBy(filter), FeatureTodoUtils.SelectedBy(filter));
    SortByExt(Filter(todos, TodoUtils.ShownBy(filter)), TodoUtils.ViewKey(filter, sortOrder), FeatureTodoUtils.IdKey(sortOrder));
  }

  // ---------------------------------------------------------------------
  // Purge
  // ---------------------------------------------------------------------

  /** For a task with a truthy stamp the purges disagree only at the exact
      30-day boundary, which the first copy keeps and the second removes. */
  lemma RetentionDiffersAtBoundary(t: Todo, now: int)
    requires t.archived ==> Truthy(t.archivedAt)
    ensures FeatureTodoUtils.Retained(t, now) ==> TodoUtils.Retained(t, now)
    ensures TodoUtils.Retained(t, now) && !FeatureTodoUtils.Retained(t, now) <==>
      t.archived && now - t.archivedAt.value == ARCHIVE_DURATION_MS
  {
  }

  /** When every archived task has a truthy stamp and none sits exactly on
      the boundary, the two purges give the same list. */
  lemma PurgesAgreeOffBoundary(todos: seq<Todo>, now: int)
    requires forall t: Todo :: t in todos && t.archived ==>
      Truthy(t.archivedAt) && now - t.archivedAt.value != ARCHIVE_DURATION_MS
    ensures TodoUtils.RemoveExpiredTodos(todos, now) == FeatureTodoUtils.RemoveExpiredTodos(todos, now)
  {
    FilterExt(todos, TodoUtils.RetainedAt(now), FeatureTodoUtils.RetainedAt(now));
  }

  /** An archived task whose stamp is null or 0: the first copy computes
      with 0 and purges it, the second finds the stamp falsy and keeps it
      for good. */
  lemma UnstampedArchivedTask(t: Todo, now: int)
    requires t.archived && !Truthy(t.archivedAt) && now > ARCHIVE_DURATION_MS
    ensures TodoUtils.RemoveExpiredTodos([t], now) == []
    ensures FeatureTodoUtils.RemoveExpiredTodos([t], now) == [t]
  {
    assert [t][1..] == [];
  }

  // ---------------------------------------------------------------------
  // Warning list
  // ---------------------------------------------------------------------

  /** For a truthy stamp the first copy warns about a task exactly when the
      second does and the task still has a day left; so a task with 0 days
      left is only on the second copy's list. */
  lemma WarningsDifferAtZeroDays(t: Todo, now: int)
    requires Truthy(t.archivedAt)
    ensures TodoUtils.ExpiresSoon(t, now) <==>
      FeatureTodoUtils.ExpiresSoon(t, now) && TodoUtils.GetDaysUntilDeletion(t.archivedAt, now) > 0
    ensures t.archived && now >= t.archivedAt.value + ARCHIVE_DURATION_MS ==>
      FeatureTodoUtils.ExpiresSoon(t, now) && !TodoUtils.ExpiresSoon(t, now)
  {
    DaysAgree(t.archivedAt, now);
  }

  /** Every task on the first copy's warning list is on the second's. */
  lemma WarningListsNest(todos: seq<Todo>, now: int)
    requires forall t: Todo :: t in todos && t.archived ==> Truthy(t.archivedAt)
    ensures forall e :: e in TodoUtils.GetExpiringTodos(todos, now) ==>
      e.todo in FeatureTodoUtils.GetExpiringTodos(todos, now)
  {
    forall e | e in TodoUtils.GetExpiringTodos(todos, now)
      ensures e.todo in FeatureTodoUtils.GetExpiringTodos(todos, now)
    {
      WarningsDifferAtZeroDays(e.todo, now);
    }
  }

  /** Two warned tasks given with the later deadline first: the first copy
      lists them fewest days first, so reversed, the second in input order. */
  lemma WarningOrderDiffers(x: Todo, y: Todo, now: int)
    requires TodoUtils.ExpiresSoon(x, now) && TodoUtils.ExpiresSoon(y, now)
    requires Truthy(x.archivedAt) && Truthy(y.archivedAt)
    requires TodoUtils.GetDaysUntilDeletion(y.archivedAt, now) < TodoUtils.GetDaysUntilDeletion(x.archivedAt, now)
    ensures TodoUtils.GetExpiringTodos([x, y], now) == [TodoUtils.Annotate(y, now), TodoUtils.Annotate(x, now)]
    ensures FeatureTodoUtils.GetExpiringTodos([x, y], now) == [x, y]
  {
    WarningsDifferAtZeroDays(x, now);
    WarningsDifferAtZeroDays(y, now);
    var todos := [x, y];
    assert todos[1..] == [y] && [y][1..] == [];
    assert Filter(todos, TodoUtils.ExpiresSoonAt(now)) == todos;
    assert Filter(todos, FeatureTodoUtils.ExpiresSoonAt(now)) == todos;
    var ax, ay := TodoUtils.Annotate(x, now), TodoUtils.Annotate(y, now);
    var annotated := Map(todos, TodoUtils.AnnotateAt(now));
    assert annotated == [ax, ay];
    assert annotated[1..] == [ay] && [ay][1..] == [];
    assert SortBy([ay], TodoUtils.DaysLeftKey) == [ay];
    assert Insert(ax, [ay], TodoUtils.DaysLeftKey) == [ay, ax] by {
      assert !KeyLe(TodoUtils.DaysLeftKey(ax), TodoUtils.DaysLeftKey(ay));
      assert [ay][1..] == [];
    }
  }

  // ---------------------------------------------------------------------
  // View
  // ---------------------------------------------------------------------

  /** The "active" value selects open tasks only in the second copy; the
      first copy has no such filter and shows every unarchived task. */
  lemma ActiveFilterDiffers(t: Todo)
    requires t.completed && !t.archived
    ensures TodoUtils.Shown("active", t)
    ensures !FeatureTodoUtils.Selected("active", t)
  {
  }

  /** On the "all" tab the first copy puts a completed task below an open
      one that is older, the second copy orders by id alone. */
  lemma AllTabPartitionDiffers()
    ensures TodoUtils.GetFilteredAndSortedTodos(
              [Todo(1, "a", false, false, None), Todo(2, "b", true, false, None)], "all", "desc") ==
            [Todo(1, "a", false, false, None), Todo(2, "b", true, false, None)]
    ensures FeatureTodoUtils.GetFilteredAndSortedTodos(
              [Todo(1, "a", false, false, None), Todo(2, "b", true, false, None)], "all", "desc") ==
            [Todo(2, "b", true, false, None), Todo(1, "a", false, false, None)]
  {
    var open, done := Todo(1, "a", false, false, None), Todo(2, "b", true, false, None);
    var todos := [open, done];
    assert todos[1..] == [done] && [done][1..] == [];
    assert Filter(todos, TodoUtils.ShownBy("all")) == todos;
    assert Filter(todos, FeatureTodoUtils.SelectedBy("all")) == todos;
    assert SortBy([done], TodoUtils.ViewKey("all", "desc")) == [done];
    assert SortBy([done], FeatureTodoUtils.IdKey("desc")) == [done];
  }

  /** A sort order other than "asc" and "desc" sorts ascending in the first
      copy and descending in the second. */
  lemma OtherSortOrderDiffers(todos: seq<Todo>, filter: string, sortOrder: string)
    requires sortOrder != "asc" && sortOrder != "desc"
    requires filter == "completed" || filter == "archived"
    ensures forall i, j :: 0 <= i < j < |TodoUtils.GetFilteredAndSortedTodos(todos, filter, sortOrder)| ==>
      TodoUtils.GetFilteredAndSortedTodos(todos, filter, sortOrder)[i].id <=
      TodoUtils.GetFilteredAndSortedTodos(todos, filter, sortOrder)[j].id
    ensures forall i, j :: 0 <= i < j < |FeatureTodoUtils.GetFilteredAndSortedTodos(todos, filter, sortOrder)| ==>
      FeatureTodoUtils.GetFilteredAndSortedTodos(todos, filter, sortOrder)[i].id >=
      FeatureTodoUtils.GetFilteredAndSortedTodos(todos, filter, sortOrder)[j].id
  {
  }
}
