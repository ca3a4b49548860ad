# Todo lifecycle and archive expiration, in Dafny

This project models the task lifecycle engine of a single-user browser todo
application: the pure functions that create tasks, toggle, edit, archive,
restore and delete them, count the days an archived task has left, purge
archived tasks whose 30-day retention window has passed, list the tasks that
will soon be purged, and derive the filtered, sorted view.

The repository carries two copies of these functions, and both are modelled:

- `src/utils/todoUtils.js` is module `TodoUtils` (`todo_utils.dfy`).
- `src/features/todos/utils/todoUtils.js` is module `FeatureTodoUtils`
  (`feature_todo_utils.dfy`).
- Module `CopyDifferences` (`copy_differences.dfy`) proves where the two
  copies agree and pins down where they differ.

Shared pieces:

- `TodoModel` (`todo_model.dfy`) holds the task record and the retention
  constants. It also holds the JavaScript conventions the code relies on:
  a null `archivedAt` counts as 0 in arithmetic (`AsNumber`), and null and 0
  are falsy (`Truthy`). It has `Math.floor`/`Math.ceil` of a millisecond
  quotient by one day, and the per-id `map` shape of every edit.
- `Sequences` (`sequences.dfy`) models `Array.prototype.filter` and `map`.
- `Sorting` (`sorting.dfy`) models `Array.prototype.sort` with the copies'
  comparators. Every comparator here orders by an integer pair
  lexicographically. JavaScript's sort is stable, so the result is the stable
  sort by that key. The model computes it by insertion sort and proves it
  sorted, a permutation, and stable.

The clock reading `Date.now()` is an explicit parameter `now`. Filter and
sort-order values stay strings, because the code compares strings and has a
default branch for every other value.

The code is followed where it differs from the intended design:

- Creation and editing store the text verbatim. Rejecting blank text happens
  only in the form components (`src/components/TodoForm.jsx:10`,
  `src/components/TodoItem.jsx:36`).
- Ids are clock readings and nothing enforces uniqueness. The per-id lemmas
  therefore speak of every task with the given id. `TodoUtils.AddKeepsIdsUnique`
  states when uniqueness survives an insertion.
- Re-archiving an archived task refreshes its stamp (`ArchiveTwice`).
- The two copies differ in these places, each stated by a lemma in `CopyDifferences`:
  - `addTodo` appends in the first copy and returns the single new record in
    the second (`AddTodoAppendsRecord`);
  - the day count is null for a null or 0 stamp in the second copy and a
    number in the first (`DaysAgree`);
  - the purge boundary at exactly 30 days (`RetentionDiffersAtBoundary`);
  - an archived task with a null or 0 stamp is purged by the first copy and
    kept for good by the second (`UnstampedArchivedTask`);
  - tasks with 0 days left on the warning list (`WarningsDifferAtZeroDays`);
  - the order of the warning list (`WarningOrderDiffers`);
  - the completed-last partition of the "all" tab (`AllTabPartitionDiffers`);
  - the "active" filter (`ActiveFilterDiffers`);
  - the default direction for an unknown sort order (`OtherSortOrderDiffers`).
- The first copy's warning entries carry a `daysLeft` field and the second
  copy's do not; see the `ExpirationNotice.jsx` line under "## Left out".

## Model

| member | source | states |
|---|---|---|
| TodoModel.FloorDays | src/utils/todoUtils.js:68 | `Math.floor` of a quotient by one day: the result is the number of whole days, `d*DAY <= ms < (d+1)*DAY` |
| TodoModel.CeilDays | src/features/todos/utils/todoUtils.js:61 | `Math.ceil` of a quotient by one day: `(d-1)*DAY < ms <= d*DAY` |
| TodoModel.MapMatching | src/utils/todoUtils.js:21-25 | `todos.map(t => t.id === id ? f(t) : t)`: same length, elements with another id unchanged, matching ones replaced by `f` of themselves |
| Sequences.Filter | src/utils/todoUtils.js:54-56 | `filter` keeps exactly the elements satisfying the condition and is never longer than its input |
| Sequences.FilterIsSubsequence | src/utils/todoUtils.js:104-110 | a filter's result is an order-preserving subsequence of its input |
| Sequences.FilterMultiplicity | src/utils/todoUtils.js:104-110 | a filter keeps every copy of an accepted element and no copy of a rejected one |
| Sequences.FilterIdempotent | src/utils/todoUtils.js:104-110 | filtering twice with the same condition is filtering once |
| Sequences.FilterAppend | src/utils/todoUtils.js:54-56 | filtering distributes over concatenation |
| Sequences.FilterKeepsAll | src/utils/todoUtils.js:54-56 | a filter every element passes returns its input |
| Sequences.FilterExt | src/features/todos/utils/todoUtils.js:104-116 | a filter depends only on which elements its condition accepts |
| Sequences.Map | src/utils/todoUtils.js:120-123 | `map` has the input's length and applies the function at each index |
| Sequences.FilterFilter | src/utils/todoUtils.js:114-124 | filtering by `p` and then by `q` is filtering once by both |
| Sequences.FilterMap | src/utils/todoUtils.js:114-124 | filtering mapped elements is mapping the elements whose image passes, in order |
| Sequences.MapCounts | src/utils/todoUtils.js:120-123 | a map whose effect can be undone keeps every element's multiplicity |
| Sorting.Insert | src/utils/todoUtils.js:87-100 | inserting into a sorted list keeps it sorted and adds exactly the one element |
| Sorting.SortBy | src/utils/todoUtils.js:87-100 | the sort returns a permutation of its input ordered by the comparator's key |
| Sorting.InsertStable | src/utils/todoUtils.js:87-100 | insertion puts the new element first among elements with an equal key and keeps their order |
| Sorting.SortByIsStable | src/utils/todoUtils.js:87-100 | the sort is stable: for every key, elements with that key keep their input order |
| Sorting.SortByExt | src/features/todos/utils/todoUtils.js:118-122 | two comparators that agree on every element give the same sorted list |
| Sorting.InsertExt | src/features/todos/utils/todoUtils.js:118-122 | insertion under two agreeing comparators gives the same list |
| TodoUtils.AddTodo | src/utils/todoUtils.js:10-18 | the result is the input plus exactly one new element at the end: id `now`, text verbatim, open, unarchived, no stamp |
| TodoUtils.ToggleTodo | src/utils/todoUtils.js:21-25 | length kept; each task differs at most in `completed`, which flips exactly when its id matches |
| TodoUtils.ArchiveTodo | src/utils/todoUtils.js:28-38 | length kept; tasks with another id unchanged; matching tasks become archived with stamp `now`, other fields kept |
| TodoUtils.RestoreTodo | src/utils/todoUtils.js:41-51 | length kept; tasks with another id unchanged; matching tasks become unarchived with no stamp, other fields kept |
| TodoUtils.EditTodo | src/utils/todoUtils.js:59-63 | length kept; tasks with another id unchanged; matching tasks get the new text verbatim |
| TodoUtils.PermanentDeleteTodo | src/utils/todoUtils.js:54-56 | order-preserving subsequence holding exactly the tasks with another id, each as often as before |
| TodoUtils.GetDaysUntilDeletion | src/utils/todoUtils.js:66-70 | never negative; 0 exactly when 30 days or more have passed; otherwise `d` days left means `30-d` whole days passed; at most 30 once archived; exactly 30 at the archive instant |
| TodoUtils.DaysUntilDeletionNonIncreasing | src/utils/todoUtils.js:66-70 | the days left never increase as the clock advances |
| TodoUtils.RemoveExpiredTodos | src/utils/todoUtils.js:104-110 | order-preserving subsequence; a task stays iff it is unarchived or was archived at most 30 days ago; every retained task keeps all its copies, so duplicates survive together |
| TodoUtils.RemoveExpiredIdempotent | src/utils/todoUtils.js:104-110 | purging twice at the same instant is purging once |
| TodoUtils.RemoveExpiredBoundary | src/utils/todoUtils.js:108 | a task archived exactly 30 days ago is kept; one archived 30 days and 1 ms ago is removed |
| TodoUtils.RemovedHaveNoDaysLeft | src/utils/todoUtils.js:104-110 | every purged task is archived with 0 days left; an archived task with days left survives |
| TodoUtils.ExpiresSoonWindow | src/utils/todoUtils.js:116-118 | a task is warned about exactly when 23 to under 30 days have passed since archiving |
| TodoUtils.GetExpiringTodos | src/utils/todoUtils.js:113-125 | only archived tasks with 1 to 7 days left, each paired with its days left, each as often as in the input, ascending by days left |
| TodoUtils.ExpiringKeepsTies | src/utils/todoUtils.js:124 | the stable sort keeps tasks with the same days left in their input order: the entries with `d` days left are exactly those tasks, annotated, in input order |
| TodoUtils.ExpiringCandidates | src/utils/todoUtils.js:114-123 | filtering then annotating yields exactly the warned tasks with their days left, with their multiplicities |
| TodoUtils.GetFilteredAndSortedTodos | src/utils/todoUtils.js:73-101 | a permutation of the tasks the filter shows ("completed": completed unarchived; "archived": archived; else unarchived); completed below open outside those two filters; ids descending for "desc", ascending otherwise, within each partition |
| TodoUtils.ViewKeepsTies | src/utils/todoUtils.js:87-100 | tasks the comparator cannot tell apart keep their input order |
| TodoUtils.ArchivedLeavesDefaultView | src/utils/todoUtils.js:28-38 | after archiving, no task with that id is in the default view and each archived task is in the "archived" view |
| TodoUtils.ToggledStaysInDefaultView | src/utils/todoUtils.js:21-25 | a toggled unarchived task is still in the default view |
| TodoUtils.AddThenDelete | src/utils/todoUtils.js:10-18 | deleting the new task's id undoes the addition, and returns the input when no task had that id |
| TodoUtils.AddedTodoIsListed | src/utils/todoUtils.js:10-18 | a new task appears in the default view |
| TodoUtils.ToggleTwice | src/utils/todoUtils.js:21-25 | toggling the same id twice returns the original list |
| TodoUtils.ArchiveTwice | src/utils/todoUtils.js:28-38 | re-archiving overwrites the stamp with the newer time |
| TodoUtils.EditTwice | src/utils/todoUtils.js:59-63 | the last edit wins |
| TodoUtils.RestoreUndoesArchive | src/utils/todoUtils.js:28-51 | restore after archive gives back the unarchived tasks unchanged |
| TodoUtils.UnknownIdIsNoop | src/utils/todoUtils.js:21-63 | with an id no task has, toggle, archive, restore, edit and delete return the input |
| TodoUtils.PermanentDeleteIdempotent | src/utils/todoUtils.js:54-56 | deleting twice is deleting once |
| TodoUtils.OperationsKeepArchiveConsistent | src/utils/todoUtils.js:10-110 | every operation keeps "stamp present iff archived" |
| TodoUtils.AddKeepsIdsUnique | src/utils/todoUtils.js:10-18 | ids stay unique when the clock reading exceeds every existing id |
| FeatureTodoUtils.AddTodo | src/features/todos/utils/todoUtils.js:9-17 | a single record: id `now`, text verbatim, open, unarchived, no stamp |
| FeatureTodoUtils.ToggleTodo | src/features/todos/utils/todoUtils.js:20-24 | length kept; each task differs at most in `completed`, which flips exactly when its id matches |
| FeatureTodoUtils.EditTodo | src/features/todos/utils/todoUtils.js:26-30 | length kept; tasks with another id unchanged; matching tasks get the new text verbatim |
| FeatureTodoUtils.ArchiveTodo | src/features/todos/utils/todoUtils.js:32-36 | length kept; tasks with another id unchanged; matching tasks become archived with stamp `now` |
| FeatureTodoUtils.RestoreTodo | src/features/todos/utils/todoUtils.js:38-42 | length kept; tasks with another id unchanged; matching tasks become unarchived with no stamp |
| FeatureTodoUtils.DeleteTodo | src/features/todos/utils/todoUtils.js:44-46 | order-preserving subsequence holding exactly the tasks with another id, each as often as before |
| FeatureTodoUtils.PermanentDeleteTodo | src/features/todos/utils/todoUtils.js:49-53 | the same result as `DeleteTodo` |
| FeatureTodoUtils.DeleteIdempotent | src/features/todos/utils/todoUtils.js:44-53 | both deletions agree and deleting twice is deleting once |
| FeatureTodoUtils.GetDaysUntilDeletion | src/features/todos/utils/todoUtils.js:56-64 | null exactly for a falsy stamp; otherwise never negative, 0 exactly once the deletion time is reached, else the number of started days until it; at most 30 once archived; 30 at the archive instant |
| FeatureTodoUtils.DaysUntilDeletionNonIncreasing | src/features/todos/utils/todoUtils.js:56-64 | the days left never increase as the clock advances |
| FeatureTodoUtils.GetExpiringTodos | src/features/todos/utils/todoUtils.js:67-76 | `[]` for no tasks; an order-preserving subsequence of the archived tasks with a truthy stamp archived 23 or more days ago (0 days left included), each as often as in the input |
| FeatureTodoUtils.RemoveExpiredTodos | src/features/todos/utils/todoUtils.js:79-91 | `[]` for no tasks; order-preserving subsequence; keeps unarchived tasks, archived ones with a falsy stamp, and others iff `now < stamp + 30 days`; every retained task keeps all its copies |
| FeatureTodoUtils.RemoveExpiredIdempotent | src/features/todos/utils/todoUtils.js:79-91 | purging twice at the same instant is purging once |
| FeatureTodoUtils.RemoveExpiredBoundary | src/features/todos/utils/todoUtils.js:89 | a task archived exactly 30 days ago is removed; one archived 1 ms later is kept |
| FeatureTodoUtils.RemovedIffNoDaysLeft | src/features/todos/utils/todoUtils.js:79-91 | an archived task is purged exactly when its days count is `0` |
| FeatureTodoUtils.FilterTodos | src/features/todos/utils/todoUtils.js:104-116 | order-preserving subsequence of exactly the selected tasks ("active": open unarchived; "completed": completed unarchived; "archived": archived; otherwise unarchived), multiplicities kept |
| FeatureTodoUtils.SortTodos | src/features/todos/utils/todoUtils.js:118-122 | a permutation of the input, ids ascending for "asc" and descending otherwise |
| FeatureTodoUtils.SortTodosKeepsTies | src/features/todos/utils/todoUtils.js:118-122 | tasks sharing an id keep their input order |
| FeatureTodoUtils.GetFilteredAndSortedTodos | src/features/todos/utils/todoUtils.js:125-128 | a permutation of the selected tasks, ids ascending for "asc" and descending otherwise |
| FeatureTodoUtils.AddedTodoIsActive | src/features/todos/utils/todoUtils.js:9-17 | a new task is selected by the "active" and default filters |
| FeatureTodoUtils.ToggleTwice | src/features/todos/utils/todoUtils.js:20-24 | toggling the same id twice returns the original list |
| FeatureTodoUtils.ArchiveTwice | src/features/todos/utils/todoUtils.js:32-36 | re-archiving overwrites the stamp with the newer time |
| FeatureTodoUtils.EditTwice | src/features/todos/utils/todoUtils.js:26-30 | the last edit wins |
| FeatureTodoUtils.RestoreUndoesArchive | src/features/todos/utils/todoUtils.js:32-42 | restore after archive gives back the unarchived tasks unchanged |
| FeatureTodoUtils.UnknownIdIsNoop | src/features/todos/utils/todoUtils.js:20-53 | with an id no task has, every edit and both deletions return the input |
| FeatureTodoUtils.OperationsKeepArchiveConsistent | src/features/todos/utils/todoUtils.js:9-91 | every operation keeps "stamp present iff archived" |
| CopyDifferences.AddTodoAppendsRecord | src/features/todos/utils/todoUtils.js:9-17 | the first copy's `addTodo` appends the record the second copy returns |
| CopyDifferences.EditsAgree | src/features/todos/utils/todoUtils.js:20-53 | toggle, edit, archive, restore and the deletions are the same functions in both copies |
| CopyDifferences.DaysAgree | src/features/todos/utils/todoUtils.js:56-64 | for a truthy stamp the ceiling formula equals the floor formula of src/utils/todoUtils.js:66-70; a falsy stamp gives null |
| CopyDifferences.TabsAgree | src/features/todos/utils/todoUtils.js:125-128 | on the "completed" and "archived" tabs with "asc" or "desc" both copies show the same list |
| CopyDifferences.RetentionDiffersAtBoundary | src/features/todos/utils/todoUtils.js:89 | with truthy stamps the purges differ only at exactly 30 days, kept by src/utils/todoUtils.js:108 |
| CopyDifferences.PurgesAgreeOffBoundary | src/features/todos/utils/todoUtils.js:79-91 | with truthy stamps and no task on the boundary both purges give the same list |
| CopyDifferences.UnstampedArchivedTask | src/features/todos/utils/todoUtils.js:85 | an archived task with a null or 0 stamp is kept forever here and purged by the first copy once 30 days of clock have passed |
| CopyDifferences.WarningsDifferAtZeroDays | src/features/todos/utils/todoUtils.js:74 | the first copy warns iff the second does and a day is left; a task with 0 days left is only on the second list |
| CopyDifferences.WarningOrderDiffers | src/utils/todoUtils.js:124 | two warned tasks given with the later deadline first come out reversed (fewest days first) from the first copy and in input order from the second (src/features/todos/utils/todoUtils.js:70-75 has no sort) |
| CopyDifferences.WarningListsNest | src/features/todos/utils/todoUtils.js:67-76 | every task on the first copy's warning list is on the second's |
| CopyDifferences.ActiveFilterDiffers | src/features/todos/utils/todoUtils.js:106-107 | a completed unarchived task is selected by "active" only in the first copy |
| CopyDifferences.AllTabPartitionDiffers | src/utils/todoUtils.js:89-92 | on the "all" tab the first copy puts a completed task below an older open one; the second orders by id alone |
| CopyDifferences.OtherSortOrderDiffers | src/features/todos/utils/todoUtils.js:120 | on the "completed" and "archived" tabs, an unknown sort order sorts ascending in the first copy and descending in the second |

## Left out

- Persistence is not modelled. This covers `saveTodos`/`loadTodos` (src/features/todos/utils/todoUtils.js:94-101) and both `storageUtils.js` files. They wrap `localStorage` and JSON encoding, which are foreign calls.
- The React hooks are not modelled: state, effects, and the daily purge timer in `src/hooks/useTodos.js` and `src/features/todos/hooks/useTodos.js`. The counts they derive are one-line filters over the modelled functions.
- Theme, icon, context and UI components are not modelled. They are presentation only.
- The clock is not modelled. Every `Date.now()` is the parameter `now`.
- TodoUtils.ArchiveTodo and FeatureTodoUtils.ArchiveTodo: every matching task gets the same stamp `now`. The source reads the clock once per matching task inside its `map` (src/utils/todoUtils.js:34, src/features/todos/utils/todoUtils.js:34). So two tasks sharing an id whose stamps differ by a millisecond, and may fall on opposite sides of the purge boundary, are not modelled.
- TodoUtils.GetExpiringTodos: one `now` serves the whole call. The source reads the clock afresh in each `getDaysUntilDeletion` call, in its filter and again in its map (src/utils/todoUtils.js:117, 122). So a day boundary crossed between the two reads is not modelled.
- FeatureTodoUtils.GetExpiringTodos: one `now` serves the whole call. The source reads the clock afresh for each task, inside `getDaysUntilDeletion` called from its filter (src/features/todos/utils/todoUtils.js:59, 73). So a day boundary crossed while the list is walked is not modelled.
- Floating point is not modelled. `Math.floor`/`Math.ceil` of a millisecond quotient are exact integer floor and ceiling, which is what they give for integer timestamps of realistic size.
- Only two values of `archivedAt` are modelled: null and an integer. A missing field (`undefined`, whose arithmetic gives `NaN`) is not.
- A null or undefined task list is not modelled. Sequences are never null, so the `!todos` guards (src/features/todos/utils/todoUtils.js:68, 80) reduce to the empty-list check.
- Array identity is not modelled. `[...todos]` copies and "the input is not mutated" hold by construction, since sequences are values.
- Blank-text rejection is not modelled. It lives in the form components, not in these utilities.
- The second copy's warning list carries no `daysLeft`, but `src/features/todos/components/ExpirationNotice.jsx:82-84` reads it. That component is not part of this model.
