# To-do list data layer, modelled in Dafny

This project models the data layer of the Android to-do app (package
`com.example.todolistapp2`). The model covers:

- the two Room tables, `task_lists` and `tasks`, and the queries and writes of `TaskDao` and `TaskListDao`;
- the lists-with-counts feed of `TaskListViewModel`;
- the store logic of the task screen (`TasksActivity`): adding a task, deleting the completed tasks with undo, deleting one task with undo, building a share link, and importing a shared list from a deep link;
- the sample data `populateDatabase` stores in a new database.

Files:

- `Model.dfy`: the records `Task`, `TaskList`, `SharedTask`, `SharedTaskList` and `TaskListWithCount`, the "no id" convention (`NoId = 0`) and Kotlin's `Long.toInt()`.
- `Table.dfy`: the row semantics the two tables share. A table is a sequence of rows kept in strictly ascending id order, and `ORDER BY id DESC` reverses it. `@Insert(onConflict = REPLACE)` is `Upsert`, `@Update` is `Replace` and `@Delete` is `Remove`. Deleting a list of rows one by one is `RemoveEach`, and inserting them again is `ReinsertEach`.
- `TaskDao.dfy` and `TaskListDao.dfy`: the queries as functions over the rows. Each table is a class with `rows` and `nextId` fields whose methods are the DAO writes. A row stored without an id gets `nextId`, which only grows, as with an AUTOINCREMENT key.
- `TaskListViewModel.dfy`: the `allListsWithCount` aggregation, and a view-model class forwarding `insertList` and `deleteList`.
- `TasksActivity.dfy`: the share projection, the share link, the rows an import creates, and the task screen as a class. Its fields are the activity's `listId`, `listName`, `listColor` and `currentTasks`, and its methods are the screen's store operations. Each of those methods is proved against the table functions. The lemmas prove three results:
  - deleting the completed tasks removes exactly the completed tasks of the shown list;
  - each undo restores the table exactly;
  - a shared list survives encoding and import, but is then shown in reverse order.
- `AppDatabase.dfy`: `populateDatabase` as a sequence of inserts, with lemmas about the seeded state.

The Gson and Base64 codec is a pair of function parameters, `encode` and `decode`. `IsCodec` states the round trip that the share-then-import lemma requires.

Three behaviours of the code are worth stating up front:

- An imported list is shown in the reverse of the order the sender saw. The sender's shown tasks come from the list query, newest id first (`TasksActivity.kt:150`, `TaskDao.kt:10`). The share payload keeps that order (`TasksActivity.kt:215`). The import inserts the entries in payload order under growing fresh ids (`TasksActivity.kt:287-293`), and the receiver's list query again puts the newest id first. `TasksActivity.TasksScreen.ImportList` and `TasksActivity.ImportedListDisplay` state this.
- Every share payload carries colour 0. `listColor` starts at 0 (`TasksActivity.kt:43`), nothing assigns it, and `shareList` puts it in the payload (`TasksActivity.kt:218`). `TasksActivity.TasksScreen.Valid` keeps `listColor == 0`, and `TasksActivity.TasksScreen.ShareList` states the colour 0.
- Deleting a list leaves its tasks in place. `Task.kt:3-8` declares no foreign key and no cascade.

## Model

| member | source | states |
|---|---|---|
| Model.ToInt32 | app/src/main/java/om/example/todolistapp2/database/AppDatabase.kt:55-57 | `Long.toInt()` gives the 32-bit two's-complement value congruent to the input modulo 2^32 |
| Model.ToInt32InRange | app/src/main/java/om/example/todolistapp2/TasksActivity.kt:291 | an id already in the 32-bit range is unchanged by `toInt()` |
| Table.Where | app/src/main/java/om/example/todolistapp2/database/TaskDao.kt:10 | a `WHERE` clause keeps exactly the rows that satisfy the condition and returns no more rows than the table holds |
| Table.Reverse | app/src/main/java/om/example/todolistapp2/database/TaskDao.kt:10 | the descending order is the table read back to front: same length, element i is element n-1-i, same members |
| Table.WhereKeepsOrder | app/src/main/java/om/example/todolistapp2/database/TaskDao.kt:10 | filtering a table in id order keeps the id order |
| Table.ReverseDescends | app/src/main/java/om/example/todolistapp2/database/TaskDao.kt:10 | reading an id-ordered table back to front gives strictly descending ids |
| Table.Remove | app/src/main/java/om/example/todolistapp2/database/TaskDao.kt:22-23 | `@Delete` keeps exactly the rows with a different id, in id order |
| Table.RemoveAbsent | app/src/main/java/om/example/todolistapp2/database/TaskDao.kt:22-23 | deleting an id no row has leaves the table unchanged |
| Table.Find | app/src/main/java/om/example/todolistapp2/database/TaskListDao.kt:13-14 | a lookup by id returns a stored row with that id, and returns nothing exactly when no row has the id |
| Table.FindPresent | app/src/main/java/om/example/todolistapp2/database/TaskListDao.kt:13-14 | in an id-ordered table, looking up a stored row's id returns that very row |
| Table.Insert | app/src/main/java/om/example/todolistapp2/database/TaskDao.kt:16-17 | a row with a new id is stored at its place in id order: one more row, the old rows plus the new one |
| Table.Upsert | app/src/main/java/om/example/todolistapp2/database/TaskDao.kt:16-17 | insert-or-replace stores the row, it is the only row with its id, rows with other ids are unchanged, and id order is kept |
| Table.UpsertFresh | app/src/main/java/om/example/todolistapp2/database/TaskDao.kt:16-17 | a row whose id exceeds every stored id is appended at the end |
| Table.Replace | app/src/main/java/om/example/todolistapp2/database/TaskDao.kt:19-20 | `@Update` rewrites the row with the given id and leaves every other position unchanged |
| Table.ReplaceAbsent | app/src/main/java/om/example/todolistapp2/database/TaskDao.kt:19-20 | updating an id no row has leaves the table unchanged |
| Table.ReplaceKeepsOrder | app/src/main/java/om/example/todolistapp2/database/TaskDao.kt:19-20 | an update keeps the table in id order |
| Table.ReplaceIsUpsert | app/src/main/java/om/example/todolistapp2/database/TaskDao.kt:16-20 | when the id is present, `@Update` and `@Insert(REPLACE)` leave the same table |
| Table.AscendingKeyDetermines | app/src/main/java/om/example/todolistapp2/model/Task.kt:4 | in an id-ordered table the id is a primary key: two stored rows with the same id are the same row |
| Table.AscendingUnique | app/src/main/java/om/example/todolistapp2/database/TaskDao.kt:10 | two id-ordered tables holding the same rows are the same sequence |
| Table.RemoveEach | app/src/main/java/om/example/todolistapp2/TasksActivity.kt:191-193 | deleting several rows one after another keeps exactly the rows whose id none of them has, in id order |
| Table.ReinsertEach | app/src/main/java/om/example/todolistapp2/TasksActivity.kt:200-202 | inserting several rows one after another keeps the table in id order |
| Table.ReinsertEachRows | app/src/main/java/om/example/todolistapp2/TasksActivity.kt:200-202 | after the re-inserts the table holds the re-inserted rows, plus the old rows whose id none of them has |
| Table.RemoveThenUpsert | app/src/main/java/om/example/todolistapp2/TasksActivity.kt:361-368 | deleting a stored row and inserting it again restores the table exactly |
| Table.UndoRestores | app/src/main/java/om/example/todolistapp2/TasksActivity.kt:189-202 | deleting stored rows one by one and inserting the same rows again one by one restores the table exactly |
| TaskDao.TasksForList | app/src/main/java/om/example/todolistapp2/database/TaskDao.kt:10-11 | the list query returns exactly the rows on that list, no more and no fewer |
| TaskDao.TasksForListNewestFirst | app/src/main/java/om/example/todolistapp2/database/TaskDao.kt:10 | the list query's result has strictly descending ids |
| TaskDao.TaskCountForList | app/src/main/java/om/example/todolistapp2/database/TaskDao.kt:13-14 | the count never exceeds the number of rows |
| TaskDao.CountMatchesQuery | app/src/main/java/om/example/todolistapp2/database/TaskDao.kt:13-14 | the count equals the length of the list query's result |
| TaskDao.CountIsNumberOfRows | app/src/main/java/om/example/todolistapp2/database/TaskDao.kt:13-14 | the count equals the number of distinct stored rows on the list |
| TaskDao.TaskTable.constructor | app/src/main/java/om/example/todolistapp2/database/AppDatabase.kt:30-36 | a new table is empty and valid, and hands out id 1 first |
| TaskDao.TaskTable.InsertTask | app/src/main/java/om/example/todolistapp2/database/TaskDao.kt:16-17 | returns the stored id, which is a fresh id absent from the table when the task has none. Exactly one row has that id and it is the task; every other row is unchanged; a task without id is appended |
| TaskDao.TaskTable.UpdateTask | app/src/main/java/om/example/todolistapp2/database/TaskDao.kt:19-20 | only the row with the task's id changes, and the table is unchanged when no row has that id |
| TaskDao.TaskTable.DeleteTask | app/src/main/java/om/example/todolistapp2/database/TaskDao.kt:22-23 | exactly the row with the task's id goes, and deleting an absent id changes nothing |
| TaskDao.InsertNewTask | app/src/main/java/om/example/todolistapp2/TasksActivity.kt:318-323 | a task built without an id is appended under the next id, and the counter moves one on |
| TaskListDao.AllLists | app/src/main/java/om/example/todolistapp2/database/TaskListDao.kt:10-11 | every list row is returned, and nothing else |
| TaskListDao.AllListsNewestFirst | app/src/main/java/om/example/todolistapp2/database/TaskListDao.kt:10 | the lists come in strictly descending id order |
| TaskListDao.ListById | app/src/main/java/om/example/todolistapp2/database/TaskListDao.kt:13-14 | returns a row with the id, or null exactly when no row has it |
| TaskListDao.ListByIdFindsRow | app/src/main/java/om/example/todolistapp2/database/TaskListDao.kt:13-14 | a stored list is found by its id |
| TaskListDao.ListTable.constructor | app/src/main/java/om/example/todolistapp2/database/AppDatabase.kt:30-36 | a new table is empty and valid, and hands out id 1 first |
| TaskListDao.ListTable.InsertList | app/src/main/java/om/example/todolistapp2/database/TaskListDao.kt:16-17 | returns the stored id, which is fresh when the list has none; exactly one row has that id and it is the list; every other row is unchanged |
| TaskListDao.ListTable.UpdateList | app/src/main/java/om/example/todolistapp2/database/TaskListDao.kt:19-20 | only the row with the list's id changes, and the table is unchanged when it is absent |
| TaskListDao.ListTable.DeleteList | app/src/main/java/om/example/todolistapp2/database/TaskListDao.kt:22-23 | exactly the row with the list's id goes, and the other lists are untouched |
| TaskListDao.InsertNewList | app/src/main/java/om/example/todolistapp2/TasksActivity.kt:281-286 | a list built without an id is appended under the next id, and the counter moves one on |
| TaskListViewModel.WithCounts | app/src/main/java/om/example/todolistapp2/viewmodel/TaskListViewModel.kt:22-25 | each list, in order, is paired with the length of its task query |
| TaskListViewModel.AllListsWithCount | app/src/main/java/om/example/todolistapp2/viewmodel/TaskListViewModel.kt:20-27 | the feed has the length and order of `getAllLists`; entry i carries list i and that list's task count |
| TaskListViewModel.AllListsWithCountFaithful | app/src/main/java/om/example/todolistapp2/viewmodel/TaskListViewModel.kt:20-24 | the feed is in strictly descending list id order, and each count is the number of task rows on that list |
| TaskListViewModel.ListViewModel.constructor | app/src/main/java/om/example/todolistapp2/viewmodel/TaskListViewModel.kt:16-18 | the view model works on the database's two tables |
| TaskListViewModel.ListViewModel.Feed | app/src/main/java/om/example/todolistapp2/viewmodel/TaskListViewModel.kt:20-27 | the feed over the current rows has one entry per list, in `getAllLists` order, each with that list's current task count |
| TaskListViewModel.ListViewModel.InsertList | app/src/main/java/om/example/todolistapp2/viewmodel/TaskListViewModel.kt:29-33 | adds or replaces exactly one list row, and the task table is untouched; the id counter moves past the id used (one up for a fresh list, past an explicit id beyond it) |
| TaskListViewModel.ListViewModel.DeleteList | app/src/main/java/om/example/todolistapp2/viewmodel/TaskListViewModel.kt:35-39 | the list's row is removed and the list is absent from the next feed, which is one entry shorter when the list existed; the id counter and the task table are untouched |
| TaskListViewModel.DeleteListCount | app/src/main/java/om/example/todolistapp2/database/TaskListDao.kt:22-23 | a delete removes one row when the id is present and none otherwise |
| TasksActivity.WhitespaceSet | app/src/main/java/om/example/todolistapp2/TasksActivity.kt:317 | a title counts as blank when empty or made only of Kotlin whitespace (tab to carriage return, U+001C to U+001F, the Unicode space, line and paragraph separators including no-break spaces); zero-width space, next-line and byte-order mark are not whitespace |
| TasksActivity.Completed | app/src/main/java/om/example/todolistapp2/TasksActivity.kt:178 | the filter keeps exactly the completed shown tasks |
| TasksActivity.ExportProjection | app/src/main/java/om/example/todolistapp2/TasksActivity.kt:215-217 | the projection has one entry per shown task |
| TasksActivity.ExportProjectionAt | app/src/main/java/om/example/todolistapp2/TasksActivity.kt:215-217 | entry i is task i's title and completion flag, in the same order, without either id |
| TasksActivity.ShareLink | app/src/main/java/om/example/todolistapp2/TasksActivity.kt:209-223 | there is no link exactly when no task is shown; otherwise the link is the fixed prefix followed by the encoding of (name, colour, projected tasks) |
| TasksActivity.ImportedRows | app/src/main/java/om/example/todolistapp2/TasksActivity.kt:287-293 | one row per payload entry, in payload order, with consecutive ids, the entry's title and completion, and the new list's id |
| TasksActivity.ExportImported | app/src/main/java/om/example/todolistapp2/TasksActivity.kt:287-293 | projecting the imported rows gives back the payload |
| TasksActivity.ExportReverse | app/src/main/java/om/example/todolistapp2/TasksActivity.kt:215-217 | the projection commutes with reversal |
| TasksActivity.TasksForListAppend | app/src/main/java/om/example/todolistapp2/TasksActivity.kt:148-150 | after rows are appended, the list query shows the new rows before the old ones |
| TasksActivity.ImportedDisplayReversed | app/src/main/java/om/example/todolistapp2/TasksActivity.kt:287-293 | the imported list, read back through its query and the projection, is the payload reversed |
| TasksActivity.TasksForListNone | app/src/main/java/om/example/todolistapp2/database/TaskDao.kt:10-11 | a list no stored task is on shows nothing |
| TasksActivity.ImportedListDisplay | app/src/main/java/om/example/todolistapp2/TasksActivity.kt:287-293 | after the import appends its rows to a table with no task on the new list's id, that list shows exactly the payload reversed |
| TasksActivity.NewListKeyUnused | app/src/main/java/om/example/todolistapp2/TasksActivity.kt:291 | a new list id below 2^31 is its own `toInt()`, so when every stored task refers to a smaller list id, no stored task is on the new list |
| TasksActivity.ShareThenImport | app/src/main/java/om/example/todolistapp2/TasksActivity.kt:215-293 | given a codec that round-trips, a non-empty shared list has a link that decodes to the name, colour and projected tasks, and importing it shows those tasks in reverse order |
| TasksActivity.DeleteCompletedRemovesExactly | app/src/main/java/om/example/todolistapp2/TasksActivity.kt:177-193 | deleting the completed shown tasks keeps exactly the rows that are not completed tasks of the shown list |
| TasksActivity.UndoDeleteCompletedRestores | app/src/main/java/om/example/todolistapp2/TasksActivity.kt:189-202 | undo after deleting the completed tasks restores the task table exactly |
| TasksActivity.UndoDeleteTaskRestores | app/src/main/java/om/example/todolistapp2/TasksActivity.kt:361-368 | undo after deleting one shown task restores the task table exactly |
| TasksActivity.AddImportedTasks | app/src/main/java/om/example/todolistapp2/TasksActivity.kt:287-294 | the import loop appends the imported rows for the payload under the next ids, and the counter moves on by the payload's length |
| TasksActivity.TasksScreen.constructor | app/src/main/java/om/example/todolistapp2/TasksActivity.kt:41-44 | the screen starts with list id -1, an empty name, colour 0 and no shown tasks, and satisfies its invariant that the colour is 0 |
| TasksActivity.TasksScreen.OpenList | app/src/main/java/om/example/todolistapp2/TasksActivity.kt:76-86 | the id and name come from the launch extras, defaulting to -1 and "Tareas"; with a list id the shown tasks are that list's query |
| TasksActivity.TasksScreen.ObserveTasks | app/src/main/java/om/example/todolistapp2/TasksActivity.kt:146-156 | with a list id the shown tasks become the list's query, newest first; with -1 nothing changes |
| TasksActivity.TasksScreen.AddTask | app/src/main/java/om/example/todolistapp2/TasksActivity.kt:315-324 | a task is added exactly when the title is not blank: it is a new task on the shown list, not completed, under the next id; a blank title changes nothing |
| TasksActivity.TasksScreen.DeleteCompletedTasks | app/src/main/java/om/example/todolistapp2/TasksActivity.kt:177-207 | when confirmed, the completed shown tasks are deleted one by one and returned for undo; otherwise nothing is deleted |
| TasksActivity.TasksScreen.UndoDelete | app/src/main/java/om/example/todolistapp2/TasksActivity.kt:199-202 | each deleted task is inserted again under its own id, in order, and the id counter stays where it was |
| TasksActivity.TasksScreen.DeleteTask | app/src/main/java/om/example/todolistapp2/TasksActivity.kt:124-128 | exactly the rows with the task's id are gone |
| TasksActivity.TasksScreen.UndoDeleteTask | app/src/main/java/om/example/todolistapp2/TasksActivity.kt:135-138 | the task is stored again under its own id, and the id counter stays where it was |
| TasksActivity.TasksScreen.ShareList | app/src/main/java/om/example/todolistapp2/TasksActivity.kt:209-223 | the link is built from the screen's name, colour and shown tasks; there is none exactly when no task is shown; and the encoded payload carries colour 0 |
| TasksActivity.TasksScreen.ImportList | app/src/main/java/om/example/todolistapp2/TasksActivity.kt:280-294 | one new list with the payload's name and colour under a fresh id, then the imported rows on that list's `toInt()` id; when no earlier task is on that id, the new list shows exactly the payload reversed; the list counter moves one past the new id and the task counter by the payload's length |
| TasksActivity.TasksScreen.HandleDeepLink | app/src/main/java/om/example/todolistapp2/TasksActivity.kt:246-278 | a missing parameter, an undecodable one or a declined dialog leaves both tables unchanged; an accepted one imports the decoded payload, moving the list counter by one and the task counter by the payload's length, and the new list then shows the payload reversed when no earlier task is on its id |
| AppDatabase.PopulateDatabase | app/src/main/java/om/example/todolistapp2/database/AppDatabase.kt:53-81 | appends the three seed lists under the next three list ids and the nine seed tasks under the next nine task ids, each task on the `toInt()` of its list's returned id |
| AppDatabase.AddSeedTasks | app/src/main/java/om/example/todolistapp2/database/AppDatabase.kt:67-80 | the nine task inserts append the seed tasks under the next nine ids |
| AppDatabase.AddThreeTasks | app/src/main/java/om/example/todolistapp2/database/AppDatabase.kt:68-70 | three inserts on one list append three rows under the next three ids |
| AppDatabase.SeedTasksByList | app/src/main/java/om/example/todolistapp2/database/AppDatabase.kt:67-80 | the seed tasks are the three groups of three with the app's titles |
| AppDatabase.SeedColours | app/src/main/java/om/example/todolistapp2/database/AppDatabase.kt:55-65 | the seeded colours are stored as -11751600, -14575885 and -1499549 |
| AppDatabase.SeedCounts | app/src/main/java/om/example/todolistapp2/database/AppDatabase.kt:67-80 | there are nine seed tasks in total, and on distinct list ids each list counts three of them |
| AppDatabase.SeedCompleted | app/src/main/java/om/example/todolistapp2/database/AppDatabase.kt:67-80 | the nine ids are consecutive and so distinct. Titles are in order, three per list on the lists' ids, and only the fourth and the eighth task are completed |
| AppDatabase.FreshSeed | app/src/main/java/om/example/todolistapp2/database/AppDatabase.kt:53-81 | on a new database the seed lists get ids 1 to 3 with their colours, the tasks refer to those ids, and the completed tasks are "Revisar emails" and "Hacer ejercicio" |
| AppDatabase.NewDatabaseTasks | app/src/main/java/om/example/todolistapp2/database/AppDatabase.kt:67-80 | the tasks seeded into a new database are nine rows, three on each of the lists 1 to 3, and only "Revisar emails" and "Hacer ejercicio" are completed |
| AppDatabase.NewDatabaseRows | app/src/main/java/om/example/todolistapp2/database/AppDatabase.kt:53-81 | on an empty task table after the seed lists got ids 1 to 3, the seeded rows refer to the lists 1, 2 and 3 |
| AppDatabase.SeedNewDatabase | app/src/main/java/om/example/todolistapp2/database/AppDatabase.kt:53-81 | on two new tables, `populateDatabase` leaves the three seed lists under ids 1 to 3 and nine tasks, three per list, with only the fourth and the eighth seed titles completed |

## Left out

- Everything on screen is out: widgets, toolbars, dialogs as UI, toasts, snackbars and their timing, swipe handling, the WhatsApp and chooser intents, and the adapters. A dialog answer is a boolean parameter, and the user picking "DESHACER" is a call to the undo method.
- `MainActivity.kt` is not part of this model. That includes its random colour choice and its list dialogs.
- Voice input is out, because it is platform I/O. The recognised text reaches the same `AddTask` as the typed title.
- The `AppDatabase` singleton with its `@Volatile` and `synchronized` lock, and the `onCreate` callback's background launch, are out: they are concurrency and library lifecycle. `populateDatabase` is modelled on its own.
- Coroutines and Flow/LiveData are out. Each store operation completes in the order it is issued, and an observed query is a fresh evaluation over the current rows. Interleavings between screens are not modelled.
- `TaskListViewModel.ListViewModel.Feed` is the value a re-run of the list query yields. In the app, `allListsWithCount` maps `getAllLists()` (`TaskListViewModel.kt:20-27`), so Room recomputes the counts only when `task_lists` is written. After a task insert or delete, the shown counts keep their old values until the next list write or re-subscription. An import's list write can also be processed before its task inserts. The model does not capture these stale or intermediate counts.
- The calls `TaskViewModel.kt` forwards go straight to the table methods, because `TaskViewModel.kt` adds nothing over `TaskDao`.
- Gson and `android.util.Base64` are foreign libraries. They are the `encode` and `decode` parameters. `decode` returning `None` covers everything that throws inside `handleDeepLink`'s `try` (`TasksActivity.kt:251-260`): bad Base64, malformed JSON, a null payload, and a null `tasks` list, which throws when the dialog reads `tasks.size` (`TasksActivity.kt:269`).
- Payloads whose other fields are null are outside the model, because a decoded `SharedTaskList` here always has a name, a task list and non-null entries. The app itself does not handle them cleanly:
  - A null `listName` is shown as "null" in the dialog. Accepting the import then throws in `TaskList(name = …)` (`TasksActivity.kt:281-284`), outside the `try`.
  - A null entry or a null title throws in `Task(title = …)` (`TasksActivity.kt:288-292`). That happens inside the callback, after the list and any earlier tasks are already stored, so the app crashes with a partial import.
- `Uri.getQueryParameter("data")` is out. The deep-link parameter is an `Option<string>` input, and the link text after the prefix is taken to be that parameter.
- `insertListWithCallback` is not defined in `TaskListViewModel.kt`. It is modelled as inserting the list and then running the callback with the returned id.
- The import is not atomic in the app, and the model does not capture that. The model runs the list insert and the task inserts in order, with nothing in between.
- Cascade deletion of a list's tasks is out, because it is not declared on the entities.
- `TaskList.taskCount` is stored but never read, so no contract mentions it.
- Room's `@Entity` and `@PrimaryKey(autoGenerate = true)` are not present in `Task.kt` and `TaskList.kt`. The model assumes the generated integer key that the code relies on: id 0 means "not set", and a fresh id is larger than every id used before.
- Ids are unbounded integers. `toInt()` is modelled only where the code calls it, and the 64-bit row id limit is not modelled.
- `TaskDao.TaskCountForList`: its own contract only bounds the count. That the count is the length of the list query is stated separately, by `TaskDao.CountMatchesQuery`.
- `TasksActivity.TasksScreen.UndoDelete` and `TasksActivity.TasksScreen.UndoDeleteTask` require the tasks to carry stored ids. In the app they are always rows read back from the table.
- `TasksActivity.TasksScreen.UndoDelete` and `TasksActivity.TasksScreen.UndoDeleteTask` state that the id counter is unchanged only when the re-inserted ids are below it. That always holds for rows deleted from the table.
