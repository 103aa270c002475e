/**
 * The data logic of the task screen: the tasks it shows, adding a task, deleting completed
 * tasks with undo, deleting one task with undo, building a share link and importing a
 * shared list from a deep link. Dialogs, toasts and snackbars are the boolean answers and
 * the calls a user makes; the JSON and Base64 codec is a pair of function parameters.
 */
module TasksActivity {
  import opened Wrappers
  import opened Model
  import Table
  import opened TaskDao
  import opened TaskListDao

  /** Kotlin's `Char.isWhitespace()` on the JVM: Java whitespace or a Unicode space character. */
  predicate IsWhitespace(c: char)
  {
    || c == '\t' || c == '\n' || c == '\U{000B}' || c == '\U{000C}' || c == '\r'
    || ('\U{001C}' <= c <= '\U{001F}')
    || c == ' ' || c == '\U{00A0}' || c == '\U{1680}'
    || ('\U{2000}' <= c <= '\U{200A}')
    || c == '\U{2028}' || c == '\U{2029}' || c == '\U{202F}' || c == '\U{205F}' || c == '\U{3000}'
  }

  /** Kotlin's `isBlank()`: the text is empty or all whitespace. */
  predicate IsBlank(s: string)
  {
    forall i :: 0 <= i < |s| ==> IsWhitespace(s[i])
  }

  /**
   * The whitespace set: the ASCII controls tab to carriage return and the separators
   * U+001C to U+001F, plus every Unicode space, line and paragraph separator, including
   * the no-break spaces; zero-width and next-line characters are not whitespace. So a
   * title is blank when it is empty or made of these characters only.
   */
  lemma WhitespaceSet()
    ensures IsWhitespace(' ') && IsWhitespace('\t') && IsWhitespace('\n') && IsWhitespace('\r')
    ensures IsWhitespace('\U{00A0}') && IsWhitespace('\U{2007}') && IsWhitespace('\U{202F}') && IsWhitespace('\U{3000}')
    ensures IsWhitespace('\U{2028}') && IsWhitespace('\U{2029}') && IsWhitespace('\U{001F}')
    ensures !IsWhitespace('\U{200B}') && !IsWhitespace('\U{0085}') && !IsWhitespace('\U{FEFF}') && !IsWhitespace('a')
    ensures IsBlank("") && IsBlank(" \t\n") && IsBlank("\U{00A0}\U{3000}")
    ensures !IsBlank(" a ") && !IsBlank("\U{200B}")
  {
    assert " a "[1] == 'a';
    assert "\U{200B}"[0] == '\U{200B}';
  }

  /** `currentTasks.filter { it.isCompleted }`. */
  function Completed(tasks: seq<Task>): (r: seq<Task>)
    ensures |r| <= |tasks|
    ensures forall t :: t in r <==> t in tasks && t.isCompleted
  {
    Table.Where(tasks, (t: Task) => t.isCompleted)
  }

  /** The share payload's tasks: each shown task, in display order, without its ids. */
  function ExportProjection(tasks: seq<Task>): (r: seq<SharedTask>)
    ensures |r| == |tasks|
  {
    if |tasks| == 0 then []
    else [SharedTask(tasks[0].title, tasks[0].isCompleted)] + ExportProjection(tasks[1..])
  }

  /** Entry `i` of the share payload is task `i`'s title and completion flag, without its ids. */
  lemma {:induction false} ExportProjectionAt(tasks: seq<Task>)
    ensures forall i :: 0 <= i < |tasks| ==>
      ExportProjection(tasks)[i] == SharedTask(tasks[i].title, tasks[i].isCompleted)
  {
    if |tasks| > 0 {
      ExportProjectionAt(tasks[1..]);
    }
  }

  /** The fixed part of every share link; the encoded payload follows it. */
  const SharePrefix: string := "https://manucho89.github.io/todolist/?data="

  /**
   * `shareList`: no link for a list with no shown tasks; otherwise the prefix followed by
   * the encoded payload of the list's name, colour and shown tasks.
   */
  function ShareLink(listName: string, listColor: int, current: seq<Task>, encode: SharedTaskList -> string): (link: Option<string>)
    ensures link.None? <==> |current| == 0
    ensures link.Some? ==> |SharePrefix| <= |link.value| && link.value[..|SharePrefix|] == SharePrefix
    ensures link.Some? ==>
      link.value[|SharePrefix|..] == encode(SharedTaskList(listName, listColor, ExportProjection(current)))
  {
    if |current| == 0 then None
    else Some(SharePrefix + encode(SharedTaskList(listName, listColor, ExportProjection(current))))
  }

  /** `decode` reads back every payload `encode` writes (Gson over Base64 on both sides). */
  ghost predicate IsCodec(encode: SharedTaskList -> string, decode: string -> Option<SharedTaskList>)
  {
    forall p :: decode(encode(p)) == Some(p)
  }

  /**
   * The task rows `importList` stores for a payload, given the first fresh id and the new
   * list's id: one row per payload entry, in payload order, with consecutive ids.
   */
  function ImportedRows(payload: seq<SharedTask>, firstId: int, listId: int): (r: seq<Task>)
    ensures |r| == |payload|
    ensures forall k :: 0 <= k < |payload| ==>
      r[k] == Task(firstId + k, payload[k].title, payload[k].isCompleted, listId)
  {
    if |payload| == 0 then []
    else
      var n := |payload| - 1;
      ImportedRows(payload[..n], firstId, listId)
        + [Task(firstId + n, payload[n].title, payload[n].isCompleted, listId)]
  }

  /** Importing one more payload entry appends one row. */
  lemma ImportedRowsStep(payload: seq<SharedTask>, i: nat, firstId: int, listId: int)
    requires i < |payload|
    ensures ImportedRows(payload[..i + 1], firstId, listId)
      == ImportedRows(payload[..i], firstId, listId) + [Task(firstId + i, payload[i].title, payload[i].isCompleted, listId)]
  {
    assert payload[..i + 1][..i] == payload[..i];
  }

  /** Exporting the imported rows gives back the payload. */
  lemma ExportImported(payload: seq<SharedTask>, firstId: int, listId: int)
    ensures ExportProjection(ImportedRows(payload, firstId, listId)) == payload
  {
    ExportProjectionAt(ImportedRows(payload, firstId, listId));
  }

  /** Exporting a concatenation exports each part. */
  lemma {:induction false} ExportConcat(a: seq<Task>, b: seq<Task>)
    ensures ExportProjection(a + b) == ExportProjection(a) + ExportProjection(b)
  {
    if |a| > 0 {
      assert (a + b)[1..] == a[1..] + b;
      ExportConcat(a[1..], b);
    } else {
      assert a + b == b;
    }
  }

  /** Exporting commutes with reversal. */
  lemma {:induction false} ExportReverse(tasks: seq<Task>)
    ensures ExportProjection(Table.Reverse(tasks)) == Table.Reverse(ExportProjection(tasks))
  {
    if |tasks| > 0 {
      var e := ExportProjection(tasks);
      ExportReverse(tasks[1..]);
      ExportConcat(Table.Reverse(tasks[1..]), [tasks[0]]);
      assert e[1..] == ExportProjection(tasks[1..]);
    }
  }

  /** The list query on a table grown by appended rows shows the new rows first. */
  lemma TasksForListAppend(oldRows: seq<Task>, added: seq<Task>, listId: int)
    ensures TasksForList(oldRows + added, listId) == TasksForList(added, listId) + TasksForList(oldRows, listId)
  {
    Table.WhereConcat(oldRows, added, OnList(listId));
    Table.ReverseConcat(Table.Where(oldRows, OnList(listId)), Table.Where(added, OnList(listId)));
  }

  /** Once imported, a list displays the payload's entries newest first: the payload reversed. */
  lemma ImportedDisplayReversed(payload: seq<SharedTask>, firstId: int, listId: int)
    ensures ExportProjection(TasksForList(ImportedRows(payload, firstId, listId), listId)) == Table.Reverse(payload)
  {
    var rows := ImportedRows(payload, firstId, listId);
    assert forall t :: t in rows ==> OnList(listId)(t);
    Table.WhereAll(rows, OnList(listId));
    assert TasksForList(rows, listId) == Table.Reverse(rows);
    ExportReverse(rows);
    ExportImported(payload, firstId, listId);
  }

  /** A list no stored task is on shows nothing. */
  lemma TasksForListNone(rows: seq<Task>, listId: int)
    requires forall t :: t in rows ==> t.listId != listId
    ensures TasksForList(rows, listId) == []
  {
  }

  /**
   * After an import appends its rows to a table with no task on the new list's id, the
   * new list shows exactly the payload, reversed.
   */
  lemma ImportedListDisplay(oldRows: seq<Task>, payload: seq<SharedTask>, firstId: int, listKey: int)
    requires forall t :: t in oldRows ==> t.listId != listKey
    ensures ExportProjection(TasksForList(oldRows + ImportedRows(payload, firstId, listKey), listKey))
      == Table.Reverse(payload)
  {
    var imported := ImportedRows(payload, firstId, listKey);
    TasksForListNone(oldRows, listKey);
    TasksForListAppend(oldRows, imported, listKey);
    assert TasksForList(oldRows + imported, listKey) == TasksForList(imported, listKey) + [];
    assert TasksForList(imported, listKey) + [] == TasksForList(imported, listKey);
    ImportedDisplayReversed(payload, firstId, listKey);
  }

  /**
   * A list id below 2^31 is its own `toInt()`, so when every stored task refers to a
   * smaller list id, no stored task is on the new list.
   */
  lemma NewListKeyUnused(oldRows: seq<Task>, newListId: int)
    requires 0 <= newListId < TwoTo31
    requires forall t :: t in oldRows ==> t.listId < newListId
    ensures ToInt32(newListId) == newListId
    ensures forall t :: t in oldRows ==> t.listId != ToInt32(newListId)
  {
    ToInt32InRange(newListId);
  }

  /**
   * Sharing a list and importing its link on another device: the link carries the list's
   * name, colour and shown tasks, and the imported list shows those tasks in reverse order.
   */
  lemma ShareThenImport(listName: string, listColor: int, current: seq<Task>,
                        encode: SharedTaskList -> string, decode: string -> Option<SharedTaskList>,
                        firstId: int, newListId: int)
    requires IsCodec(encode, decode)
    requires |current| > 0
    ensures var link := ShareLink(listName, listColor, current, encode);
      && link.Some?
      && decode(link.value[|SharePrefix|..]) == Some(SharedTaskList(listName, listColor, ExportProjection(current)))
      && ExportProjection(TasksForList(ImportedRows(ExportProjection(current), firstId, newListId), newListId))
         == Table.Reverse(ExportProjection(current))
  {
    var payload := SharedTaskList(listName, listColor, ExportProjection(current));
    assert decode(encode(payload)) == Some(payload);
    ImportedDisplayReversed(payload.tasks, firstId, newListId);
  }

  /**
   * Deleting the completed tasks of the shown list removes exactly the completed rows of
   * that list and keeps every other row.
   */
  lemma DeleteCompletedRemovesExactly(rows: seq<Task>, listId: int)
    requires Table.Ascending(rows, TaskKey)
    ensures forall t :: t in Table.RemoveEach(rows, TaskKey, Completed(TasksForList(rows, listId))) <==>
      t in rows && !(t.listId == listId && t.isCompleted)
  {
    var victims := Completed(TasksForList(rows, listId));
    Table.AscendingKeyDetermines(rows, TaskKey);
    forall t | t in rows
      ensures Table.HasKey(victims, TaskKey, t.id) <==> t.listId == listId && t.isCompleted
    {
      if t.listId == listId && t.isCompleted {
        assert t in victims;
        var i :| 0 <= i < |victims| && victims[i] == t;
        assert TaskKey(victims[i]) == t.id;
      }
      if Table.HasKey(victims, TaskKey, t.id) {
        var i :| 0 <= i < |victims| && TaskKey(victims[i]) == t.id;
        assert victims[i] in victims;
      }
    }
  }

  /** Undo after deleting the completed tasks of the shown list puts back the table exactly. */
  lemma UndoDeleteCompletedRestores(rows: seq<Task>, listId: int)
    requires Table.Ascending(rows, TaskKey)
    ensures var deleted := Completed(TasksForList(rows, listId));
      Table.ReinsertEach(Table.RemoveEach(rows, TaskKey, deleted), TaskKey, deleted) == rows
  {
    Table.UndoRestores(rows, TaskKey, Completed(TasksForList(rows, listId)));
  }

  /** Undo after deleting one shown task puts back the table exactly. */
  lemma UndoDeleteTaskRestores(rows: seq<Task>, listId: int, task: Task)
    requires Table.Ascending(rows, TaskKey)
    requires task in TasksForList(rows, listId)
    ensures Table.Upsert(Table.Remove(rows, TaskKey, task.id), TaskKey, task) == rows
  {
    Table.RemoveThenUpsert(rows, TaskKey, task);
  }

  /** The task inserts of `importList`: one new task per payload entry, in payload order, on the list. */
  method AddImportedTasks(tasks: TaskTable, payload: seq<SharedTask>, listKey: int)
    requires tasks.Valid()
    modifies tasks
    ensures tasks.Valid()
    ensures tasks.rows == old(tasks.rows) + ImportedRows(payload, old(tasks.nextId), listKey)
    ensures tasks.nextId == old(tasks.nextId) + |payload|
  {
    ghost var firstId := tasks.nextId;
    var i := 0;
    while i < |payload|
      invariant 0 <= i <= |payload|
      invariant tasks.Valid()
      invariant tasks.rows == old(tasks.rows) + ImportedRows(payload[..i], firstId, listKey)
      invariant tasks.nextId == firstId + i
    {
      var entry := payload[i];
      var _ := InsertNewTask(tasks, Task(NoId, entry.title, entry.isCompleted, listKey));
      ImportedRowsStep(payload, i, firstId, listKey);
      i := i + 1;
    }
    assert payload[..i] == payload;
  }

  /** How a deep link ends. */
  datatype DeepLinkOutcome =
    | NoData                      // no `data` parameter: the screen closes
    | ImportFailed                // the parameter does not decode: an error toast, the screen closes
    | Cancelled                   // the user declines the import dialog: the screen closes
    | Imported(newListId: int)    // the list and its tasks were stored

  /** The task screen, over the app's two tables. */
  class TasksScreen {
    const lists: ListTable
    const tasks: TaskTable
    var listId: int
    var listName: string
    /** Never assigned after creation, so every share payload carries colour 0. */
    var listColor: int
    var currentTasks: seq<Task>

    /** The tables are valid, and the colour keeps its initial 0: nothing assigns it. */
    ghost predicate Valid()
      reads this, lists, tasks
    {
      lists.Valid() && tasks.Valid() && listColor == 0
    }

    /** The screen's initial field values. */
    constructor (lists: ListTable, tasks: TaskTable)
      requires lists.Valid() && tasks.Valid()
      ensures this.lists == lists && this.tasks == tasks
      ensures Valid()
      ensures listId == -1 && listName == "" && listColor == 0 && currentTasks == []
    {
      this.lists := lists;
      this.tasks := tasks;
      listId := -1;
      listName := "";
      listColor := 0;
      currentTasks := [];
    }

    /**
     * `onCreate` for a launch that is not a deep link: the list id and name come from the
     * launch extras, defaulting to -1 and "Tareas", then the screen observes the list.
     */
    method OpenList(extraListId: Option<int>, extraListName: Option<string>)
      requires Valid()
      modifies this`listId, this`listName, this`currentTasks
      ensures Valid()
      ensures listId == (if extraListId.Some? then extraListId.value else -1)
      ensures listName == (if extraListName.Some? then extraListName.value else "Tareas")
      ensures listId != -1 ==> currentTasks == TasksForList(tasks.rows, listId)
      ensures listId == -1 ==> currentTasks == old(currentTasks)
    {
      listId := if extraListId.Some? then extraListId.value else -1;
      listName := if extraListName.Some? then extraListName.value else "Tareas";
      ObserveTasks();
    }

    /**
     * `observeTasks`, at one emission of the query: the shown tasks become the list's rows
     * newest first; without a list id nothing is observed.
     */
    method ObserveTasks()
      requires Valid()
      modifies this`currentTasks
      ensures Valid()
      ensures listId != -1 ==> currentTasks == TasksForList(tasks.rows, listId)
      ensures listId != -1 ==> Table.Descending(currentTasks, TaskKey)
      ensures listId == -1 ==> currentTasks == old(currentTasks)
    {
      if listId != -1 {
        currentTasks := TasksForList(tasks.rows, listId);
        TasksForListNewestFirst(tasks.rows, listId);
      }
    }

    /**
     * The "Crear" button and the voice result: a non-blank title becomes a new, not completed
     * task of the shown list under a fresh id; a blank one adds nothing.
     */
    method AddTask(title: string) returns (added: bool)
      requires Valid()
      modifies tasks
      ensures Valid()
      ensures added <==> !IsBlank(title)
      ensures added ==> tasks.rows == old(tasks.rows) + [Task(old(tasks.nextId), title, false, listId)]
      ensures added ==> tasks.nextId == old(tasks.nextId) + 1
      ensures !added ==> tasks.rows == old(tasks.rows) && tasks.nextId == old(tasks.nextId)
    {
      added := !IsBlank(title);
      if added {
        var _ := InsertNewTask(tasks, Task(NoId, title, false, listId));
      }
    }

    /**
     * `deleteCompletedTasks`: with no completed task shown, or when the user cancels, nothing
     * is deleted; otherwise each completed shown task is deleted in turn and the deleted
     * tasks are returned for the undo action.
     */
    method DeleteCompletedTasks(confirmed: bool) returns (deleted: seq<Task>)
      requires Valid()
      modifies tasks
      ensures Valid()
      ensures deleted == if confirmed then Completed(currentTasks) else []
      ensures tasks.rows == Table.RemoveEach(old(tasks.rows), TaskKey, deleted)
      ensures tasks.nextId == old(tasks.nextId)
    {
      var completed := Completed(currentTasks);
      if |completed| == 0 || !confirmed {
        return [];
      }
      deleted := completed;
      var i := 0;
      while i < |completed|
        invariant 0 <= i <= |completed|
        invariant tasks.Valid()
        invariant tasks.rows == Table.RemoveEach(old(tasks.rows), TaskKey, completed[..i])
        invariant tasks.nextId == old(tasks.nextId)
      {
        tasks.DeleteTask(completed[i]);
        Table.RemoveEachStep(old(tasks.rows), TaskKey, completed, i);
        i := i + 1;
      }
      assert completed[..i] == completed;
    }

    /**
     * The "DESHACER" action after deleting completed tasks: each deleted task is inserted
     * again under its own id, in order. Ids below the counter leave the counter alone.
     */
    method UndoDelete(deleted: seq<Task>)
      requires Valid()
      requires forall t :: t in deleted ==> t.id != NoId
      modifies tasks
      ensures Valid()
      ensures tasks.rows == Table.ReinsertEach(old(tasks.rows), TaskKey, deleted)
      ensures (forall t :: t in deleted ==> t.id < old(tasks.nextId)) ==> tasks.nextId == old(tasks.nextId)
    {
      var i := 0;
      while i < |deleted|
        invariant 0 <= i <= |deleted|
        invariant tasks.Valid()
        invariant tasks.rows == Table.ReinsertEach(old(tasks.rows), TaskKey, deleted[..i])
        invariant (forall t :: t in deleted ==> t.id < old(tasks.nextId)) ==> tasks.nextId == old(tasks.nextId)
      {
        assert deleted[i] in deleted;
        var _ := tasks.InsertTask(deleted[i]);
        assert deleted[i].(id := deleted[i].id) == deleted[i];
        Table.ReinsertEachStep(old(tasks.rows), TaskKey, deleted, i);
        i := i + 1;
      }
      assert deleted[..i] == deleted;
    }

    /** Swipe to delete, or "Eliminar" in the confirmation dialog: the task's row is deleted. */
    method DeleteTask(task: Task)
      requires Valid()
      modifies tasks
      ensures Valid()
      ensures forall u :: u in tasks.rows <==> u in old(tasks.rows) && u.id != task.id
      ensures tasks.nextId == old(tasks.nextId)
    {
      tasks.DeleteTask(task);
    }

    /** The "DESHACER" action after deleting one task: the task is stored again under its id. */
    method UndoDeleteTask(task: Task)
      requires Valid()
      requires task.id != NoId
      modifies tasks
      ensures Valid()
      ensures tasks.rows == Table.Upsert(old(tasks.rows), TaskKey, task)
      ensures task.id < old(tasks.nextId) ==> tasks.nextId == old(tasks.nextId)
    {
      var _ := tasks.InsertTask(task);
      assert task.(id := task.id) == task;
    }

    /** `shareList`: the link built from the screen's name, colour and shown tasks; the colour is always 0. */
    method ShareList(encode: SharedTaskList -> string) returns (link: Option<string>)
      requires Valid()
      ensures link == ShareLink(listName, listColor, currentTasks, encode)
      ensures link.None? <==> |currentTasks| == 0
      ensures link.Some? ==>
        link.value[|SharePrefix|..] == encode(SharedTaskList(listName, 0, ExportProjection(currentTasks)))
    {
      if |currentTasks| == 0 {
        return None;
      }
      var sharedList := SharedTaskList(listName, listColor, ExportProjection(currentTasks));
      link := Some(SharePrefix + encode(sharedList));
    }

    /**
     * `importList`: stores a new list with the payload's name and colour under a fresh id,
     * then one new task per payload entry, in payload order, on that list.
     */
    method ImportList(shared: SharedTaskList) returns (newListId: int)
      requires Valid()
      modifies lists, tasks
      ensures Valid()
      ensures newListId == old(lists.nextId)
      ensures forall l :: l in old(lists.rows) ==> l.id != newListId
      ensures lists.rows == old(lists.rows) + [TaskList(newListId, shared.listName, shared.listColor, 0)]
      ensures lists.nextId == newListId + 1
      ensures tasks.rows == old(tasks.rows) + ImportedRows(shared.tasks, old(tasks.nextId), ToInt32(newListId))
      ensures tasks.nextId == old(tasks.nextId) + |shared.tasks|
      ensures (forall t :: t in old(tasks.rows) ==> t.listId != ToInt32(newListId)) ==>
        ExportProjection(TasksForList(tasks.rows, ToInt32(newListId))) == Table.Reverse(shared.tasks)
    {
      newListId := InsertNewList(lists, TaskList(NoId, shared.listName, shared.listColor, 0));
      ghost var oldRows := tasks.rows;
      ghost var firstId := tasks.nextId;
      AddImportedTasks(tasks, shared.tasks, ToInt32(newListId));
      if forall t :: t in oldRows ==> t.listId != ToInt32(newListId) {
        ImportedListDisplay(oldRows, shared.tasks, firstId, ToInt32(newListId));
      }
    }

    /**
     * `handleDeepLink` and its dialog: no `data` parameter, an undecodable one, or a declined
     * dialog change nothing; an accepted one imports the decoded payload.
     */
    method HandleDeepLink(data: Option<string>, decode: string -> Option<SharedTaskList>, confirmed: bool)
      returns (outcome: DeepLinkOutcome)
      requires Valid()
      modifies lists, tasks
      ensures Valid()
      ensures data.None? ==> outcome == NoData
      ensures data.Some? && decode(data.value).None? ==> outcome == ImportFailed
      ensures data.Some? && decode(data.value).Some? ==> outcome == if confirmed then Imported(old(lists.nextId)) else Cancelled
      ensures !outcome.Imported? ==>
        lists.rows == old(lists.rows) && lists.nextId == old(lists.nextId)
        && tasks.rows == old(tasks.rows) && tasks.nextId == old(tasks.nextId)
      ensures outcome.Imported? ==>
        var shared := decode(data.value).value;
        && lists.rows == old(lists.rows) + [TaskList(outcome.newListId, shared.listName, shared.listColor, 0)]
        && tasks.rows == old(tasks.rows) + ImportedRows(shared.tasks, old(tasks.nextId), ToInt32(outcome.newListId))
        && lists.nextId == old(lists.nextId) + 1
        && tasks.nextId == old(tasks.nextId) + |shared.tasks|
      ensures outcome.Imported? && (forall t :: t in old(tasks.rows) ==> t.listId != ToInt32(outcome.newListId)) ==>
        ExportProjection(TasksForList(tasks.rows, ToInt32(outcome.newListId))) == Table.Reverse(decode(data.value).value.tasks)
    {
      if data.None? {
        return NoData;
      }
      var decoded := decode(data.value);
      if decoded.None? {
        return ImportFailed;
      }
      if !confirmed {
        return Cancelled;
      }
      var newListId := ImportList(decoded.value);
      outcome := Imported(newListId);
    }
  }
}
