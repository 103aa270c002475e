/**
 * The sample data the database stores when it is first created: three lists and three
 * tasks in each, two of them completed.
 */
module AppDatabase {
  import opened Model
  import TaskDao
  import TaskListDao

  /** The seeded lists' colours, `0xFF4CAF50`, `0xFF2196F3` and `0xFFE91E63`, as `toInt()` reads them. */
  const ComprasColor: int := ToInt32(0xFF4CAF50)
  const TrabajoColor: int := ToInt32(0xFF2196F3)
  const PersonalColor: int := ToInt32(0xFFE91E63)

  /** The seeded task titles, in insertion order. */
  const SeedTitles: seq<string> := [
    "Comprar leche", "Pan integral", "Frutas y verduras",
    "Revisar emails", "Reunión con equipo", "Entregar informe",
    "Llamar al médico", "Hacer ejercicio", "Leer 30 minutos" ]

  /** The seeded list rows, given the first id the list table hands out. */
  function SeedLists(firstId: int): seq<TaskList>
  {
    [ TaskList(firstId, "Compras", ComprasColor, 0),
      TaskList(firstId + 1, "Trabajo", TrabajoColor, 0),
      TaskList(firstId + 2, "Personal", PersonalColor, 0) ]
  }

  /** Three task rows of one list under consecutive ids. */
  function ThreeRows(firstId: int, listId: int, a: string, aDone: bool, b: string, bDone: bool, c: string, cDone: bool): seq<Task>
  {
    [ Task(firstId, a, aDone, listId), Task(firstId + 1, b, bDone, listId), Task(firstId + 2, c, cDone, listId) ]
  }

  /**
   * The seeded task rows, given the first id the task table hands out, the three lists' ids
   * and the nine titles: three tasks per list, the first task of the second list and the
   * second task of the third list completed.
   */
  function SeedRows(firstId: int, compras: int, trabajo: int, personal: int, titles: seq<string>): seq<Task>
    requires |titles| == 9
  {
    ThreeRows(firstId, compras, titles[0], false, titles[1], false, titles[2], false)
    + ThreeRows(firstId + 3, trabajo, titles[3], true, titles[4], false, titles[5], false)
    + ThreeRows(firstId + 6, personal, titles[6], false, titles[7], true, titles[8], false)
  }

  /** The seeded task rows with the app's titles. */
  function SeedTasks(firstId: int, compras: int, trabajo: int, personal: int): seq<Task>
  {
    SeedRows(firstId, compras, trabajo, personal, SeedTitles)
  }

  /**
   * `populateDatabase`: inserts the three lists, each under a fresh id, then three tasks on
   * each list under fresh ids, every task carrying the `toInt()` of its list's returned id.
   */
  method PopulateDatabase(lists: TaskListDao.ListTable, tasks: TaskDao.TaskTable)
    requires lists.Valid() && tasks.Valid()
    modifies lists, tasks
    ensures lists.Valid() && tasks.Valid()
    ensures lists.rows == old(lists.rows) + SeedLists(old(lists.nextId))
    ensures tasks.rows == old(tasks.rows) + SeedTasks(old(tasks.nextId),
      ToInt32(old(lists.nextId)), ToInt32(old(lists.nextId) + 1), ToInt32(old(lists.nextId) + 2))
    ensures lists.nextId == old(lists.nextId) + 3 && tasks.nextId == old(tasks.nextId) + 9
  {
    var id1 := TaskListDao.InsertNewList(lists, TaskList(NoId, "Compras", ComprasColor, 0));
    var list1Id := ToInt32(id1);
    var id2 := TaskListDao.InsertNewList(lists, TaskList(NoId, "Trabajo", TrabajoColor, 0));
    var list2Id := ToInt32(id2);
    var id3 := TaskListDao.InsertNewList(lists, TaskList(NoId, "Personal", PersonalColor, 0));
    var list3Id := ToInt32(id3);

    AddSeedTasks(tasks, list1Id, list2Id, list3Id);
  }

  /** The nine task inserts of `populateDatabase`, three per list, on the lists' ids. */
  method AddSeedTasks(tasks: TaskDao.TaskTable, list1Id: int, list2Id: int, list3Id: int)
    requires tasks.Valid()
    modifies tasks
    ensures tasks.Valid()
    ensures tasks.rows == old(tasks.rows) + SeedTasks(old(tasks.nextId), list1Id, list2Id, list3Id)
    ensures tasks.nextId == old(tasks.nextId) + 9
  {
    AddThreeTasks(tasks, list1Id, "Comprar leche", false, "Pan integral", false, "Frutas y verduras", false);
    AddThreeTasks(tasks, list2Id, "Revisar emails", true, "Reunión con equipo", false, "Entregar informe", false);
    AddThreeTasks(tasks, list3Id, "Llamar al médico", false, "Hacer ejercicio", true, "Leer 30 minutos", false);
    SeedTasksByList(old(tasks.nextId), list1Id, list2Id, list3Id);
  }

  /** The seeded task rows, list by list, with their titles written out. */
  lemma SeedTasksByList(firstId: int, compras: int, trabajo: int, personal: int)
    ensures SeedTasks(firstId, compras, trabajo, personal) ==
      ThreeRows(firstId, compras, "Comprar leche", false, "Pan integral", false, "Frutas y verduras", false)
      + ThreeRows(firstId + 3, trabajo, "Revisar emails", true, "Reunión con equipo", false, "Entregar informe", false)
      + ThreeRows(firstId + 6, personal, "Llamar al médico", false, "Hacer ejercicio", true, "Leer 30 minutos", false)
  {
  }

  /** Three `insertTask` calls of tasks without ids on one list: the rows are appended under the next three ids. */
  method AddThreeTasks(tasks: TaskDao.TaskTable, listId: int, a: string, aDone: bool, b: string, bDone: bool, c: string, cDone: bool)
    requires tasks.Valid()
    modifies tasks
    ensures tasks.Valid()
    ensures tasks.nextId == old(tasks.nextId) + 3
    ensures tasks.rows == old(tasks.rows) + ThreeRows(old(tasks.nextId), listId, a, aDone, b, bDone, c, cDone)
  {
    var _ := TaskDao.InsertNewTask(tasks, Task(NoId, a, aDone, listId));
    var _ := TaskDao.InsertNewTask(tasks, Task(NoId, b, bDone, listId));
    var _ := TaskDao.InsertNewTask(tasks, Task(NoId, c, cDone, listId));
  }

  /** The colours as stored: the negative 32-bit values of the ARGB constants. */
  lemma SeedColours()
    ensures ComprasColor == -11751600
    ensures TrabajoColor == -14575885
    ensures PersonalColor == -1499549
  {
  }

  /** The count over a concatenation is the sum of the counts. */
  lemma {:induction false} CountAppend(a: seq<Task>, b: seq<Task>, listId: int)
    ensures TaskDao.TaskCountForList(a + b, listId)
      == TaskDao.TaskCountForList(a, listId) + TaskDao.TaskCountForList(b, listId)
  {
    if |a| > 0 {
      assert (a + b)[1..] == a[1..] + b;
      CountAppend(a[1..], b, listId);
    } else {
      assert a + b == b;
    }
  }

  /** Three rows of one list count three for that list and none for any other. */
  lemma CountThreeRows(firstId: int, listId: int, a: string, aDone: bool, b: string, bDone: bool, c: string, cDone: bool, other: int)
    ensures TaskDao.TaskCountForList(ThreeRows(firstId, listId, a, aDone, b, bDone, c, cDone), other)
      == if other == listId then 3 else 0
  {
    var rows := ThreeRows(firstId, listId, a, aDone, b, bDone, c, cDone);
    assert TaskDao.TaskCountForList(rows[2..], other) == (if rows[2].listId == other then 1 else 0);
    assert rows[1..][1..] == rows[2..];
  }

  /** On three distinct list ids, the seed gives each list three of its nine tasks, whatever the titles. */
  lemma SeedCounts(firstId: int, compras: int, trabajo: int, personal: int, titles: seq<string>)
    requires |titles| == 9
    requires compras != trabajo && compras != personal && trabajo != personal
    ensures var rows := SeedRows(firstId, compras, trabajo, personal, titles);
      && |rows| == 9
      && TaskDao.TaskCountForList(rows, compras) == 3
      && TaskDao.TaskCountForList(rows, trabajo) == 3
      && TaskDao.TaskCountForList(rows, personal) == 3
  {
    var g1 := ThreeRows(firstId, compras, titles[0], false, titles[1], false, titles[2], false);
    var g2 := ThreeRows(firstId + 3, trabajo, titles[3], true, titles[4], false, titles[5], false);
    var g3 := ThreeRows(firstId + 6, personal, titles[6], false, titles[7], true, titles[8], false);
    forall listId | listId in {compras, trabajo, personal}
      ensures TaskDao.TaskCountForList(g1 + g2 + g3, listId) == 3
    {
      CountAppend(g1 + g2, g3, listId);
      CountAppend(g1, g2, listId);
      CountThreeRows(firstId, compras, titles[0], false, titles[1], false, titles[2], false, listId);
      CountThreeRows(firstId + 3, trabajo, titles[3], true, titles[4], false, titles[5], false, listId);
      CountThreeRows(firstId + 6, personal, titles[6], false, titles[7], true, titles[8], false, listId);
    }
  }

  /**
   * The seeded rows carry nine distinct consecutive ids and the titles in order, the first
   * three on the first list, the next three on the second and the last three on the third,
   * and exactly the fourth and the eighth ("Revisar emails" and "Hacer ejercicio" with the
   * app's titles) are completed.
   */
  lemma SeedCompleted(firstId: int, compras: int, trabajo: int, personal: int, titles: seq<string>)
    requires |titles| == 9
    ensures var rows := SeedRows(firstId, compras, trabajo, personal, titles);
      forall i :: 0 <= i < |rows| ==>
        && rows[i].id == firstId + i
        && rows[i].title == titles[i]
        && rows[i].listId == (if i < 3 then compras else if i < 6 then trabajo else personal)
        && (rows[i].isCompleted <==> i == 3 || i == 7)
  {
  }

  /** On a freshly created database the seed lists get ids 1 to 3 and the tasks refer to them. */
  lemma FreshSeed()
    ensures SeedLists(1) == [ TaskList(1, "Compras", -11751600, 0), TaskList(2, "Trabajo", -14575885, 0),
                              TaskList(3, "Personal", -1499549, 0) ]
    ensures SeedTasks(1, ToInt32(1), ToInt32(2), ToInt32(3)) == SeedTasks(1, 1, 2, 3)
    ensures SeedTitles[3] == "Revisar emails" && SeedTitles[7] == "Hacer ejercicio"
  {
    SeedColours();
  }

  /**
   * The task rows `populateDatabase` leaves in a new database: nine rows, three on each of
   * the lists 1 to 3, and only "Revisar emails" and "Hacer ejercicio" completed.
   */
  lemma NewDatabaseTasks(rows: seq<Task>)
    requires rows == SeedTasks(1, 1, 2, 3)
    ensures |rows| == 9
    ensures TaskDao.TaskCountForList(rows, 1) == 3
    ensures TaskDao.TaskCountForList(rows, 2) == 3
    ensures TaskDao.TaskCountForList(rows, 3) == 3
    ensures forall i :: 0 <= i < |rows| ==> (rows[i].isCompleted <==> i == 3 || i == 7)
    ensures rows[3].title == SeedTitles[3] == "Revisar emails"
    ensures rows[7].title == SeedTitles[7] == "Hacer ejercicio"
  {
    FreshSeed();
    SeedCounts(1, 1, 2, 3, SeedTitles);
    SeedCompleted(1, 1, 2, 3, SeedTitles);
  }

  /** The task rows seeded into an empty table after the lists got ids 1 to 3. */
  lemma NewDatabaseRows(rows: seq<Task>)
    requires rows == [] + SeedTasks(1, ToInt32(1), ToInt32(2), ToInt32(3))
    ensures rows == SeedTasks(1, 1, 2, 3)
  {
    FreshSeed();
  }

  /**
   * A newly created database after `populateDatabase`: the three seed lists under ids 1 to 3,
   * nine tasks, three on each list, and only the fourth and the eighth seed titles ("Revisar
   * emails" and "Hacer ejercicio", as `NewDatabaseTasks` states) completed.
   */
  method SeedNewDatabase() returns (lists: TaskListDao.ListTable, tasks: TaskDao.TaskTable)
    ensures lists.Valid() && tasks.Valid()
    ensures lists.rows == SeedLists(1)
    ensures |tasks.rows| == 9
    ensures TaskDao.TaskCountForList(tasks.rows, 1) == 3
    ensures TaskDao.TaskCountForList(tasks.rows, 2) == 3
    ensures TaskDao.TaskCountForList(tasks.rows, 3) == 3
    ensures forall i :: 0 <= i < |tasks.rows| ==> (tasks.rows[i].isCompleted <==> i == 3 || i == 7)
    ensures tasks.rows[3].title == SeedTitles[3] && tasks.rows[7].title == SeedTitles[7]
  {
    lists := new TaskListDao.ListTable();
    tasks := new TaskDao.TaskTable();
    PopulateDatabase(lists, tasks);
    assert lists.rows == [] + SeedLists(1);
    NewDatabaseRows(tasks.rows);
    NewDatabaseTasks(tasks.rows);
  }
}
