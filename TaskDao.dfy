/**
 * The `tasks` table and the queries and writes of `TaskDao`. The table keeps its rows in
 * id order and allocates ids the way an AUTOINCREMENT key does: a row stored without an
 * id gets one larger than every id the table has ever held.
 */
module TaskDao {
  import opened Model
  import Table

  /** The `WHERE listId = :listId` condition. */
  function OnList(listId: int): Task -> bool
  {
    (t: Task) => t.listId == listId
  }

  /** `SELECT * FROM tasks WHERE listId = :listId ORDER BY id DESC`. */
  function TasksForList(rows: seq<Task>, listId: int): (r: seq<Task>)
    ensures forall t :: t in r <==> t in rows && t.listId == listId
  {
    Table.Reverse(Table.Where(rows, OnList(listId)))
  }

  /** `SELECT COUNT(*) FROM tasks WHERE listId = :listId`, counted row by row. */
  function TaskCountForList(rows: seq<Task>, listId: int): (n: nat)
    ensures n <= |rows|
  {
    if |rows| == 0 then 0
    else (if rows[0].listId == listId then 1 else 0) + TaskCountForList(rows[1..], listId)
  }

  /** The count is the length of the list's task query. */
  lemma {:induction false} CountMatchesQuery(rows: seq<Task>, listId: int)
    ensures TaskCountForList(rows, listId) == |TasksForList(rows, listId)|
  {
    if |rows| > 0 {
      CountMatchesQuery(rows[1..], listId);
    }
  }

  /** On a table in id order the query lists its tasks newest id first. */
  lemma TasksForListNewestFirst(rows: seq<Task>, listId: int)
    requires Table.Ascending(rows, TaskKey)
    ensures Table.Descending(TasksForList(rows, listId), TaskKey)
  {
    Table.WhereKeepsOrder(rows, OnList(listId), TaskKey);
    Table.ReverseDescends(Table.Where(rows, OnList(listId)), TaskKey);
  }

  /** The rows of the table that belong to the list, as a set. */
  ghost function RowsOfList(rows: seq<Task>, listId: int): set<Task>
  {
    set t | t in rows && t.listId == listId
  }

  /** The count is the number of distinct rows of the table that belong to the list. */
  lemma {:induction false} CountIsNumberOfRows(rows: seq<Task>, listId: int)
    requires Table.Ascending(rows, TaskKey)
    ensures TaskCountForList(rows, listId) == |RowsOfList(rows, listId)|
  {
    if |rows| > 0 {
      CountIsNumberOfRows(rows[1..], listId);
      Table.HeadNotInTail(rows, TaskKey);
      RowsOfListSplit(rows, listId);
    }
  }

  /** Splitting off the first row splits the set of the list's rows. */
  lemma RowsOfListSplit(rows: seq<Task>, listId: int)
    requires |rows| > 0
    ensures RowsOfList(rows, listId) ==
      RowsOfList(rows[1..], listId) + (if rows[0].listId == listId then {rows[0]} else {})
  {
    assert rows == [rows[0]] + rows[1..];
  }

  /** The `tasks` table. */
  class TaskTable {
    /** The rows, in id order. */
    var rows: seq<Task>
    /** The id the next row stored without one receives. */
    var nextId: int

    ghost predicate Valid()
      reads this
    {
      && Table.Ascending(rows, TaskKey)
      && NoId < nextId
      && forall t :: t in rows ==> t.id != NoId && t.id < nextId
    }

    /** A newly created, empty table. */
    constructor ()
      ensures Valid() && rows == [] && nextId == 1
    {
      rows := [];
      nextId := 1;
    }

    /**
     * `@Insert(onConflict = REPLACE)`: stores `t`, under a fresh id when it has none,
     * replaces any row with the same id and returns the id of the stored row.
     */
    method InsertTask(t: Task) returns (id: int)
      requires Valid()
      modifies this
      ensures Valid()
      ensures id == if t.id == NoId then old(nextId) else t.id
      ensures t.id == NoId ==> forall u :: u in old(rows) ==> u.id != id
      ensures rows == Table.Upsert(old(rows), TaskKey, t.(id := id))
      ensures t.(id := id) in rows
      ensures forall u :: u in rows && u.id == id ==> u == t.(id := id)
      ensures forall u: Task :: u.id != id ==> (u in rows <==> u in old(rows))
      ensures t.id == NoId ==> rows == old(rows) + [t.(id := id)]
      ensures nextId == if id < old(nextId) then old(nextId) else id + 1
    {
      id := if t.id == NoId then nextId else t.id;
      var stored := t.(id := id);
      if t.id == NoId {
        Table.UpsertFresh(rows, TaskKey, stored);
      }
      rows := Table.Upsert(rows, TaskKey, stored);
      if nextId <= id {
        nextId := id + 1;
      }
    }

    /** `@Update`: the row with `t`'s id becomes `t`; without such a row nothing changes. */
    method UpdateTask(t: Task)
      requires Valid()
      modifies this
      ensures Valid()
      ensures rows == Table.Replace(old(rows), TaskKey, t)
      ensures (forall u :: u in old(rows) ==> u.id != t.id) ==> rows == old(rows)
      ensures nextId == old(nextId)
    {
      Table.ReplaceKeepsOrder(rows, TaskKey, t);
      if forall u :: u in rows ==> u.id != t.id {
        Table.ReplaceAbsent(rows, TaskKey, t);
      }
      rows := Table.Replace(rows, TaskKey, t);
    }

    /** `@Delete`: removes the row with `t`'s id; without such a row nothing changes. */
    method DeleteTask(t: Task)
      requires Valid()
      modifies this
      ensures Valid()
      ensures rows == Table.Remove(old(rows), TaskKey, t.id)
      ensures forall u :: u in rows <==> u in old(rows) && u.id != t.id
      ensures (forall u :: u in old(rows) ==> u.id != t.id) ==> rows == old(rows)
      ensures nextId == old(nextId)
    {
      if forall u :: u in rows ==> u.id != t.id {
        Table.RemoveAbsent(rows, TaskKey, t.id);
      }
      rows := Table.Remove(rows, TaskKey, t.id);
    }
  }

  /** `insertTask` of a task built without an id: the row is appended under the next id. */
  method InsertNewTask(table: TaskTable, t: Task) returns (id: int)
    requires table.Valid() && t.id == NoId
    modifies table
    ensures table.Valid()
    ensures id == old(table.nextId) && table.nextId == id + 1
    ensures table.rows == old(table.rows) + [t.(id := id)]
  {
    id := table.InsertTask(t);
  }
}
