/**
 * The `task_lists` table and the queries and writes of `TaskListDao`, with the same row
 * semantics and id allocation as the `tasks` table.
 */
module TaskListDao {
  import opened Wrappers
  import opened Model
  import Table

  /** `SELECT * FROM task_lists ORDER BY id DESC`. */
  function AllLists(rows: seq<TaskList>): (r: seq<TaskList>)
    ensures |r| == |rows|
    ensures forall l :: l in r <==> l in rows
  {
    Table.Reverse(rows)
  }

  /** On a table in id order the query lists every list newest id first. */
  lemma AllListsNewestFirst(rows: seq<TaskList>)
    requires Table.Ascending(rows, ListKey)
    ensures Table.Descending(AllLists(rows), ListKey)
  {
    Table.ReverseDescends(rows, ListKey);
  }

  /** `SELECT * FROM task_lists WHERE id = :listId`: the list, or null when there is none. */
  function ListById(rows: seq<TaskList>, listId: int): (r: Option<TaskList>)
    ensures r.Some? ==> r.value in rows && r.value.id == listId
    ensures r.None? <==> forall l :: l in rows ==> l.id != listId
  {
    Table.Find(rows, ListKey, listId)
  }

  /** On a table in id order the lookup returns the very row that has the id. */
  lemma ListByIdFindsRow(rows: seq<TaskList>, l: TaskList)
    requires Table.Ascending(rows, ListKey)
    requires l in rows
    ensures ListById(rows, l.id) == Some(l)
  {
    Table.FindPresent(rows, ListKey, l);
  }

  /** The `task_lists` table. */
  class ListTable {
    /** The rows, in id order. */
    var rows: seq<TaskList>
    /** The id the next row stored without one receives. */
    var nextId: int

    ghost predicate Valid()
      reads this
    {
      && Table.Ascending(rows, ListKey)
      && NoId < nextId
      && forall l :: l in rows ==> l.id != NoId && l.id < nextId
    }

    /** A newly created, empty table. */
    constructor ()
      ensures Valid() && rows == [] && nextId == 1
    {
      rows := [];
      nextId := 1;
    }

    /**
     * `@Insert(onConflict = REPLACE)`: stores `l`, under a fresh id when it has none,
     * replaces any row with the same id and returns the id of the stored row.
     */
    method InsertList(l: TaskList) returns (id: int)
      requires Valid()
      modifies this
      ensures Valid()
      ensures id == if l.id == NoId then old(nextId) else l.id
      ensures l.id == NoId ==> forall u :: u in old(rows) ==> u.id != id
      ensures rows == Table.Upsert(old(rows), ListKey, l.(id := id))
      ensures l.(id := id) in rows
      ensures forall u :: u in rows && u.id == id ==> u == l.(id := id)
      ensures forall u: TaskList :: u.id != id ==> (u in rows <==> u in old(rows))
      ensures l.id == NoId ==> rows == old(rows) + [l.(id := id)]
      ensures nextId == if id < old(nextId) then old(nextId) else id + 1
    {
      id := if l.id == NoId then nextId else l.id;
      var stored := l.(id := id);
      if l.id == NoId {
        Table.UpsertFresh(rows, ListKey, stored);
      }
      rows := Table.Upsert(rows, ListKey, stored);
      if nextId <= id {
        nextId := id + 1;
      }
    }

    /** `@Update`: the row with `l`'s id becomes `l`; without such a row nothing changes. */
    method UpdateList(l: TaskList)
      requires Valid()
      modifies this
      ensures Valid()
      ensures rows == Table.Replace(old(rows), ListKey, l)
      ensures (forall u :: u in old(rows) ==> u.id != l.id) ==> rows == old(rows)
      ensures nextId == old(nextId)
    {
      Table.ReplaceKeepsOrder(rows, ListKey, l);
      if forall u :: u in rows ==> u.id != l.id {
        Table.ReplaceAbsent(rows, ListKey, l);
      }
      rows := Table.Replace(rows, ListKey, l);
    }

    /** `@Delete`: removes the row with `l`'s id; other lists keep their rows and ids. */
    method DeleteList(l: TaskList)
      requires Valid()
      modifies this
      ensures Valid()
      ensures rows == Table.Remove(old(rows), ListKey, l.id)
      ensures forall u :: u in rows <==> u in old(rows) && u.id != l.id
      ensures (forall u :: u in old(rows) ==> u.id != l.id) ==> rows == old(rows)
      ensures nextId == old(nextId)
    {
      if forall u :: u in rows ==> u.id != l.id {
        Table.RemoveAbsent(rows, ListKey, l.id);
      }
      rows := Table.Remove(rows, ListKey, l.id);
    }
  }

  /** `insertList` of a list built without an id: the row is appended under the next id. */
  method InsertNewList(table: ListTable, l: TaskList) returns (id: int)
    requires table.Valid() && l.id == NoId
    modifies table
    ensures table.Valid()
    ensures id == old(table.nextId) && table.nextId == id + 1
    ensures table.rows == old(table.rows) + [l.(id := id)]
  {
    id := table.InsertList(l);
  }
}
