/**
 * The list screen's view model: the lists-with-counts feed, derived from the two tables,
 * and the list writes it forwards to `TaskListDao`. An observed query is modelled as a
 * fresh evaluation over the tables' current rows.
 */
module TaskListViewModel {
  import opened Model
  import Table
  import opened TaskDao
  import opened TaskListDao

  /** Pairs each list, in the given order, with the task count of its id. */
  function WithCounts(lists: seq<TaskList>, taskRows: seq<Task>): (r: seq<TaskListWithCount>)
    ensures |r| == |lists|
    ensures forall i :: 0 <= i < |lists| ==>
      r[i].taskList == lists[i] && r[i].taskCount == |TasksForList(taskRows, lists[i].id)|
  {
    if |lists| == 0 then []
    else
      CountMatchesQuery(taskRows, lists[0].id);
      [TaskListWithCount(lists[0], TaskCountForList(taskRows, lists[0].id))]
        + WithCounts(lists[1..], taskRows)
  }

  /** `allListsWithCount`: every list of `getAllLists`, in its order, with its task count. */
  function AllListsWithCount(listRows: seq<TaskList>, taskRows: seq<Task>): (r: seq<TaskListWithCount>)
    ensures |r| == |listRows|
    ensures forall i :: 0 <= i < |r| ==> r[i].taskList == AllLists(listRows)[i]
    ensures forall e :: e in r ==> e.taskList in listRows
    ensures forall i :: 0 <= i < |r| ==> r[i].taskCount == |TasksForList(taskRows, r[i].taskList.id)|
  {
    WithCounts(AllLists(listRows), taskRows)
  }

  /** On tables in id order the feed is newest list first and each count is the number of the list's task rows. */
  lemma AllListsWithCountFaithful(listRows: seq<TaskList>, taskRows: seq<Task>)
    requires Table.Ascending(listRows, ListKey)
    requires Table.Ascending(taskRows, TaskKey)
    ensures var r := AllListsWithCount(listRows, taskRows);
      && (forall i, j :: 0 <= i < j < |r| ==> r[i].taskList.id > r[j].taskList.id)
      && (forall i :: 0 <= i < |r| ==> r[i].taskCount == |RowsOfList(taskRows, r[i].taskList.id)|)
  {
    var r := AllListsWithCount(listRows, taskRows);
    AllListsNewestFirst(listRows);
    forall i | 0 <= i < |r| ensures r[i].taskCount == |RowsOfList(taskRows, r[i].taskList.id)| {
      CountIsNumberOfRows(taskRows, r[i].taskList.id);
      CountMatchesQuery(taskRows, r[i].taskList.id);
    }
  }

  /** The view model over the app's two tables. */
  class ListViewModel {
    const lists: ListTable
    const tasks: TaskTable

    ghost predicate Valid()
      reads this, lists, tasks
    {
      lists.Valid() && tasks.Valid()
    }

    constructor (lists: ListTable, tasks: TaskTable)
      ensures this.lists == lists && this.tasks == tasks
    {
      this.lists := lists;
      this.tasks := tasks;
    }

    /** The value a re-run of the `allListsWithCount` list query yields over the current rows. */
    function Feed(): (r: seq<TaskListWithCount>)
      reads lists, tasks
      ensures |r| == |lists.rows|
      ensures forall i :: 0 <= i < |r| ==>
        r[i].taskList == AllLists(lists.rows)[i] && r[i].taskCount == |TasksForList(tasks.rows, r[i].taskList.id)|
    {
      AllListsWithCount(lists.rows, tasks.rows)
    }

    /** `insertList`: adds or replaces exactly one list row; the task rows are untouched. */
    method InsertList(taskList: TaskList)
      requires Valid()
      modifies lists
      ensures Valid()
      ensures exists id :: lists.rows == Table.Upsert(old(lists.rows), ListKey, taskList.(id := id))
      ensures taskList.id != NoId ==> lists.rows == Table.Upsert(old(lists.rows), ListKey, taskList)
      ensures taskList.id == NoId ==> lists.rows == old(lists.rows) + [taskList.(id := old(lists.nextId))]
      ensures lists.nextId ==
        if taskList.id == NoId then old(lists.nextId) + 1
        else if taskList.id < old(lists.nextId) then old(lists.nextId)
        else taskList.id + 1
      ensures unchanged(tasks)
    {
      var _ := lists.InsertList(taskList);
    }

    /** `deleteList`: the list's row is gone, so the list is absent from the next feed; task rows are untouched. */
    method DeleteList(taskList: TaskList)
      requires Valid()
      modifies lists
      ensures Valid()
      ensures forall l :: l in lists.rows <==> l in old(lists.rows) && l.id != taskList.id
      ensures forall e :: e in Feed() ==> e.taskList.id != taskList.id
      ensures |Feed()| == |old(Feed())| - (if exists l :: l in old(lists.rows) && l.id == taskList.id then 1 else 0)
      ensures lists.nextId == old(lists.nextId)
      ensures unchanged(tasks)
    {
      lists.DeleteList(taskList);
      DeleteListCount(old(lists.rows), taskList.id);
    }
  }

  /** Deleting an id from an id-ordered list table removes one row if the id is present and none otherwise. */
  lemma DeleteListCount(rows: seq<TaskList>, id: int)
    requires Table.Ascending(rows, ListKey)
    ensures |Table.Remove(rows, ListKey, id)| == |rows| - (if exists l :: l in rows && l.id == id then 1 else 0)
  {
    if exists l :: l in rows && l.id == id {
      var l :| l in rows && l.id == id;
      var i :| 0 <= i < |rows| && rows[i] == l;
      Table.RemoveThenUpsert(rows, ListKey, l);
      var removed := Table.Remove(rows, ListKey, id);
      assert Table.Upsert(removed, ListKey, l) == Table.Insert(Table.Remove(removed, ListKey, id), ListKey, l);
      Table.RemoveAbsent(removed, ListKey, id);
    } else {
      Table.RemoveAbsent(rows, ListKey, id);
    }
  }
}
