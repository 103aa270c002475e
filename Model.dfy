/** Optional values: the model of Kotlin's nullable results (`TaskList?`, a missing query parameter). */
module Wrappers {
  datatype Option<+T> = None | Some(value: T)
}

/** The records of the app's data layer (model/Task.kt, model/TaskList.kt, model/SharedTaskList.kt). */
module Model {

  /** The id a caller passes when it builds a row without one; the store then assigns a fresh id. */
  const NoId: int := 0

  /** A row of the `tasks` table. */
  datatype Task = Task(id: int, title: string, isCompleted: bool, listId: int)

  /** A row of the `task_lists` table; `taskCount` is carried but never read by the app. */
  datatype TaskList = TaskList(id: int, name: string, color: int, taskCount: int)

  /** One entry of a share payload: a task without its ids. */
  datatype SharedTask = SharedTask(title: string, isCompleted: bool)

  /** The share payload: a list's name and colour and its tasks, without ids. */
  datatype SharedTaskList = SharedTaskList(listName: string, listColor: int, tasks: seq<SharedTask>)

  /** What the list screen shows for one list: the list and how many tasks it has. */
  datatype TaskListWithCount = TaskListWithCount(taskList: TaskList, taskCount: int)

  /** The primary key of each table. */
  function TaskKey(t: Task): int { t.id }
  function ListKey(l: TaskList): int { l.id }

  const TwoTo32: int := 0x1_0000_0000
  const TwoTo31: int := 0x8000_0000

  /** Kotlin's `Long.toInt()`: keep the low 32 bits, read as a two's-complement value. */
  function ToInt32(x: int): (r: int)
    ensures -TwoTo31 <= r < TwoTo31
    ensures (x - r) % TwoTo32 == 0
  {
    var low := x % TwoTo32;
    if low < TwoTo31 then low else low - TwoTo32
  }

  /** A value already in the 32-bit range is unchanged by `toInt()`. */
  lemma ToInt32InRange(x: int)
    requires -TwoTo31 <= x < TwoTo31
    ensures ToInt32(x) == x
  {
  }
}
