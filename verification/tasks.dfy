/** The task list: lookup by date, upsert by id, moving a task to another day,
    and creating a task. The service's mutable array becomes a value: each
    operation returns the new list, and persisting it is left to the caller. */
module Tasks {

  import opened Optional
  import opened Filters
  import opened Text

  /** A task; `date` holds a day identifier. `deleted` is read by the spread
      view and is false when a task never had it set. */
  datatype Task = Task(id: string, text: string, completed: bool, date: string,
                       createdAt: int, deleted: bool)

  /** The tasks dated `date`, deleted or not, in list order. */
  function GetTasksForDate(tasks: seq<Task>, date: string): (r: seq<Task>)
    ensures IsSubsequence(r, tasks)
    ensures forall t :: t in r <==> t in tasks && t.date == date
    ensures forall t :: multiset(r)[t] == if t.date == date then multiset(tasks)[t] else 0
  {
    Filter(tasks, (t: Task) => t.date == date)
  }

  /** Position of the first task with the given id (`findIndex`; None stands
      for -1). */
  function FindIndex(tasks: seq<Task>, id: string): (r: Option<nat>)
    ensures r.Some? ==> r.value < |tasks| && tasks[r.value].id == id
    ensures r.Some? ==> forall j :: 0 <= j < r.value ==> tasks[j].id != id
    ensures r.None? <==> forall j :: 0 <= j < |tasks| ==> tasks[j].id != id
  {
    if |tasks| == 0 then None
    else if tasks[0].id == id then Some(0)
    else
      match FindIndex(tasks[1..], id)
      case None => None
      case Some(i) => Some(i + 1)
  }

  /** The first task with the given id (`find`). */
  function Find(tasks: seq<Task>, id: string): (r: Option<Task>)
    ensures r.Some? ==> r.value in tasks && r.value.id == id
    ensures r.Some? ==> FindIndex(tasks, id).Some? && r.value == tasks[FindIndex(tasks, id).value]
    ensures r.None? <==> forall t :: t in tasks ==> t.id != id
  {
    match FindIndex(tasks, id)
    case None => None
    case Some(i) => Some(tasks[i])
  }

  /** Upsert: the first task with the same id is replaced in place; when there
      is none, the task is appended. */
  function UpdateTask(tasks: seq<Task>, task: Task): (r: seq<Task>)
    ensures FindIndex(tasks, task.id).Some? ==>
      var i := FindIndex(tasks, task.id).value;
      |r| == |tasks| && r[i] == task && forall j :: 0 <= j < |r| && j != i ==> r[j] == tasks[j]
    ensures FindIndex(tasks, task.id).None? ==>
      |r| == |tasks| + 1 && r[..|tasks|] == tasks && r[|tasks|] == task
  {
    match FindIndex(tasks, task.id)
    case Some(i) => tasks[i := task]
    case None => tasks + [task]
  }

  /** After an upsert, looking the id up gives the new task. */
  lemma UpdateThenFind(tasks: seq<Task>, task: Task)
    ensures Find(UpdateTask(tasks, task), task.id) == Some(task)
  {
    var r := UpdateTask(tasks, task);
    var k := if FindIndex(tasks, task.id).Some? then FindIndex(tasks, task.id).value else |tasks|;
    assert r[k] == task;
    assert forall j :: 0 <= j < k ==> r[j].id != task.id;
    FirstIndex(r, task.id, k);
  }

  /** An upsert leaves every other id's lookup as it was. */
  lemma UpdateOtherIds(tasks: seq<Task>, task: Task, id: string)
    requires id != task.id
    ensures Find(UpdateTask(tasks, task), id) == Find(tasks, id)
  {
    var r := UpdateTask(tasks, task);
    match FindIndex(tasks, id)
    case None =>
      assert forall j :: 0 <= j < |r| ==> r[j].id != id by {
        forall j | 0 <= j < |r| ensures r[j].id != id {
          if j < |tasks| && r[j] != task { assert r[j] == tasks[j]; }
        }
      }
    case Some(k) =>
      assert r[k] == tasks[k];
      assert forall j :: 0 <= j < k ==> r[j].id != id by {
        forall j | 0 <= j < k ensures r[j].id != id {
          if r[j] != task { assert r[j] == tasks[j]; }
        }
      }
      FirstIndex(r, id, k);
  }

  /** Upserting the same task twice is upserting it once. */
  lemma UpdateIdempotent(tasks: seq<Task>, task: Task)
    ensures UpdateTask(UpdateTask(tasks, task), task) == UpdateTask(tasks, task)
  {
    var r := UpdateTask(tasks, task);
    var k := if FindIndex(tasks, task.id).Some? then FindIndex(tasks, task.id).value else |tasks|;
    assert forall j :: 0 <= j < k ==> r[j].id != task.id;
    FirstIndex(r, task.id, k);
    assert r[k := task] == r;
  }

  /** k is the first position holding id. */
  lemma FirstIndex(tasks: seq<Task>, id: string, k: nat)
    requires k < |tasks| && tasks[k].id == id
    requires forall j :: 0 <= j < k ==> tasks[j].id != id
    ensures FindIndex(tasks, id) == Some(k)
  {
  }

  /** Reassigns the first task with the given id to another day; an unknown id
      leaves the list as it is. */
  function MoveTask(tasks: seq<Task>, id: string, targetDate: string): (r: seq<Task>)
    ensures FindIndex(tasks, id).None? ==> r == tasks
    ensures FindIndex(tasks, id).Some? ==>
      var i := FindIndex(tasks, id).value;
      && |r| == |tasks|
      && r[i] == tasks[i].(date := targetDate)
      && forall j :: 0 <= j < |r| && j != i ==> r[j] == tasks[j]
  {
    match Find(tasks, id)
    case None => tasks
    case Some(task) => UpdateTask(tasks, task.(date := targetDate))
  }

  /** The moved task keeps its id, text, completion, creation time and deleted
      flag, has the target date, and is listed for that date. */
  lemma MoveTaskResult(tasks: seq<Task>, id: string, targetDate: string)
    requires Find(tasks, id).Some?
    ensures var before := Find(tasks, id).value;
      var moved := Find(MoveTask(tasks, id, targetDate), id);
      && moved.Some?
      && moved.value.id == before.id && moved.value.text == before.text
      && moved.value.completed == before.completed && moved.value.createdAt == before.createdAt
      && moved.value.deleted == before.deleted
      && moved.value.date == targetDate
      && moved.value in GetTasksForDate(MoveTask(tasks, id, targetDate), targetDate)
  {
    var task := Find(tasks, id).value;
    UpdateThenFind(tasks, task.(date := targetDate));
  }

  /** Moving a task to a day twice is moving it once. */
  lemma MoveTaskIdempotent(tasks: seq<Task>, id: string, targetDate: string)
    ensures MoveTask(MoveTask(tasks, id, targetDate), id, targetDate) == MoveTask(tasks, id, targetDate)
  {
    match Find(tasks, id)
    case None =>
    case Some(task) =>
      var moved := task.(date := targetDate);
      UpdateThenFind(tasks, moved);
      assert moved.(date := targetDate) == moved;
      UpdateIdempotent(tasks, moved);
  }

  /** A new task with the given id, trimmed text, the given day, not completed
      and not deleted, upserted into the list. The id and the creation time
      are supplied by the caller. */
  function CreateTask(tasks: seq<Task>, id: string, text: string, date: string, createdAt: int)
    : (r: (Task, seq<Task>))
    ensures r.0.id == id && r.0.text == Trim(text) && r.0.date == date && r.0.createdAt == createdAt
    ensures !r.0.completed && !r.0.deleted
    ensures Find(r.1, id) == Some(r.0)
    ensures (forall t :: t in tasks ==> t.id != id) ==> r.1 == tasks + [r.0]
  {
    var task := Task(id, Trim(text), false, date, createdAt, false);
    UpdateThenFind(tasks, task);
    (task, UpdateTask(tasks, task))
  }
}
