/**
 * The task store of src/taskProvider.ts: an ordered list of tasks with add,
 * update (a partial overwrite of the first task with the id), delete (of every
 * task with the id) and lookup, plus the labels a tree item shows for a task.
 * Saving to the extension's global state and refreshing the tree view are
 * side effects that do not change the list and are not modelled.
 */
module TaskProvider {
  import opened Wrappers
  import opened JsText
  import opened Types

  /**
   * A `Partial<Task>`: the properties present in the update object. An
   * optional property may be present with the value `undefined`, which the
   * object spread copies over, so it is an `Option` of an `Option`.
   */
  datatype TaskPatch = TaskPatch(
    id: Option<string>,
    name: Option<string>,
    description: Option<Option<string>>,
    estimatedPomodoros: Option<int>,
    completedPomodoros: Option<int>,
    isCompleted: Option<bool>,
    createdAt: Option<int>,
    completedAt: Option<Option<int>>,
    isBookmark: Option<Option<bool>>,
    filePath: Option<Option<string>>,
    lineNumber: Option<Option<int>>)

  /** The empty update object `{}`. */
  const NoChange := TaskPatch(None, None, None, None, None, None, None, None, None, None, None)

  /** `{ ...t, ...p }`. */
  function ApplyPatch(t: Task, p: TaskPatch): Task
  {
    Task(
      p.id.GetOr(t.id),
      p.name.GetOr(t.name),
      p.description.GetOr(t.description),
      p.estimatedPomodoros.GetOr(t.estimatedPomodoros),
      p.completedPomodoros.GetOr(t.completedPomodoros),
      p.isCompleted.GetOr(t.isCompleted),
      p.createdAt.GetOr(t.createdAt),
      p.completedAt.GetOr(t.completedAt),
      p.isBookmark.GetOr(t.isBookmark),
      p.filePath.GetOr(t.filePath),
      p.lineNumber.GetOr(t.lineNumber))
  }

  function Later<T>(a: Option<T>, b: Option<T>): Option<T>
  {
    if b.Some? then b else a
  }

  /** `{ ...p, ...q }`: the properties of `q` win. */
  function MergePatch(p: TaskPatch, q: TaskPatch): TaskPatch
  {
    TaskPatch(
      Later(p.id, q.id), Later(p.name, q.name), Later(p.description, q.description),
      Later(p.estimatedPomodoros, q.estimatedPomodoros), Later(p.completedPomodoros, q.completedPomodoros),
      Later(p.isCompleted, q.isCompleted), Later(p.createdAt, q.createdAt),
      Later(p.completedAt, q.completedAt), Later(p.isBookmark, q.isBookmark),
      Later(p.filePath, q.filePath), Later(p.lineNumber, q.lineNumber))
  }

  /**
   * Spreading is a monoid action: the empty object changes nothing, two
   * updates in a row are one merged update, and repeating an update is
   * the same as applying it once.
   */
  lemma {:induction false} PatchLaws(t: Task, p: TaskPatch, q: TaskPatch)
    ensures ApplyPatch(t, NoChange) == t
    ensures ApplyPatch(ApplyPatch(t, p), q) == ApplyPatch(t, MergePatch(p, q))
    ensures ApplyPatch(ApplyPatch(t, p), p) == ApplyPatch(t, p)
  {
  }

  /** `tasks.findIndex(t => t.id === id)`, with `None` for -1. */
  function FindIndex(tasks: seq<Task>, id: string): (r: Option<nat>)
    ensures r.Some? ==> r.value < |tasks| && tasks[r.value].id == id
    ensures r.Some? ==> forall j :: 0 <= j < r.value ==> tasks[j].id != id
    ensures r.None? <==> forall j :: 0 <= j < |tasks| ==> tasks[j].id != id
  {
    if tasks == [] then None
    else if tasks[0].id == id then Some(0)
    else match FindIndex(tasks[1..], id)
      case None => None
      case Some(i) => Some(i + 1)
  }

  /** `addTask`: the task goes at the end. */
  function AddTask(tasks: seq<Task>, t: Task): (r: seq<Task>)
    ensures |r| == |tasks| + 1
    ensures r[..|tasks|] == tasks && r[|tasks|] == t
  {
    tasks + [t]
  }

  /**
   * `updateTask`: the first task with the id takes the supplied properties;
   * every other task, and the order, stay as they were. An unknown id changes
   * nothing.
   */
  function UpdateTask(tasks: seq<Task>, id: string, p: TaskPatch): (r: seq<Task>)
    ensures |r| == |tasks|
    ensures FindIndex(tasks, id).None? ==> r == tasks
    ensures FindIndex(tasks, id).Some? ==>
      var i := FindIndex(tasks, id).value;
      r[i] == ApplyPatch(tasks[i], p) && forall j :: 0 <= j < |tasks| && j != i ==> r[j] == tasks[j]
  {
    match FindIndex(tasks, id)
    case None => tasks
    case Some(i) => tasks[i := ApplyPatch(tasks[i], p)]
  }

  /** `deleteTask`: keeps, in order, exactly the tasks whose id differs. */
  function DeleteTask(tasks: seq<Task>, id: string): (r: seq<Task>)
    ensures |r| <= |tasks|
    ensures forall j :: 0 <= j < |r| ==> r[j].id != id && r[j] in tasks
    ensures forall t :: t in tasks && t.id != id ==> t in r
  {
    if tasks == [] then []
    else if tasks[0].id == id then DeleteTask(tasks[1..], id)
    else [tasks[0]] + DeleteTask(tasks[1..], id)
  }

  /** `getTask`: the first task with the id. */
  function GetTask(tasks: seq<Task>, id: string): (r: Option<Task>)
    ensures r.None? <==> forall j :: 0 <= j < |tasks| ==> tasks[j].id != id
    ensures r.Some? ==> r.value.id == id && r.value == tasks[FindIndex(tasks, id).value]
  {
    match FindIndex(tasks, id)
    case None => None
    case Some(i) => Some(tasks[i])
  }

  /** `getAllTasks`: a copy of the list, equal to it. */
  function GetAllTasks(tasks: seq<Task>): (r: seq<Task>)
    ensures |r| == |tasks| && forall j :: 0 <= j < |r| ==> r[j] == tasks[j]
  {
    tasks
  }

  /** Deleting distributes over concatenation, so it keeps the survivors in their order. */
  lemma {:induction false} DeleteTaskAppend(a: seq<Task>, b: seq<Task>, id: string)
    ensures DeleteTask(a + b, id) == DeleteTask(a, id) + DeleteTask(b, id)
    decreases |a|
  {
    if a == [] {
      assert a + b == b;
    } else {
      assert (a + b)[1..] == a[1..] + b;
      DeleteTaskAppend(a[1..], b, id);
    }
  }

  /** A single task survives deletion exactly when its id differs. */
  lemma {:induction false} DeleteTaskSingle(t: Task, id: string)
    ensures DeleteTask([t], id) == if t.id == id then [] else [t]
  {
    assert [t][1..] == [];
  }

  /** Deleting is idempotent, and deleting an absent id changes nothing. */
  lemma {:induction false} DeleteTaskAbsent(tasks: seq<Task>, id: string)
    ensures DeleteTask(DeleteTask(tasks, id), id) == DeleteTask(tasks, id)
    ensures FindIndex(tasks, id).None? ==> DeleteTask(tasks, id) == tasks
    decreases |tasks|
  {
    if tasks != [] {
      DeleteTaskAbsent(tasks[1..], id);
      if tasks[0].id != id {
        var rest := DeleteTask(tasks[1..], id);
        assert ([tasks[0]] + rest)[1..] == rest;
      }
      if FindIndex(tasks, id).None? {
        assert FindIndex(tasks[1..], id).None?;
      }
    }
  }

  /** After `addTask`, looking up the new id finds the new task unless an earlier task already had that id. */
  lemma {:induction false} GetAfterAdd(tasks: seq<Task>, t: Task, id: string)
    ensures GetTask(AddTask(tasks, t), id) ==
      if GetTask(tasks, id).Some? then GetTask(tasks, id)
      else if t.id == id then Some(t)
      else None
  {
    var r := AddTask(tasks, t);
    match FindIndex(tasks, id)
    case Some(i) =>
      assert r[i] == tasks[i];
      assert forall j :: 0 <= j < i ==> r[j] == tasks[j];
      assert FindIndex(r, id) == Some(i) by {
        assert r[i].id == id;
      }
    case None =>
      assert forall j :: 0 <= j < |tasks| ==> r[j] == tasks[j];
      if t.id == id {
        assert FindIndex(r, id) == Some(|tasks|);
      }
  }

  /** After `updateTask` on a present id, that id finds the updated task (if the update keeps its id). */
  lemma {:induction false} GetAfterUpdate(tasks: seq<Task>, id: string, p: TaskPatch)
    requires GetTask(tasks, id).Some?
    requires p.id.None? || p.id == Some(id)
    ensures GetTask(UpdateTask(tasks, id, p), id) == Some(ApplyPatch(GetTask(tasks, id).value, p))
  {
    var i := FindIndex(tasks, id).value;
    var r := UpdateTask(tasks, id, p);
    assert r[i].id == id;
    assert forall j :: 0 <= j < i ==> r[j] == tasks[j];
  }

  /** After `deleteTask`, the id is gone and every other id finds the same task as before. */
  lemma {:induction false} GetAfterDelete(tasks: seq<Task>, id: string, other: string)
    ensures GetTask(DeleteTask(tasks, id), id).None?
    ensures other != id ==> GetTask(DeleteTask(tasks, id), other) == GetTask(tasks, other)
    decreases |tasks|
  {
    if tasks != [] {
      GetAfterDelete(tasks[1..], id, other);
      var rest := DeleteTask(tasks[1..], id);
      if other != id && tasks[0].id != id {
        var r := [tasks[0]] + rest;
        assert r[1..] == rest;
        if tasks[0].id != other {
          assert GetTask(r, other) == GetTask(rest, other) by {
            GetOfCons(tasks[0], rest, other);
          }
          GetOfCons(tasks[0], tasks[1..], other);
          assert tasks == [tasks[0]] + tasks[1..];
        }
      } else if other != id {
        GetOfCons(tasks[0], tasks[1..], other);
        assert tasks == [tasks[0]] + tasks[1..];
      }
    }
  }

  /** Looking up in `[t] + rest` checks `t` first. */
  lemma {:induction false} GetOfCons(t: Task, rest: seq<Task>, id: string)
    ensures GetTask([t] + rest, id) == if t.id == id then Some(t) else GetTask(rest, id)
  {
    var s := [t] + rest;
    assert s[0] == t && s[1..] == rest;
  }

  // ---------------------------------------------------------------- tree item labels

  /** `TaskItem.getDescription`: `completed/estimated 🍅`. */
  function Description(t: Task): (r: string)
    ensures |r| >= 5 && r[|r| - 2..] == " \U{1F345}"
  {
    NumberToString(t.completedPomodoros) + "/" + NumberToString(t.estimatedPomodoros) + " \U{1F345}"
  }

  /**
   * The description carries both counts: `parseInt` of the text before the
   * slash gives the completed count and `parseInt` of the text after it the
   * estimate.
   */
  lemma {:induction false} DescriptionReadsBack(t: Task)
    ensures var d := Description(t);
      var k := |NumberToString(t.completedPomodoros)|;
      k < |d| && d[k] == '/' &&
      ParseIntIn(d, 0, k) == Some(t.completedPomodoros) &&
      ParseIntIn(d, k + 1, |d|) == Some(t.estimatedPomodoros)
  {
    var c := NumberToString(t.completedPomodoros);
    var e := NumberToString(t.estimatedPomodoros);
    var d := Description(t);
    var k := |c|;
    assert d == c + "/" + e + " \U{1F345}";
    assert d[0..k] == c;
    ParseIntOfNumberIn(d, 0, k, t.completedPomodoros);
    assert d[k + 1..k + 1 + |e|] == e;
    assert d[k + 1 + |e|] == ' ';
    ParseIntOfNumberIn(d, k + 1, |d|, t.estimatedPomodoros);
  }

  datatype ThemeIcon = ThemeIcon(icon: string, color: string)

  /** `TaskItem.getIcon`. */
  function Icon(t: Task): (r: ThemeIcon)
    ensures r.icon == "check-all" <==> t.isCompleted
    ensures r.icon == "clock" <==> !t.isCompleted && t.completedPomodoros > 0
    ensures r.icon == "circle-outline" <==> !t.isCompleted && t.completedPomodoros <= 0
  {
    if t.isCompleted then ThemeIcon("check-all", "charts.green")
    else if t.completedPomodoros > 0 then ThemeIcon("clock", "charts.yellow")
    else ThemeIcon("circle-outline", "charts.blue")
  }
}
