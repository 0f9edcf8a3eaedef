/**
 * The store effects of the task commands in src/taskService.ts. The input
 * boxes and confirmation dialogs become the user's answers, passed in:
 * `None` is a dismissed box (`undefined`), `Some(text)` the text entered. The
 * new task's id (`generateId`, time and randomness) and the clock are
 * parameters too.
 */
module TaskService {
  import opened Wrappers
  import opened JsText
  import opened Types
  import opened TaskProvider

  const PositiveNumberError := "Debe ser un n\U{FA}mero positivo"

  /** The estimate box's `validateInput`: an error unless `parseInt` gives a number above 0. */
  function ValidateEstimate(value: string): (r: Option<string>)
    ensures r.None? <==> ParseInt(value).Some? && ParseInt(value).value > 0
    ensures r.Some? ==> r.value == PositiveNumberError
  {
    var n := ParseInt(value);
    if n.None? || n.value <= 0 then Some(PositiveNumberError) else None
  }

  /** What the estimate box can return: dismissed, or a value its validator accepted. */
  predicate AcceptedEstimate(answer: Option<string>)
  {
    answer.None? || ValidateEstimate(answer.value).None?
  }

  /**
   * The validator accepts exactly the positive integers among the numbers as
   * `toString` prints them, and rejects the empty box.
   */
  lemma {:induction false} ValidateEstimateOfNumber(n: int)
    ensures ValidateEstimate(NumberToString(n)).None? <==> n > 0
    ensures ValidateEstimate("").Some?
  {
    ParseIntOfNumberToString(n, []);
    assert NumberToString(n) + [] == NumberToString(n);
  }

  /** `parseInt` reads a leading number, so trailing text after a positive number is accepted. */
  lemma {:induction false} ValidateEstimateLenient()
    ensures ParseInt("3 pomodoros") == Some(3) && ValidateEstimate("3 pomodoros").None?
  {
    assert NumberToString(3) == "3";
    assert NumberToString(3) + " pomodoros" == "3 pomodoros";
    ParseIntOfNumberToString(3, " pomodoros");
  }

  /**
   * `createTask` given the three answers: an empty or dismissed name, or a
   * dismissed estimate, adds nothing; otherwise one new task is appended with
   * the entered name and description, the parsed estimate, no pomodoros done
   * and not completed.
   */
  function CreateTask(tasks: seq<Task>, name: Option<string>, description: Option<string>,
                      estimate: Option<string>, id: string, now: int): (r: seq<Task>)
    requires AcceptedEstimate(estimate)
    ensures name.None? || name == Some("") || estimate.None? ==> r == tasks
    ensures name.Some? && name != Some("") && estimate.Some? ==>
      |r| == |tasks| + 1 && r[..|tasks|] == tasks &&
      var t := r[|tasks|];
      t.id == id && t.name == name.value && t.description == description &&
      t.estimatedPomodoros >= 1 && Some(t.estimatedPomodoros) == ParseInt(estimate.value) &&
      t.completedPomodoros == 0 && !t.isCompleted && t.createdAt == now && t.completedAt.None? &&
      t.isBookmark.None? && t.filePath.None? && t.lineNumber.None?
  {
    if name.None? || name.value == "" || estimate.None? then tasks
    else
      var t := Task(id, name.value, description, ParseInt(estimate.value).value, 0, false, now, None, None, None, None);
      AddTask(tasks, t)
  }

  /** The update object of `editTask`: the description is always present, `undefined` when dismissed. */
  function EditPatch(name: string, description: Option<string>, estimate: int): (p: TaskPatch)
    ensures forall t :: ApplyPatch(t, p) == t.(name := name, description := description, estimatedPomodoros := estimate)
  {
    NoChange.(name := Some(name), description := Some(description), estimatedPomodoros := Some(estimate))
  }

  /**
   * `editTask` given the three answers: an empty or dismissed name, or a
   * dismissed estimate, changes nothing; otherwise the first task with the
   * edited task's id gets the new name, description and estimate and keeps
   * everything else. A dismissed description box clears the description.
   */
  function EditTask(tasks: seq<Task>, task: Task, name: Option<string>, description: Option<string>,
                    estimate: Option<string>): (r: seq<Task>)
    requires AcceptedEstimate(estimate)
    ensures |r| == |tasks|
    ensures name.None? || name == Some("") || estimate.None? || FindIndex(tasks, task.id).None? ==> r == tasks
    ensures name.Some? && name != Some("") && estimate.Some? && FindIndex(tasks, task.id).Some? ==>
      var i := FindIndex(tasks, task.id).value;
      r[i] == tasks[i].(name := name.value, description := description,
                        estimatedPomodoros := ParseInt(estimate.value).value) &&
      r[i].estimatedPomodoros >= 1 &&
      forall j :: 0 <= j < |tasks| && j != i ==> r[j] == tasks[j]
  {
    if name.None? || name.value == "" || estimate.None? then tasks
    else UpdateTask(tasks, task.id, EditPatch(name.value, description, ParseInt(estimate.value).value))
  }

  /** `deleteTask`: only the answer "Sí" deletes, and it deletes every task with the id. */
  function DeleteTaskConfirmed(tasks: seq<Task>, task: Task, response: Option<string>): (r: seq<Task>)
    ensures response != Some("S\U{ED}") ==> r == tasks
    ensures response == Some("S\U{ED}") ==> GetTask(r, task.id).None? && r == DeleteTask(tasks, task.id)
    ensures response == Some("S\U{ED}") ==> forall u :: u in tasks && u.id != task.id ==> u in r
  {
    if response == Some("S\U{ED}") then
      GetAfterDelete(tasks, task.id, task.id);
      DeleteTask(tasks, task.id)
    else tasks
  }

  /**
   * `completeTask`: only the answer "Sí" marks the first task with the id
   * completed, stamped with the current time; nothing else changes.
   */
  function CompleteTask(tasks: seq<Task>, task: Task, response: Option<string>, now: int): (r: seq<Task>)
    ensures |r| == |tasks|
    ensures response != Some("S\U{ED}") || FindIndex(tasks, task.id).None? ==> r == tasks
    ensures response == Some("S\U{ED}") && FindIndex(tasks, task.id).Some? ==>
      var i := FindIndex(tasks, task.id).value;
      r[i] == tasks[i].(isCompleted := true, completedAt := Some(now)) &&
      forall j :: 0 <= j < |tasks| && j != i ==> r[j] == tasks[j]
  {
    if response == Some("S\U{ED}") then
      UpdateTask(tasks, task.id, NoChange.(isCompleted := Some(true), completedAt := Some(Some(now))))
    else tasks
  }

  /**
   * `incrementPomodoroCount`: the first task with the id counts one more
   * pomodoro; no other property and no other task changes, and an unknown
   * id changes nothing.
   */
  function IncrementPomodoroCount(tasks: seq<Task>, id: string): (r: seq<Task>)
    ensures |r| == |tasks|
    ensures FindIndex(tasks, id).None? ==> r == tasks
    ensures FindIndex(tasks, id).Some? ==>
      var i := FindIndex(tasks, id).value;
      r[i] == tasks[i].(completedPomodoros := tasks[i].completedPomodoros + 1) &&
      forall j :: 0 <= j < |tasks| && j != i ==> r[j] == tasks[j]
  {
    match GetTask(tasks, id)
    case None => tasks
    case Some(t) => UpdateTask(tasks, id, NoChange.(completedPomodoros := Some(t.completedPomodoros + 1)))
  }

  /** The sum of the completed counts of a list of tasks. */
  function TotalCompleted(tasks: seq<Task>): (r: int)
    ensures (forall i :: 0 <= i < |tasks| ==> tasks[i].completedPomodoros >= 0) ==> r >= 0
  {
    if tasks == [] then 0 else tasks[0].completedPomodoros + TotalCompleted(tasks[1..])
  }

  /** Changing one task's count by `d` changes the total by `d`. */
  lemma {:induction false} TotalCompletedUpdate(tasks: seq<Task>, i: nat, t: Task)
    requires i < |tasks|
    ensures TotalCompleted(tasks[i := t]) == TotalCompleted(tasks) - tasks[i].completedPomodoros + t.completedPomodoros
    decreases |tasks|
  {
    if i > 0 {
      assert tasks[i := t][1..] == tasks[1..][i - 1 := t];
      TotalCompletedUpdate(tasks[1..], i - 1, t);
    } else {
      assert tasks[i := t][1..] == tasks[1..];
    }
  }

  /** An increment raises the store's total pomodoro count by one exactly when the id is present. */
  lemma {:induction false} IncrementRaisesTotal(tasks: seq<Task>, id: string)
    ensures TotalCompleted(IncrementPomodoroCount(tasks, id)) ==
      TotalCompleted(tasks) + if FindIndex(tasks, id).Some? then 1 else 0
  {
    var r := IncrementPomodoroCount(tasks, id);
    if FindIndex(tasks, id).Some? {
      var i := FindIndex(tasks, id).value;
      var t := tasks[i].(completedPomodoros := tasks[i].completedPomodoros + 1);
      assert r == tasks[i := t];
      TotalCompletedUpdate(tasks, i, t);
    }
  }
}
