/**
 * The decisions of the extension's commands (src/extension.ts): the pause
 * toggle, the showTimer dialog and what its buttons do, the task choice of
 * the start command, and what happens to the task list when the timer
 * reports a completed pomodoro.
 */
module Extension {
  import opened Wrappers
  import opened JsText
  import opened TimeText
  import opened Types
  import opened Settings
  import opened TaskProvider
  import opened TaskService
  import opened PomodoroTimer
  import opened TimerLaws

  const NoActivePomodoro := "No hay ning\U{FA}n pomodoro activo"
  const NoTasksYet := "No hay tareas disponibles. Crea una tarea primero."
  const StartAction := "Iniciar Pomodoro"
  const PauseAction := "Pausar"
  const ResumeAction := "Reanudar"
  const StopAction := "Detener"

  // ---------------------------------------------------------------- pause toggle

  /** `pomodoroTasks.pausePomodoro`: pause when running, resume when paused, otherwise only a message. */
  function PauseToggle(t: Timer): (r: Outcome)
    ensures t.status.state == Running ==> r == Pause(t)
    ensures t.status.state == Paused ==> r == Resume(t)
    ensures t.status.state == Idle ==> r == Outcome(t, [Info(NoActivePomodoro)])
  {
    match t.status.state
    case Running => Pause(t)
    case Paused => Resume(t)
    case Idle => Outcome(t, [Info(NoActivePomodoro)])
  }

  /** Toggling twice from running or paused gives back the status it started from. */
  lemma {:induction false} PauseToggleTwice(t: Timer)
    requires t.status.state != Idle
    ensures PauseToggle(PauseToggle(t).timer).timer.status == t.status
    ensures PauseToggle(PauseToggle(t).timer).timer.sessions == t.sessions
  {
  }

  // ---------------------------------------------------------------- showTimer

  /** A message with buttons. */
  datatype Dialog = Dialog(message: string, actions: seq<string>)

  /** The showTimer text before the clock: the session kind, the task, and the clock's caption. */
  function SummaryHead(s: TimerStatus): string
  {
    SessionLabel(s.sessionType) + ": " + TaskLabel(s.currentTask) + "\nTiempo restante: "
  }

  /** The showTimer text after the clock: the count of completed pomodoros. */
  function SummaryTail(s: TimerStatus): string
  {
    "\nPomodoros completados: " + NumberToString(s.completedPomodoros)
  }

  /** The text of the showTimer dialog for an active timer. */
  function TimerSummary(s: TimerStatus): (r: string)
    ensures |SummaryHead(s)| + |SummaryTail(s)| <= |r|
    ensures r[..|SummaryHead(s)|] == SummaryHead(s) && r[|r| - |SummaryTail(s)|..] == SummaryTail(s)
  {
    SummaryHead(s) + FormatTime(s.remainingTime) + SummaryTail(s)
  }

  /** `pomodoroTasks.showTimer`: only a start button when idle; otherwise pause or resume, then stop. */
  function ShowTimer(s: TimerStatus): (r: Dialog)
    ensures s.state == Idle <==> r.actions == [StartAction]
    ensures s.state == Running <==> r.actions == [PauseAction, StopAction]
    ensures s.state == Paused <==> r.actions == [ResumeAction, StopAction]
    ensures s.state != Idle ==> r.message == TimerSummary(s)
  {
    if s.state == Idle then Dialog("No hay pomodoro activo", [StartAction])
    else Dialog(TimerSummary(s), [if s.state == Running then PauseAction else ResumeAction, StopAction])
  }

  /** The command a showTimer button runs. */
  datatype Command = RunStart | RunPauseToggle | RunStop

  /** What the answer to the showTimer dialog does; a dismissal, or a button from the other branch, does nothing. */
  function ShowTimerAnswer(s: TimerStatus, selection: Option<string>): (r: Option<Command>)
    ensures s.state == Idle ==> (r.Some? <==> selection == Some(StartAction)) && (r.Some? ==> r.value == RunStart)
    ensures s.state != Idle ==> (r == Some(RunStop) <==> selection == Some(StopAction))
    ensures s.state != Idle ==> (r == Some(RunPauseToggle) <==> selection in {Some(PauseAction), Some(ResumeAction)})
    ensures s.state != Idle ==> r != Some(RunStart)
  {
    if s.state == Idle then
      if selection == Some(StartAction) then Some(RunStart) else None
    else if selection == Some(PauseAction) || selection == Some(ResumeAction) then Some(RunPauseToggle)
    else if selection == Some(StopAction) then Some(RunStop)
    else None
  }

  /** Every button the dialog offers runs a command, and the first one of an active timer flips running and paused. */
  lemma {:induction false} OfferedButtonsAct(t: Timer, i: nat)
    requires i < |ShowTimer(t.status).actions|
    ensures ShowTimerAnswer(t.status, Some(ShowTimer(t.status).actions[i])).Some?
    ensures t.status.state != Idle && i == 0 ==>
      ShowTimerAnswer(t.status, Some(ShowTimer(t.status).actions[i])) == Some(RunPauseToggle)
      && PauseToggle(t).timer.status.state == (if t.status.state == Running then Paused else Running)
  {
  }

  /** The clock in the dialog is the status bar's clock, and it reads back as the remaining seconds. */
  lemma {:induction false} ShowTimerClock(s: TimerStatus)
    requires s.state != Idle && s.remainingTime >= 0
    ensures var m := ShowTimer(s).message;
      var k := |SummaryHead(s)|;
      k + |FormatTime(s.remainingTime)| <= |m|
      && m[k..k + |FormatTime(s.remainingTime)|] == FormatTime(s.remainingTime)
      && ReadClock(m[k..k + |FormatTime(s.remainingTime)|]) == Some(s.remainingTime)
  {
    MiddleOfThree(SummaryHead(s), FormatTime(s.remainingTime), SummaryTail(s));
    FormatTimeReadsBack(s.remainingTime);
  }

  // ---------------------------------------------------------------- start command

  /** The tasks the start command offers: the ones not completed, in store order. */
  function Candidates(tasks: seq<Task>): (r: seq<Task>)
    ensures |r| <= |tasks|
    ensures forall i :: 0 <= i < |r| ==> !r[i].isCompleted && r[i] in tasks
    ensures forall t :: t in tasks && !t.isCompleted ==> t in r
    ensures |tasks| == 1 ==> r == if tasks[0].isCompleted then [] else tasks
  {
    if tasks == [] then []
    else if tasks[0].isCompleted then Candidates(tasks[1..])
    else [tasks[0]] + Candidates(tasks[1..])
  }

  /** The filter works piece by piece, so the offered tasks keep the store's order and repeats. */
  lemma {:induction false} CandidatesAppend(a: seq<Task>, b: seq<Task>)
    ensures Candidates(a + b) == Candidates(a) + Candidates(b)
    decreases |a|
  {
    if a == [] {
      assert a + b == b;
    } else {
      assert (a + b)[0] == a[0] && (a + b)[1..] == a[1..] + b;
      CandidatesAppend(a[1..], b);
    }
  }

  /** A quick-pick entry (its `label` is the name): the name, `completed/estimated pomodoros`, and the task. */
  datatype PickItem = PickItem(name: string, description: string, task: Task)

  /** The entries of the start command's quick pick. */
  function PickItems(tasks: seq<Task>): (r: seq<PickItem>)
    ensures |r| == |tasks|
    ensures forall i :: 0 <= i < |r| ==> r[i].task == tasks[i] && r[i].name == tasks[i].name
  {
    seq(|tasks|, i requires 0 <= i < |tasks| =>
      PickItem(tasks[i].name,
               NumberToString(tasks[i].completedPomodoros) + "/" + NumberToString(tasks[i].estimatedPomodoros) + " pomodoros",
               tasks[i]))
  }

  /**
   * `pomodoroTasks.startPomodoro`. With a tree item its task starts;
   * otherwise the user picks among the tasks not completed (`picked` is the
   * index of the entry chosen, `None` when the pick is dismissed), and with no
   * such task only a message is shown.
   */
  function StartCommand(t: Timer, cfg: TimerConfig, tasks: seq<Task>, item: Option<Task>, picked: Option<nat>): (r: Outcome)
    ensures item.Some? ==> r == Start(t, cfg, item.value)
    ensures item.None? && Candidates(tasks) == [] ==> r == Outcome(t, [Info(NoTasksYet)])
    ensures item.None? && t.status.state != Running && r.timer.status.state == Running ==>
      r.timer.status.currentTask.Some? && !r.timer.status.currentTask.value.isCompleted
      && r.timer.status.currentTask.value in tasks
    ensures item.None? && picked.Some? && picked.value < |Candidates(tasks)| ==>
      r == Start(t, cfg, Candidates(tasks)[picked.value])
    ensures item.None? && Candidates(tasks) != [] && (picked.None? || picked.value >= |Candidates(tasks)|) ==>
      r == Outcome(t, [])
    ensures r.timer.status.completedPomodoros == t.status.completedPomodoros && r.timer.sessions == t.sessions
  {
    if item.Some? then Start(t, cfg, item.value)
    else
      var candidates := Candidates(tasks);
      if candidates == [] then Outcome(t, [Info(NoTasksYet)])
      else if picked.Some? && picked.value < |candidates| then Start(t, cfg, candidates[picked.value])
      else Outcome(t, [])
  }

  /** The start command without an item starts nothing exactly when every task is completed or the pick is dismissed. */
  lemma {:induction false} StartCommandNeedsOpenTask(t: Timer, cfg: TimerConfig, tasks: seq<Task>, picked: Option<nat>)
    requires t.status.state != Running
    ensures StartCommand(t, cfg, tasks, None, picked).timer.status.state == Running <==>
      (exists i :: 0 <= i < |tasks| && !tasks[i].isCompleted) && picked.Some? && picked.value < |Candidates(tasks)|
  {
    if exists i :: 0 <= i < |tasks| && !tasks[i].isCompleted {
      var i :| 0 <= i < |tasks| && !tasks[i].isCompleted;
      assert tasks[i] in Candidates(tasks);
    }
  }

  // ---------------------------------------------------------------- completed pomodoros

  /** What the extension shows or sends besides changing the store. */
  datatype Notice = ShowInfo(text: string) | PostTasks(tasks: seq<Task>)

  datatype Handled = Handled(tasks: seq<Task>, notices: seq<Notice>)

  /** The `onPomodoroComplete` listener: count the pomodoro on the task, refresh the panel's list, congratulate. */
  function OnPomodoroComplete(tasks: seq<Task>, task: Task): (r: Handled)
    ensures r.tasks == IncrementPomodoroCount(tasks, task.id)
    ensures |r.notices| == 2 && r.notices[0] == PostTasks(r.tasks) && r.notices[1].ShowInfo?
  {
    var updated := IncrementPomodoroCount(tasks, task.id);
    Handled(updated, [PostTasks(GetAllTasks(updated)),
                      ShowInfo("\U{A1}Pomodoro completado para \"" + task.name + "\"! \U{1F389}")])
  }

  /** The task list after the listeners have seen a sequence of timer effects. */
  function Deliver(tasks: seq<Task>, effects: seq<Effect>): (r: seq<Task>)
    ensures |r| == |tasks|
    decreases |effects|
  {
    if effects == [] then tasks
    else
      var next := if effects[0].PomodoroComplete? then OnPomodoroComplete(tasks, effects[0].task).tasks else tasks;
      Deliver(next, effects[1..])
  }

  /** No effect of the sequence reports a completed pomodoro. */
  predicate NoCompletion(effects: seq<Effect>)
  {
    forall i :: 0 <= i < |effects| ==> !effects[i].PomodoroComplete?
  }

  /** Effects that report no completion leave the task list alone. */
  lemma {:induction false} DeliverNothing(tasks: seq<Task>, effects: seq<Effect>)
    requires NoCompletion(effects)
    ensures Deliver(tasks, effects) == tasks
    decreases |effects|
  {
    if effects != [] {
      DeliverNothing(tasks, effects[1..]);
    }
  }

  /** A completion followed by effects that report none counts one pomodoro on that task. */
  lemma {:induction false} DeliverOne(tasks: seq<Task>, task: Task, rest: seq<Effect>)
    requires NoCompletion(rest)
    ensures Deliver(tasks, [PomodoroComplete(task)] + rest) == IncrementPomodoroCount(tasks, task.id)
  {
    var e := [PomodoroComplete(task)] + rest;
    assert e[1..] == rest;
    DeliverNothing(IncrementPomodoroCount(tasks, task.id), rest);
  }

  /**
   * The last second of a work session on a task: the listeners count exactly
   * one pomodoro on that task, so the store's total rises by one when the
   * task is still in it.
   */
  lemma {:induction false} CompletionCountedOnce(t: Timer, cfg: TimerConfig, now: int, tasks: seq<Task>)
    requires Ticking(t) && t.status.remainingTime == 1 && t.status.sessionType == Work && t.status.currentTask.Some?
    ensures var task := t.status.currentTask.value;
      Deliver(tasks, Tick(t, cfg, now).effects) == IncrementPomodoroCount(tasks, task.id)
      && TotalCompleted(Deliver(tasks, Tick(t, cfg, now).effects)) ==
         TotalCompleted(tasks) + if FindIndex(tasks, task.id).Some? then 1 else 0
  {
    var task := t.status.currentTask.value;
    var effects := Tick(t, cfg, now).effects;
    WorkExpiryReportsOnce(t, cfg, now);
    var rest := effects[1..];
    assert effects == [PomodoroComplete(task)] + rest;
    assert NoCompletion(rest);
    DeliverOne(tasks, task, rest);
    IncrementRaisesTotal(tasks, task.id);
  }

  /** A firing that does not end the session reports no completion. */
  lemma {:induction false} CountdownCountsNothing(t: Timer, cfg: TimerConfig, now: int, tasks: seq<Task>)
    requires Ticking(t) && t.status.remainingTime > 1
    ensures Deliver(tasks, Tick(t, cfg, now).effects) == tasks
  {
    DeliverNothing(tasks, Tick(t, cfg, now).effects);
  }
}
