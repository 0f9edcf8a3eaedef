/**
 * The side panel's host (src/pomodoroWebviewProvider.ts): how each message
 * from the panel is handled, and what is posted back. The host owns the
 * timer, the task list and the configuration; the panel's messages and the
 * timer's update events are its inputs, and the posts are its outputs.
 *
 * `TaskService.createTaskFromName` is not defined in taskService.ts; the
 * store change it makes is a parameter.
 */
module WebviewProvider {
  import opened Wrappers
  import opened JsText
  import opened Types
  import opened Settings
  import opened TaskProvider
  import opened PomodoroTimer

  /** The messages the panel sends, by their `command`. */
  datatype Message =
    | StartPomodoroMsg(taskId: Option<string>)   // the task list's play button adds a `taskId`
    | PausePomodoroMsg
    | StopPomodoroMsg
    | UpdateSettingsMsg(settings: PanelSettings)
    | GetTasksMsg
    | AddTaskMsg(taskName: Option<string>)
    | CompleteTaskMsg(completedId: string)   // no case handles it
    | OtherMsg(command: string)

  /** The messages the host posts to the panel. */
  datatype Post =
    | TimerUpdatePost(data: TimerStatus)
    | TasksUpdatePost(tasks: seq<Task>)
    | InitialDataPost(settings: PanelSettings, timerState: TimerStatus)

  datatype Host = Host(timer: Timer, tasks: seq<Task>, config: Config)

  /** The host after a message, the timer's effects, and the posts, in order. */
  datatype Reaction = Reaction(host: Host, effects: seq<Effect>, posts: seq<Post>)

  /** The `onTimerUpdate` listener: every update the timer fires is posted as `timerUpdate`. */
  function Forwarded(effects: seq<Effect>): (r: seq<Post>)
    ensures |r| <= |effects|
    ensures forall i :: 0 <= i < |r| ==> r[i].TimerUpdatePost?
    ensures forall i :: 0 <= i < |effects| && effects[i].TimerUpdate? ==> TimerUpdatePost(effects[i].status) in r
    ensures |effects| == 1 ==> r == if effects[0].TimerUpdate? then [TimerUpdatePost(effects[0].status)] else []
  {
    if effects == [] then []
    else (if effects[0].TimerUpdate? then [TimerUpdatePost(effects[0].status)] else []) + Forwarded(effects[1..])
  }

  /** Forwarding works effect by effect: one post per update, in the order the updates fired. */
  lemma {:induction false} ForwardedAppend(a: seq<Effect>, b: seq<Effect>)
    ensures Forwarded(a + b) == Forwarded(a) + Forwarded(b)
    decreases |a|
  {
    if a == [] {
      assert a + b == b;
    } else {
      assert (a + b)[0] == a[0] && (a + b)[1..] == a[1..] + b;
      ForwardedAppend(a[1..], b);
    }
  }

  const NoTasksWarning := "No hay tareas disponibles"

  /** `_addTask`'s guard: the trimmed name, when there is a name and it is not blank. */
  function NewTaskName(taskName: Option<string>): (r: Option<string>)
    ensures r.Some? <==> taskName.Some? && Trim(taskName.value) != []
    ensures r.Some? ==> r.value == Trim(taskName.value) && Trim(r.value) == r.value && r.value != []
  {
    if taskName.Some? && Trim(taskName.value) != [] then
      TrimIdempotent(taskName.value);
      Some(Trim(taskName.value))
    else None
  }

  /** The `startPomodoro` case: resume a paused timer, else start on the first task, else warn. */
  function StartFromPanel(h: Host): (r: Outcome)
    ensures h.timer.status.state == Paused ==> r == Resume(h.timer)
    ensures h.timer.status.state != Paused && h.tasks != [] ==> r == Start(h.timer, TimerConfigOf(h.config), h.tasks[0])
    ensures h.timer.status.state != Paused && h.tasks == [] ==> r == Outcome(h.timer, [Warning(NoTasksWarning)])
  {
    if h.timer.status.state == Paused then Resume(h.timer)
    else
      var available := GetAllTasks(h.tasks);
      if |available| > 0 then Start(h.timer, TimerConfigOf(h.config), available[0])
      else Outcome(h.timer, [Warning(NoTasksWarning)])
  }

  /**
   * `onDidReceiveMessage`. The timer reads its own configuration; updates
   * it fires reach the panel through the listener, and `startPomodoro`
   * posts the status once more itself.
   */
  function Dispatch(h: Host, msg: Message, createTaskFromName: (seq<Task>, string) -> seq<Task>): (r: Reaction)
    ensures msg.StartPomodoroMsg? ==>
      var o := StartFromPanel(h);
      r == Reaction(h.(timer := o.timer), o.effects, Forwarded(o.effects) + [TimerUpdatePost(o.timer.status)])
    ensures msg.PausePomodoroMsg? ==>
      var o := Pause(h.timer); r == Reaction(h.(timer := o.timer), o.effects, Forwarded(o.effects))
    ensures msg.StopPomodoroMsg? ==>
      var o := Stop(h.timer); r == Reaction(h.(timer := o.timer), o.effects, Forwarded(o.effects))
    ensures msg.UpdateSettingsMsg? ==> r == Reaction(h.(config := WriteSettings(h.config, msg.settings)), [], [])
    ensures msg.GetTasksMsg? ==> r == Reaction(h, [], [TasksUpdatePost(h.tasks)])
    ensures msg.AddTaskMsg? ==>
      var name := NewTaskName(msg.taskName);
      (name.None? ==> r == Reaction(h, [], []))
      && (name.Some? ==> r.host == h.(tasks := createTaskFromName(h.tasks, name.value)) && r.posts == [TasksUpdatePost(r.host.tasks)])
    ensures msg.CompleteTaskMsg? || msg.OtherMsg? ==> r == Reaction(h, [], [])
    ensures r.host.tasks != h.tasks ==> msg.AddTaskMsg?
  {
    match msg
    case StartPomodoroMsg(_) =>
      var o := StartFromPanel(h);
      Reaction(h.(timer := o.timer), o.effects, Forwarded(o.effects) + [TimerUpdatePost(o.timer.status)])
    case PausePomodoroMsg =>
      var o := Pause(h.timer);
      Reaction(h.(timer := o.timer), o.effects, Forwarded(o.effects))
    case StopPomodoroMsg =>
      var o := Stop(h.timer);
      Reaction(h.(timer := o.timer), o.effects, Forwarded(o.effects))
    case UpdateSettingsMsg(s) => Reaction(h.(config := WriteSettings(h.config, s)), [], [])
    case GetTasksMsg => Reaction(h, [], [TasksUpdatePost(GetAllTasks(h.tasks))])
    case AddTaskMsg(taskName) =>
      var name := NewTaskName(taskName);
      if name.None? then Reaction(h, [], [])
      else
        var tasks := createTaskFromName(h.tasks, name.value);
        Reaction(h.(tasks := tasks), [], [TasksUpdatePost(GetAllTasks(tasks))])
    case CompleteTaskMsg(_) => Reaction(h, [], [])
    case OtherMsg(_) => Reaction(h, [], [])
  }

  /** `_sendInitialData`: the panel's settings, read under the panel's keys, and the timer's status. */
  function InitialData(h: Host): (r: Post)
    ensures r.InitialDataPost? && r.settings == ReadSettings(h.config) && r.timerState == h.timer.status
  {
    InitialDataPost(ReadSettings(h.config), h.timer.status)
  }

  // ---------------------------------------------------------------- properties

  /** Start on a paused timer resumes it: the same session goes on, with no new task and no warning. */
  lemma {:induction false} StartResumesWhenPaused(h: Host, id: Option<string>, create: (seq<Task>, string) -> seq<Task>)
    requires h.timer.status.state == Paused
    ensures var r := Dispatch(h, StartPomodoroMsg(id), create);
      r.host.timer.status == h.timer.status.(state := Running)
      && r.effects == [Info("Pomodoro reanudado")]
      && r.posts == [TimerUpdatePost(r.host.timer.status)]
  {
  }

  /** Start on an idle timer works on the first task of the list, whichever task's button sent it. */
  lemma {:induction false} StartTakesFirstTask(h: Host, id: Option<string>, create: (seq<Task>, string) -> seq<Task>)
    requires h.timer.status.state == Idle && h.tasks != []
    ensures var r := Dispatch(h, StartPomodoroMsg(id), create);
      r.host.timer.status.currentTask == Some(h.tasks[0]) && r.host.timer.status.state == Running
      && r.host.timer.status.sessionType == Work
      && r.posts == [TimerUpdatePost(r.host.timer.status)]
  {
  }

  /** Start with no task only warns: the timer is as it was, and its status is still posted. */
  lemma {:induction false} StartWithoutTasks(h: Host, id: Option<string>, create: (seq<Task>, string) -> seq<Task>)
    requires h.timer.status.state != Paused && h.tasks == []
    ensures var r := Dispatch(h, StartPomodoroMsg(id), create);
      r.host == h && r.effects == [Warning(NoTasksWarning)] && r.posts == [TimerUpdatePost(h.timer.status)]
  {
  }

  /** Every `startPomodoro` ends by posting the status the timer is left in. */
  lemma {:induction false} StartAlwaysPostsStatus(h: Host, id: Option<string>, create: (seq<Task>, string) -> seq<Task>)
    ensures var r := Dispatch(h, StartPomodoroMsg(id), create);
      r.posts != [] && r.posts[|r.posts| - 1] == TimerUpdatePost(r.host.timer.status)
  {
  }

  /** Settings sent by the panel come back unchanged in the next initial data. */
  lemma {:induction false} SettingsRoundTrip(h: Host, s: PanelSettings, create: (seq<Task>, string) -> seq<Task>)
    ensures InitialData(Dispatch(h, UpdateSettingsMsg(s), create).host).settings == s
  {
    ReadAfterWrite(h.config, s);
  }

  /** A blank name creates nothing and posts nothing; any other name is created trimmed. */
  lemma {:induction false} AddTaskTrims(h: Host, name: string, create: (seq<Task>, string) -> seq<Task>)
    ensures var r := Dispatch(h, AddTaskMsg(Some(name)), create);
      (Trim(name) == [] ==> r == Reaction(h, [], []))
      && (Trim(name) != [] ==> r.host.tasks == create(h.tasks, Trim(name)))
  {
  }
}
