/**
 * The settings panel's own script (media/script.js): the mirror of the
 * timer it keeps, the clock text and label it draws, the buttons it shows,
 * the settings it adjusts, and the messages its keys and buttons send to the
 * host (module WebviewProvider). The DOM is left out; what each handler
 * writes into it is a value here.
 */
module WebviewScript {
  import opened Wrappers
  import opened JsText
  import opened TimeText
  import opened Types
  import opened Settings
  import opened TaskProvider
  import opened PomodoroTimer
  import opened WebviewProvider

  // ---------------------------------------------------------------- the mirror

  /** The script's `mode`: 'focus', 'shortBreak' or 'longBreak'. */
  datatype Mode = Focus | ShortBreakMode | LongBreakMode

  /** `timerState`, the script's copy of the timer; times are in seconds. */
  datatype Mirror = Mirror(
    isRunning: bool,
    isPaused: bool,
    timeRemaining: int,
    totalTime: int,
    mode: Mode,
    completedPomodoros: int)

  /** The mirror before any message: a 25-minute focus session, idle. */
  const InitialMirror := Mirror(false, false, 25 * 60, 25 * 60, Focus, 0)

  /** The seconds of the session already behind, as the progress ring reads them. */
  function Elapsed(m: Mirror): int
  {
    m.totalTime - m.timeRemaining
  }

  /** `data` of a `timerUpdate` post as the script sees it: the status after JSON, where the count may be absent. */
  datatype StatusData = StatusData(state: string, remainingTime: int, sessionType: string, completedPomodoros: Option<int>)

  /** A `TimerStatus` as it crosses to the panel: the enums become their string values. */
  function Wire(s: TimerStatus): StatusData
  {
    StatusData(StateName(s.state), s.remainingTime, SessionTypeName(s.sessionType), Some(s.completedPomodoros))
  }

  /** The mode for a `sessionType` string: anything that is neither 'work' nor 'shortBreak' is a long break. */
  function ModeOfName(sessionType: string): (r: Mode)
    ensures r == Focus <==> sessionType == "work"
    ensures r == ShortBreakMode <==> sessionType == "shortBreak"
    ensures r == LongBreakMode <==> sessionType !in {"work", "shortBreak"}
  {
    if sessionType == "work" then Focus
    else if sessionType == "shortBreak" then ShortBreakMode
    else LongBreakMode
  }

  /** Each session kind has its own mode, and no other kind shares it. */
  lemma {:induction false} ModeOfKinds(k: SessionType)
    ensures ModeOfName(SessionTypeName(k)) == (match k case Work => Focus case ShortBreak => ShortBreakMode case LongBreak => LongBreakMode)
  {
  }

  /**
   * The `timerUpdate` handler: the flags and the mode come from the status
   * strings, an absent count reads as 0, and the total is moved with the
   * remaining time so that the elapsed seconds stay what they were.
   */
  function OnTimerUpdate(m: Mirror, d: StatusData): (r: Mirror)
    ensures r.isRunning <==> d.state == "running"
    ensures r.isPaused <==> d.state == "paused"
    ensures !(r.isRunning && r.isPaused)
    ensures r.timeRemaining == d.remainingTime
    ensures Elapsed(r) == Elapsed(m)
    ensures r.mode == ModeOfName(d.sessionType)
    ensures d.completedPomodoros.Some? ==> r.completedPomodoros == d.completedPomodoros.value
    ensures d.completedPomodoros.None? ==> r.completedPomodoros == 0
  {
    Mirror(
      d.state == "running",
      d.state == "paused",
      d.remainingTime,
      d.remainingTime + (m.totalTime - m.timeRemaining),
      ModeOfName(d.sessionType),
      d.completedPomodoros.GetOr(0))
  }

  /** After an update from the timer, the mirror agrees with the timer's status in every field it keeps. */
  lemma {:induction false} MirrorOfStatus(m: Mirror, s: TimerStatus)
    ensures var r := OnTimerUpdate(m, Wire(s));
      (r.isRunning <==> s.state == Running) && (r.isPaused <==> s.state == Paused)
      && r.timeRemaining == s.remainingTime && r.completedPomodoros == s.completedPomodoros
      && r.mode == (match s.sessionType case Work => Focus case ShortBreak => ShortBreakMode case LongBreak => LongBreakMode)
  {
    ModeOfKinds(s.sessionType);
    StateNamesRoundTrip(s.state, "running");
    StateNamesRoundTrip(s.state, "paused");
    assert StateName(Running) == "running" && StateName(Paused) == "paused";
  }

  /** A sequence of updates, handled in order. */
  function Feed(m: Mirror, updates: seq<StatusData>): (r: Mirror)
    ensures |updates| == 1 ==> r == OnTimerUpdate(m, updates[0])
    decreases |updates|
  {
    if updates == [] then m else Feed(OnTimerUpdate(m, updates[0]), updates[1..])
  }

  /** However many updates arrive, the elapsed seconds the ring shows never change. */
  lemma {:induction false} FeedKeepsElapsed(m: Mirror, updates: seq<StatusData>)
    ensures Elapsed(Feed(m, updates)) == Elapsed(m)
    decreases |updates|
  {
    if updates != [] {
      FeedKeepsElapsed(OnTimerUpdate(m, updates[0]), updates[1..]);
    }
  }

  /**
   * As written, the panel's progress ring never leaves its start: from the
   * initial mirror, the total always equals the remaining time, whatever
   * the timer reports.
   */
  lemma {:induction false} RingNeverMoves(updates: seq<StatusData>)
    ensures Feed(InitialMirror, updates).totalTime == Feed(InitialMirror, updates).timeRemaining
  {
    FeedKeepsElapsed(InitialMirror, updates);
  }

  /** One tick of a 25-minute focus session leaves the total at 1499 seconds, not 1500. */
  lemma {:induction false} TickShrinksTotal()
    ensures OnTimerUpdate(InitialMirror.(isRunning := true), StatusData("running", 1499, "work", Some(0))).totalTime == 1499
  {
  }

  /** The update continues the session the mirror shows: same mode, not idle, and the clock has not gone up. */
  predicate SameSession(m: Mirror, d: StatusData)
  {
    (m.isRunning || m.isPaused) && d.state != "idle"
    && m.mode == ModeOfName(d.sessionType) && d.remainingTime <= m.timeRemaining
  }

  /** The update with the session's total kept, as the handler's comment means it: a new session starts a new total. */
  function OnTimerUpdateFixed(m: Mirror, d: StatusData): (r: Mirror)
    ensures r == OnTimerUpdate(m, d).(totalTime := r.totalTime)
    ensures SameSession(m, d) ==> r.totalTime == m.totalTime
    ensures !SameSession(m, d) ==> Elapsed(r) == 0
  {
    OnTimerUpdate(m, d).(totalTime := if SameSession(m, d) then m.totalTime else d.remainingTime)
  }

  /** With the total kept, each tick of a running session moves the ring on by one second. */
  lemma {:induction false} TickAdvancesRingFixed(m: Mirror, d: StatusData)
    requires m.isRunning && !m.isPaused && d.state == "running"
    requires m.mode == ModeOfName(d.sessionType) && d.remainingTime == m.timeRemaining - 1
    ensures OnTimerUpdateFixed(m, d).totalTime == m.totalTime
    ensures Elapsed(OnTimerUpdateFixed(m, d)) == Elapsed(m) + 1
  {
    assert SameSession(m, d);
  }

  // ---------------------------------------------------------------- drawing

  /** `updateTimerDisplay`'s clock text. */
  function Display(m: Mirror): (r: string)
    ensures m.timeRemaining >= 0 ==> ReadClock(r) == Some(m.timeRemaining)
  {
    if m.timeRemaining >= 0 then FormatTimeReadsBack(m.timeRemaining); FormatTime(m.timeRemaining)
    else FormatTime(m.timeRemaining)
  }

  /** `updateTimerDisplay`'s label for each mode. */
  function Label(mode: Mode): (r: string)
    ensures r == "FOCUS" <==> mode == Focus
    ensures r == "SHORT BREAK" <==> mode == ShortBreakMode
    ensures r == "LONG BREAK" <==> mode == LongBreakMode
  {
    match mode
    case Focus => "FOCUS"
    case ShortBreakMode => "SHORT BREAK"
    case LongBreakMode => "LONG BREAK"
  }

  /** What `updateControls` leaves visible: the start button and its text, the pause and stop buttons, the running animation. */
  datatype Controls = Controls(start: Option<string>, pauseShown: bool, stopShown: bool, spinning: bool)

  const RunningControls := Controls(None, true, true, true)
  const PausedControls := Controls(Some("RESUME"), false, true, false)
  const IdleControls := Controls(Some("START"), false, false, false)

  /** `updateControls`: running wins over paused, and paused over idle. */
  function ControlsOf(m: Mirror): (r: Controls)
    ensures r == RunningControls <==> m.isRunning && !m.isPaused
    ensures r == PausedControls <==> m.isPaused
    ensures r == IdleControls <==> !m.isRunning && !m.isPaused
    ensures r.start.Some? != r.pauseShown
  {
    if m.isRunning && !m.isPaused then RunningControls
    else if m.isPaused then PausedControls
    else IdleControls
  }

  /** After an update, the panel's clock, label, buttons and count are the timer's. */
  lemma {:induction false} PanelShowsStatus(m: Mirror, s: TimerStatus)
    ensures var r := OnTimerUpdate(m, Wire(s));
      ControlsOf(r) == (match s.state case Running => RunningControls case Paused => PausedControls case Idle => IdleControls)
      && Display(r) == FormatTime(s.remainingTime)
      && Label(r.mode) == (match s.sessionType case Work => "FOCUS" case ShortBreak => "SHORT BREAK" case LongBreak => "LONG BREAK")
      && r.completedPomodoros == s.completedPomodoros
  {
    MirrorOfStatus(m, s);
  }

  // ---------------------------------------------------------------- the panel

  /** The script's globals: the mirror, the settings it shows, and the task list. */
  datatype Panel = Panel(timer: Mirror, settings: PanelSettings, tasks: seq<Task>)

  const InitialPanel := Panel(InitialMirror, DefaultPanel, [])

  /**
   * `Object.assign(timerState, status)` with a host status: of the status's
   * fields only `completedPomodoros` is one the mirror reads; the rest land
   * under names the mirror never looks at.
   */
  function AssignStatus(m: Mirror, s: TimerStatus): (r: Mirror)
    ensures r.completedPomodoros == s.completedPomodoros
    ensures r.(completedPomodoros := m.completedPomodoros) == m
  {
    m.(completedPomodoros := s.completedPomodoros)
  }

  /** The `message` listener. */
  function Receive(p: Panel, post: Post): (r: Panel)
    ensures post.TasksUpdatePost? ==> r == p.(tasks := post.tasks)
    ensures post.TimerUpdatePost? ==> r == p.(timer := OnTimerUpdate(p.timer, Wire(post.data)))
    ensures post.InitialDataPost? ==>
      r.settings == post.settings && r.tasks == p.tasks && r.timer == AssignStatus(p.timer, post.timerState)
  {
    match post
    case InitialDataPost(s, status) => p.(settings := s, timer := AssignStatus(p.timer, status))
    case TimerUpdatePost(data) => p.(timer := OnTimerUpdate(p.timer, Wire(data)))
    case TasksUpdatePost(tasks) => p.(tasks := tasks)
  }

  /** The listener with the initial status read the way a `timerUpdate` is. */
  function ReceiveFixed(p: Panel, post: Post): (r: Panel)
    ensures !post.InitialDataPost? ==> r == Receive(p, post)
    ensures post.InitialDataPost? ==>
      r.settings == post.settings && r.tasks == p.tasks && r.timer == OnTimerUpdate(p.timer, Wire(post.timerState))
  {
    match post
    case InitialDataPost(s, status) => p.(settings := s, timer := OnTimerUpdate(p.timer, Wire(status)))
    case _ => Receive(p, post)
  }

  /** A panel opened on a timer paused at 10:00 shows the idle start button and the full 25 minutes. */
  lemma {:induction false} PausedTimerShownIdle(s: PanelSettings, task: Option<Task>)
    ensures var r := Receive(InitialPanel, InitialDataPost(s, TimerStatus(Paused, task, 600, Work, 2)));
      r.timer == InitialMirror.(completedPomodoros := 2)
      && ControlsOf(r.timer) == IdleControls && ReadClock(Display(r.timer)) == Some(25 * 60)
  {
  }

  /** With the fix, the panel opens showing whatever the timer's status is. */
  lemma {:induction false} InitialDataShownFixed(p: Panel, s: PanelSettings, status: TimerStatus)
    ensures var r := ReceiveFixed(p, InitialDataPost(s, status));
      ControlsOf(r.timer) == (match status.state case Running => RunningControls case Paused => PausedControls case Idle => IdleControls)
      && Display(r.timer) == FormatTime(status.remainingTime) && r.timer.completedPomodoros == status.completedPomodoros
      && r.settings == s
  {
    PanelShowsStatus(p.timer, status);
  }

  // ---------------------------------------------------------------- input

  /** `data-action` of a settings button. */
  datatype Action = Increase | Decrease | NoAction

  /** `adjustSetting` on one value: up to at most 60, down to at least 1. */
  function AdjustValue(v: int, action: Action): (r: int)
    ensures action == NoAction ==> r == v
    ensures action == Increase ==> r <= 60 && (v < 60 ==> r == v + 1) && (v >= 60 ==> r == 60)
    ensures action == Decrease ==> r >= 1 && (v > 1 ==> r == v - 1) && (v <= 1 ==> r == 1)
  {
    match action
    case Increase => if v + 1 < 60 then v + 1 else 60
    case Decrease => if v - 1 > 1 then v - 1 else 1
    case NoAction => v
  }

  /** Every button press in a row, on the same value. */
  function AdjustAll(v: int, actions: seq<Action>): (r: int)
    ensures |actions| == 1 ==> r == AdjustValue(v, actions[0])
    decreases |actions|
  {
    if actions == [] then v else AdjustAll(AdjustValue(v, actions[0]), actions[1..])
  }

  /** No sequence of presses takes a value out of 1 to 60 once it is in. */
  lemma {:induction false} AdjustStaysInRange(v: int, actions: seq<Action>)
    requires 1 <= v <= 60
    ensures 1 <= AdjustAll(v, actions) <= 60
    decreases |actions|
  {
    if actions != [] {
      AdjustStaysInRange(AdjustValue(v, actions[0]), actions[1..]);
    }
  }

  /** A press undone: up then down, or down then up, returns the value away from the ends of the range. */
  lemma {:induction false} AdjustUndo(v: int)
    ensures 1 <= v < 60 ==> AdjustValue(AdjustValue(v, Increase), Decrease) == v
    ensures 1 < v <= 60 ==> AdjustValue(AdjustValue(v, Decrease), Increase) == v
  {
  }

  /** `data-setting` of a settings button. */
  datatype SettingKey = FocusTimeKey | ShortBreakKey | LongBreakKey

  /** `adjustSetting`: the one value changed, and the four values sent to the host. */
  function AdjustSetting(s: PanelSettings, key: SettingKey, action: Action): (r: (PanelSettings, Message))
    ensures r.1 == UpdateSettingsMsg(r.0)
    ensures r.0.notifications == s.notifications
    ensures key == FocusTimeKey ==> r.0 == s.(focusTime := AdjustValue(s.focusTime, action))
    ensures key == ShortBreakKey ==> r.0 == s.(shortBreak := AdjustValue(s.shortBreak, action))
    ensures key == LongBreakKey ==> r.0 == s.(longBreak := AdjustValue(s.longBreak, action))
  {
    var t := match key
      case FocusTimeKey => s.(focusTime := AdjustValue(s.focusTime, action))
      case ShortBreakKey => s.(shortBreak := AdjustValue(s.shortBreak, action))
      case LongBreakKey => s.(longBreak := AdjustValue(s.longBreak, action));
    (t, UpdateSettingsMsg(t))
  }

  /** `updateNotificationsSetting`: the switch's state, sent with the three durations. */
  function ToggleNotifications(s: PanelSettings, checked: bool): (r: (PanelSettings, Message))
    ensures r.0 == s.(notifications := checked) && r.1 == UpdateSettingsMsg(r.0)
  {
    (s.(notifications := checked), UpdateSettingsMsg(s.(notifications := checked)))
  }

  /** An adjusted value reaches the host: the panel reads it back and the timer's next session uses it. */
  lemma {:induction false} AdjustReachesHost(h: Host, s: PanelSettings, key: SettingKey, action: Action, create: (seq<Task>, string) -> seq<Task>)
    ensures var (t, msg) := AdjustSetting(s, key, action);
      var c := Dispatch(h, msg, create).host.config;
      ReadSettings(c) == t && TimerConfigOf(c).workDuration == t.focusTime
      && TimerConfigOf(c).shortBreakDuration == t.shortBreak && TimerConfigOf(c).longBreakDuration == t.longBreak
  {
    var (t, msg) := AdjustSetting(s, key, action);
    ReadAfterWrite(h.config, t);
    PanelSwitchNotHeard(h.config, t);
  }

  /** The space key outside a text field: pause while running, otherwise start. */
  function SpaceKey(m: Mirror, inTextField: bool): (r: Option<Message>)
    ensures r.None? <==> inTextField
    ensures r.Some? ==> (r.value == PausePomodoroMsg <==> ControlsOf(m).pauseShown)
    ensures r.Some? && !ControlsOf(m).pauseShown ==> r.value == StartPomodoroMsg(None)
  {
    if inTextField then None
    else if m.isRunning && !m.isPaused then Some(PausePomodoroMsg)
    else Some(StartPomodoroMsg(None))
  }

  /** Space on a panel that mirrors the timer pauses a running timer, resumes a paused one, and starts an idle one. */
  lemma {:induction false} SpaceFollowsTimer(h: Host, m: Mirror, create: (seq<Task>, string) -> seq<Task>)
    ensures var key := SpaceKey(OnTimerUpdate(m, Wire(h.timer.status)), false);
      var r := Dispatch(h, key.value, create);
      (h.timer.status.state == Running ==> r.host.timer.status == h.timer.status.(state := Paused))
      && (h.timer.status.state == Paused ==> r.host.timer.status == h.timer.status.(state := Running))
      && (h.timer.status.state == Idle && h.tasks != [] ==>
            r.host.timer.status.state == Running && r.host.timer.status.currentTask == Some(h.tasks[0]))
  {
    MirrorOfStatus(m, h.timer.status);
  }

  /** `addTaskAction`: a name is sent only when something is left after trimming, and it is sent trimmed. */
  function AddTaskAction(input: string): (r: Option<Message>)
    ensures r.Some? <==> Trim(input) != []
    ensures r.Some? ==> r.value == AddTaskMsg(Some(Trim(input)))
  {
    var name := Trim(input);
    if name != [] then Some(AddTaskMsg(Some(name))) else None
  }

  /** The host creates exactly the name the panel sent: trimming it again changes nothing. */
  lemma {:induction false} AddTaskAgreesWithHost(h: Host, input: string, create: (seq<Task>, string) -> seq<Task>)
    ensures var msg := AddTaskAction(input);
      msg.Some? ==> Dispatch(h, msg.value, create).host.tasks == create(h.tasks, Trim(input))
  {
    TrimIdempotent(input);
  }

  /** `startTaskPomodoro`: the play button of one task. */
  function StartTaskMessage(taskId: string): (r: Message)
    ensures r.StartPomodoroMsg? && r.taskId == Some(taskId)
  {
    StartPomodoroMsg(Some(taskId))
  }

  /** `completeTask`: the complete button of one task. */
  function CompleteTaskMessage(taskId: string): (r: Message)
    ensures r.CompleteTaskMsg? && r.completedId == taskId
  {
    CompleteTaskMsg(taskId)
  }

  /** The play buttons of two tasks do the same: the host starts on the first task of the list. */
  lemma {:induction false} PlayButtonIgnoresTask(h: Host, a: string, b: string, create: (seq<Task>, string) -> seq<Task>)
    ensures Dispatch(h, StartTaskMessage(a), create) == Dispatch(h, StartTaskMessage(b), create)
    ensures Dispatch(h, StartTaskMessage(a), create) == Dispatch(h, StartPomodoroMsg(None), create)
  {
  }

  /** The complete button changes nothing: the host has no case for it. */
  lemma {:induction false} CompleteButtonIgnored(h: Host, id: string, create: (seq<Task>, string) -> seq<Task>)
    ensures Dispatch(h, CompleteTaskMessage(id), create) == Reaction(h, [], [])
  {
  }
}
