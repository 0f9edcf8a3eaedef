/**
 * The pomodoro state machine of src/pomodoroTimer.ts.
 *
 * A `Timer` is the status record, the session log and the bookkeeping of the
 * one-second interval: `armed` says the field `this.timer` holds a live
 * interval, and `leaked` counts intervals that are still firing although no
 * field refers to them any more (`startTimer` overwrites the handle without
 * clearing it). The status bar's text is stored too, because the source
 * refreshes it only at some steps and shows a stale clock at the others.
 *
 * Every operation returns the new timer and the effects it had, in order:
 * events fired, messages shown, the session log written, and prompts whose
 * answer arrives later as a separate step.
 */
module PomodoroTimer {
  import opened Wrappers
  import opened JsText
  import opened TimeText
  import opened Types
  import opened Settings

  /** The text and the tooltip of the status bar item. */
  datatype StatusBar = StatusBar(text: string, tooltip: string)

  datatype Timer = Timer(
    status: TimerStatus,
    sessions: seq<PomodoroSession>,
    armed: bool,
    leaked: nat,
    bar: StatusBar)

  datatype Effect =
    | TimerUpdate(status: TimerStatus)          // `onTimerUpdate` fired
    | PomodoroComplete(task: Task)              // `onPomodoroComplete` fired
    | SaveSessions(log: seq<PomodoroSession>)   // the log written to the global state
    | Info(message: string)
    | Warning(message: string)
    | Ask(message: string, choices: seq<string>) // a prompt; its answer is a later step

  datatype Outcome = Outcome(timer: Timer, effects: seq<Effect>)

  const AlreadyRunning := "Ya hay un pomodoro en ejecuci\U{F3}n"
  const WorkDoneQuestion := "\U{A1}Pomodoro completado! \U{1F345} Tiempo para un descanso."
  const BreakDoneQuestion := "\U{A1}Descanso terminado! \U{23F0} \U{BF}Listo para el siguiente pomodoro?"
  const StartBreakChoice := "Iniciar Descanso"
  const ContinueChoice := "Continuar"
  const StopChoice := "Detener"

  /** The length every work record claims, whatever the configured duration. */
  const RecordedMinutes := 25

  // ---------------------------------------------------------------- status bar

  const Tomato := "\U{1F345}"

  /** The session kind as the tooltip and the showTimer dialog name it. */
  function SessionLabel(k: SessionType): (r: string)
    ensures k == Work <==> r == "Trabajo"
    ensures k == LongBreak <==> r == "Descanso largo"
  {
    match k
    case Work => "Trabajo"
    case ShortBreak => "Descanso corto"
    case LongBreak => "Descanso largo"
  }

  /** `currentTask?.name || 'Sin tarea'`: an empty name counts as none. */
  function TaskLabel(task: Option<Task>): (r: string)
    ensures r != []
    ensures task.Some? && task.value.name != [] ==> r == task.value.name
  {
    if task.Some? && task.value.name != [] then task.value.name else "Sin tarea"
  }

  /** The status bar's icon for the session kind. */
  function SessionIcon(k: SessionType): (r: string)
    ensures k == Work <==> r == Tomato
    ensures k == ShortBreak <==> r == "\U{2615}"
  {
    match k
    case Work => Tomato
    case ShortBreak => "\U{2615}"
    case LongBreak => "\U{1F6CB}\U{FE0F}"
  }

  /**
   * `getTooltip`: a fixed text while idle; otherwise the session kind and
   * the task first, and the completed count last.
   */
  function Tooltip(s: TimerStatus): (r: string)
    ensures s.state == Idle ==> r == "No hay pomodoro activo"
    ensures s.state != Idle ==>
      var head := SessionLabel(s.sessionType) + ": " + TaskLabel(s.currentTask) + " ";
      var tail := "\nPomodoros completados: " + NumberToString(s.completedPomodoros);
      |head| + |tail| <= |r| && r[..|head|] == head && r[|r| - |tail|..] == tail
  {
    if s.state == Idle then "No hay pomodoro activo"
    else
      var head := SessionLabel(s.sessionType) + ": " + TaskLabel(s.currentTask) + " ";
      var mark := if s.state == Paused then "(Pausado)" else "";
      var tail := "\nPomodoros completados: " + NumberToString(s.completedPomodoros);
      PartsOfThree(head + mark + tail, head, mark, tail);
      head + mark + tail
  }

  const IdleBar := StatusBar(Tomato + " Pomodoro", "Haz clic para ver el temporizador")

  /** The mark after the clock: a pause sign while paused, nothing otherwise. */
  function PauseMark(s: TimerStatus): string
  {
    if s.state == Paused then "\U{23F8}\U{FE0F}" else ""
  }

  /** `updateStatusBar`: the session icon, the clock and a pause mark. */
  function BarFor(s: TimerStatus): (r: StatusBar)
    ensures s.state == Idle <==> r == IdleBar
    ensures s.state != Idle ==> r.tooltip == Tooltip(s)
  {
    if s.state == Idle then IdleBar
    else
      var icon := SessionIcon(s.sessionType);
      assert icon != Tomato + " Pomodoro";
      StatusBar(icon + " " + FormatTime(s.remainingTime) + " " + PauseMark(s), Tooltip(s))
  }

  /**
   * Outside idle the bar shows the session's icon, then the clock, which
   * reads back as the remaining seconds, then the pause mark exactly when
   * the timer is paused.
   */
  lemma {:induction false} BarShowsClock(s: TimerStatus)
    requires s.state != Idle && s.remainingTime >= 0
    ensures var text := BarFor(s).text;
      var head := SessionIcon(s.sessionType) + " ";
      var clock := FormatTime(s.remainingTime);
      |head| + |clock| <= |text| && text[..|head|] == head
      && ReadClock(text[|head|..|head| + |clock|]) == Some(s.remainingTime)
      && (text[|head| + |clock|..] == " \U{23F8}\U{FE0F}" <==> s.state == Paused)
  {
    var head := SessionIcon(s.sessionType) + " ";
    var clock := FormatTime(s.remainingTime);
    var rest := " " + PauseMark(s);
    var text := BarFor(s).text;
    BarText(s);
    PartsOfThree(text, head, clock, rest);
    FormatTimeReadsBack(s.remainingTime);
  }

  /** Outside idle the bar's text is its icon part, the clock and the pause part. */
  lemma {:induction false} BarText(s: TimerStatus)
    requires s.state != Idle
    ensures BarFor(s).text == (SessionIcon(s.sessionType) + " ") + FormatTime(s.remainingTime) + (" " + PauseMark(s))
  {
    var a, b, c, d := SessionIcon(s.sessionType) + " ", FormatTime(s.remainingTime), " ", PauseMark(s);
    assert a + b + c + d == a + b + (c + d);
  }

  /** The session kinds have distinct names and distinct icons. */
  lemma {:induction false} SessionNamesDistinct(a: SessionType, b: SessionType)
    requires a != b
    ensures SessionLabel(a) != SessionLabel(b) && SessionIcon(a) != SessionIcon(b)
  {
  }

  // ---------------------------------------------------------------- the interval

  /** Some interval is live, so ticks keep coming. */
  predicate Ticking(t: Timer)
  {
    t.armed || t.leaked > 0
  }

  /** `startTimer`: a new interval; one the handle referred to keeps firing unreferenced. */
  function Arm(t: Timer): (r: Timer)
    ensures r.armed && r.status == t.status && r.sessions == t.sessions && r.bar == t.bar
    ensures r.leaked == if t.armed then t.leaked + 1 else t.leaked
  {
    t.(armed := true, leaked := if t.armed then t.leaked + 1 else t.leaked)
  }

  /** `stopTimer`: clears the interval the handle refers to, if any. */
  function Disarm(t: Timer): (r: Timer)
    ensures !r.armed && r.leaked == t.leaked
    ensures r.status == t.status && r.sessions == t.sessions && r.bar == t.bar
  {
    t.(armed := false)
  }

  /** Only the interval of the current session runs: none while idle or paused. */
  predicate Quiet(t: Timer)
  {
    t.status.state != Running ==> !t.armed
  }

  // ---------------------------------------------------------------- construction

  /** The constructor: idle, nothing completed, the saved log loaded, the idle bar shown. */
  function NewTimer(saved: seq<PomodoroSession>): (t: Timer)
    ensures t.status.state == Idle && t.status.completedPomodoros == 0 && t.status.currentTask.None?
    ensures t.sessions == saved && !Ticking(t) && Quiet(t) && t.bar == IdleBar
  {
    Timer(TimerStatus(Idle, None, 0, Work, 0), saved, false, 0, IdleBar)
  }

  // ---------------------------------------------------------------- commands

  /** The body of `startPomodoro` past its guard. */
  function StartWork(t: Timer, cfg: TimerConfig, task: Task): (r: Outcome)
    ensures r.timer.status == TimerStatus(Running, Some(task), cfg.workDuration * 60, Work, t.status.completedPomodoros)
    ensures r.timer == Arm(t).(status := r.timer.status)
    ensures r.effects == [Info("Pomodoro iniciado para: " + task.name)]
  {
    var s := TimerStatus(Running, Some(task), cfg.workDuration * 60, Work, t.status.completedPomodoros);
    Outcome(Arm(t.(status := s)), [Info("Pomodoro iniciado para: " + task.name)])
  }

  /**
   * `startPomodoro`: refused with a warning while running; otherwise a work
   * session on `task`. Neither path fires an update or refreshes the bar.
   */
  function Start(t: Timer, cfg: TimerConfig, task: Task): (r: Outcome)
    ensures t.status.state == Running ==> r == Outcome(t, [Warning(AlreadyRunning)])
    ensures t.status.state != Running ==>
      r.timer.status.state == Running && r.timer.status.currentTask == Some(task)
      && r.timer.status.remainingTime == cfg.workDuration * 60 && r.timer.status.sessionType == Work
      && r.timer.armed && r.timer.bar == t.bar
    ensures r.timer.status.completedPomodoros == t.status.completedPomodoros && r.timer.sessions == t.sessions
    ensures forall i :: 0 <= i < |r.effects| ==> !r.effects[i].TimerUpdate?
  {
    if t.status.state == Running then Outcome(t, [Warning(AlreadyRunning)])
    else StartWork(t, cfg, task)
  }

  /** `pausePomodoro`: only a running timer pauses; everything but the state is kept. */
  function Pause(t: Timer): (r: Outcome)
    ensures t.status.state != Running ==> r == Outcome(t, [])
    ensures t.status.state == Running ==>
      r.timer.status == t.status.(state := Paused) && !r.timer.armed && r.timer.leaked == t.leaked
      && r.timer.sessions == t.sessions && r.timer.bar == BarFor(r.timer.status)
      && r.effects == [Info("Pomodoro pausado"), TimerUpdate(r.timer.status)]
  {
    if t.status.state == Running then
      var s := t.status.(state := Paused);
      Outcome(Disarm(t).(status := s, bar := BarFor(s)), [Info("Pomodoro pausado"), TimerUpdate(s)])
    else Outcome(t, [])
  }

  /** `resumePomodoro`: only a paused timer resumes; no update fires and the bar is not refreshed. */
  function Resume(t: Timer): (r: Outcome)
    ensures t.status.state != Paused ==> r == Outcome(t, [])
    ensures t.status.state == Paused ==>
      r.timer.status == t.status.(state := Running) && r.timer.armed
      && r.timer.sessions == t.sessions && r.timer.bar == t.bar
      && r.effects == [Info("Pomodoro reanudado")]
  {
    if t.status.state == Paused then
      Outcome(Arm(t.(status := t.status.(state := Running))), [Info("Pomodoro reanudado")])
    else Outcome(t, [])
  }

  /** `stopPomodoro`, from any state: idle, no task, zero time, work, the count kept. */
  function Stop(t: Timer): (r: Outcome)
    ensures r.timer.status == TimerStatus(Idle, None, 0, Work, t.status.completedPomodoros)
    ensures !r.timer.armed && r.timer.leaked == t.leaked && r.timer.sessions == t.sessions
    ensures r.timer.bar == IdleBar
    ensures r.effects == [TimerUpdate(r.timer.status), Info("Pomodoro detenido")]
  {
    var s := TimerStatus(Idle, None, 0, Work, t.status.completedPomodoros);
    Outcome(Disarm(t).(status := s, bar := BarFor(s)), [TimerUpdate(s), Info("Pomodoro detenido")])
  }

  // ---------------------------------------------------------------- breaks

  /**
   * A long break is due when the count is a multiple of the interval, by
   * JavaScript's `%`: with an interval of 0 the remainder is `NaN`, which
   * equals nothing, so the break is short.
   */
  predicate IsLongBreak(completed: int, interval: int)
  {
    interval != 0 && TruncRem(completed, interval) == 0
  }

  /** For a positive interval and a count that is not negative, the rule is plain divisibility. */
  lemma {:induction false} LongBreakEvery(completed: nat, interval: nat)
    requires interval > 0
    ensures IsLongBreak(completed, interval) <==> completed % interval == 0
    ensures IsLongBreak(interval, interval) && IsLongBreak(2 * interval, interval)
  {
    assert interval % interval == 0;
    assert (2 * interval) % interval == 0 by {
      assert 2 * interval == interval + interval;
    }
  }

  /** `startBreak`: the break the count calls for, running, with the task and the count kept. */
  function StartBreak(t: Timer, cfg: TimerConfig): (r: Outcome)
    ensures var long := IsLongBreak(t.status.completedPomodoros, cfg.longBreakInterval);
      r.timer.status == t.status.(
        state := Running,
        remainingTime := (if long then cfg.longBreakDuration else cfg.shortBreakDuration) * 60,
        sessionType := if long then LongBreak else ShortBreak)
    ensures r.timer == Arm(t).(status := r.timer.status)
    ensures |r.effects| == 1 && r.effects[0].Info?
  {
    var long := IsLongBreak(t.status.completedPomodoros, cfg.longBreakInterval);
    var minutes := if long then cfg.longBreakDuration else cfg.shortBreakDuration;
    var s := t.status.(state := Running, remainingTime := minutes * 60, sessionType := if long then LongBreak else ShortBreak);
    var kind := if long then "descanso largo" else "descanso corto";
    Outcome(Arm(t.(status := s)), [Info(kind + " iniciado (" + NumberToString(minutes) + " min)")])
  }

  // ---------------------------------------------------------------- expiry

  /** The record of a finished work session: stamped 25 minutes before `now`, ending at `now`. */
  function WorkRecord(task: Task, now: int): (r: PomodoroSession)
    ensures r.taskId == task.id && r.duration == RecordedMinutes && r.kind == Work && r.completed
    ensures r.endTime == Some(now) && now - r.startTime == RecordedMinutes * 60 * 1000
  {
    PomodoroSession(task.id, now - RecordedMinutes * 60 * 1000, Some(now), RecordedMinutes, Work, true)
  }

  /** What a work expiry logs: one record and the events, only when there is a task. */
  function LogWork(t: Timer, now: int): (r: Outcome)
    ensures r.timer.status == t.status && !r.timer.armed == !t.armed && r.timer.leaked == t.leaked && r.timer.bar == t.bar
    ensures t.status.currentTask.None? ==> r.timer.sessions == t.sessions && r.effects == []
    ensures t.status.currentTask.Some? ==>
      r.timer.sessions == t.sessions + [WorkRecord(t.status.currentTask.value, now)]
      && r.effects == [PomodoroComplete(t.status.currentTask.value), SaveSessions(r.timer.sessions)]
  {
    match t.status.currentTask
    case None => Outcome(t, [])
    case Some(task) =>
      var log := t.sessions + [WorkRecord(task, now)];
      Outcome(t.(sessions := log), [PomodoroComplete(task), SaveSessions(log)])
  }

  /**
   * `onTimerFinished`: the interval is cleared but the state is left as it
   * is. A work session counts one more pomodoro, logs it when there is a
   * task, then asks whether to take the break (or takes it when
   * notifications are off); a break asks whether to continue (or stops).
   */
  function Expire(t: Timer, cfg: TimerConfig, now: int): (r: Outcome)
    ensures t.status.sessionType == Work ==>
      r.timer.status.completedPomodoros == t.status.completedPomodoros + 1
      && r.timer.sessions == t.sessions + (if t.status.currentTask.Some? then [WorkRecord(t.status.currentTask.value, now)] else [])
      && (cfg.notifications ==> r.timer.status == t.status.(completedPomodoros := t.status.completedPomodoros + 1) && !r.timer.armed)
      && (!cfg.notifications ==> r.timer.status.state == Running && r.timer.status.sessionType != Work && r.timer.armed)
    ensures t.status.sessionType != Work ==>
      r.timer.status.completedPomodoros == t.status.completedPomodoros && r.timer.sessions == t.sessions
      && (cfg.notifications ==> r.timer.status == t.status && r.effects == [Ask(BreakDoneQuestion, [ContinueChoice, StopChoice])])
      && (!cfg.notifications ==> r.timer.status.state == Idle)
    ensures cfg.notifications ==> !r.timer.armed && r.effects != [] && r.effects[|r.effects| - 1].Ask?
    ensures t.status.sessionType == Work && cfg.notifications ==>
      r.effects[|r.effects| - 1] == Ask(WorkDoneQuestion, [StartBreakChoice, StopChoice])
    ensures t.status.sessionType != Work && !cfg.notifications ==> r == Stop(Disarm(t))
    ensures r.timer.leaked == t.leaked
    ensures t.status.sessionType == Work && t.status.currentTask.Some? ==>
      r.effects != [] && r.effects[0] == PomodoroComplete(t.status.currentTask.value)
      && forall i :: 1 <= i < |r.effects| ==> !r.effects[i].PomodoroComplete?
    ensures t.status.sessionType != Work || t.status.currentTask.None? ==>
      forall i :: 0 <= i < |r.effects| ==> !r.effects[i].PomodoroComplete?
  {
    var t1 := Disarm(t);
    if t.status.sessionType == Work then
      var t2 := t1.(status := t1.status.(completedPomodoros := t1.status.completedPomodoros + 1));
      var logged := LogWork(t2, now);
      if cfg.notifications then
        Outcome(logged.timer, logged.effects + [Ask(WorkDoneQuestion, [StartBreakChoice, StopChoice])])
      else
        var b := StartBreak(logged.timer, cfg);
        Outcome(b.timer, logged.effects + b.effects)
    else if cfg.notifications then
      Outcome(t1, [Ask(BreakDoneQuestion, [ContinueChoice, StopChoice])])
    else
      Stop(t1)
  }

  /**
   * One firing of an interval (`startTimer`'s callback): a second off the
   * clock whatever the state, the bar refreshed, the expiry handled once the
   * clock is at or below zero, and an update fired with the final status.
   */
  function Tick(t: Timer, cfg: TimerConfig, now: int): (r: Outcome)
    requires Ticking(t)
    ensures t.status.remainingTime > 1 ==>
      r.timer == t.(status := t.status.(remainingTime := t.status.remainingTime - 1), bar := r.timer.bar)
      && r.timer.bar == BarFor(r.timer.status)
      && r.effects == [TimerUpdate(r.timer.status)]
    ensures t.status.remainingTime <= 1 ==>
      var s := t.status.(remainingTime := t.status.remainingTime - 1);
      r == (var e := Expire(t.(status := s, bar := BarFor(s)), cfg, now);
            Outcome(e.timer, e.effects + [TimerUpdate(e.timer.status)]))
    ensures r.effects != [] && r.effects[|r.effects| - 1] == TimerUpdate(r.timer.status)
  {
    var s := t.status.(remainingTime := t.status.remainingTime - 1);
    var t1 := t.(status := s, bar := BarFor(s));
    if s.remainingTime <= 0 then
      var e := Expire(t1, cfg, now);
      Outcome(e.timer, e.effects + [TimerUpdate(e.timer.status)])
    else
      Outcome(t1, [TimerUpdate(s)])
  }

  // ---------------------------------------------------------------- prompt answers

  /** The answer to the work-done prompt: the break on "Iniciar Descanso", a stop otherwise (dismissal included). */
  function AnswerAfterWork(t: Timer, cfg: TimerConfig, choice: Option<string>): (r: Outcome)
    ensures choice == Some(StartBreakChoice) ==> r == StartBreak(t, cfg)
    ensures choice != Some(StartBreakChoice) ==> r == Stop(t)
  {
    if choice == Some(StartBreakChoice) then StartBreak(t, cfg) else Stop(t)
  }

  /** The answer to the break-done prompt: `startPomodoro` on the kept task on "Continuar", a stop otherwise. */
  function AnswerAfterBreak(t: Timer, cfg: TimerConfig, choice: Option<string>): (r: Outcome)
    ensures choice == Some(ContinueChoice) && t.status.currentTask.Some? ==> r == Start(t, cfg, t.status.currentTask.value)
    ensures choice == Some(ContinueChoice) && t.status.currentTask.None? ==> r == Outcome(t, [])
    ensures choice != Some(ContinueChoice) ==> r == Stop(t)
  {
    if choice == Some(ContinueChoice) then
      if t.status.currentTask.Some? then Start(t, cfg, t.status.currentTask.value) else Outcome(t, [])
    else Stop(t)
  }

  // ---------------------------------------------------------------- corrected answers

  /** `startBreak` that clears the interval the handle refers to before arming a new one. */
  function StartBreakFixed(t: Timer, cfg: TimerConfig): (r: Outcome)
    ensures r.timer.leaked == t.leaked && r.timer.armed
    ensures r.timer.status == StartBreak(t, cfg).timer.status && r.effects == StartBreak(t, cfg).effects
  {
    StartBreak(Disarm(t), cfg)
  }

  /** The work-done answer with the corrected `startBreak`. */
  function AnswerAfterWorkFixed(t: Timer, cfg: TimerConfig, choice: Option<string>): (r: Outcome)
    ensures choice == Some(StartBreakChoice) ==> r == StartBreakFixed(t, cfg)
    ensures choice != Some(StartBreakChoice) ==> r == Stop(t)
  {
    if choice == Some(StartBreakChoice) then StartBreakFixed(t, cfg) else Stop(t)
  }

  /**
   * The break-done answer that starts the next work session on "Continuar",
   * whatever state the expired break left behind.
   */
  function AnswerAfterBreakFixed(t: Timer, cfg: TimerConfig, choice: Option<string>): (r: Outcome)
    ensures choice == Some(ContinueChoice) && t.status.currentTask.Some? ==>
      r == StartWork(Disarm(t), cfg, t.status.currentTask.value)
    ensures choice == Some(ContinueChoice) && t.status.currentTask.None? ==> r == Outcome(t, [])
    ensures choice != Some(ContinueChoice) ==> r == Stop(t)
  {
    if choice == Some(ContinueChoice) then
      if t.status.currentTask.Some? then StartWork(Disarm(t), cfg, t.status.currentTask.value) else Outcome(t, [])
    else Stop(t)
  }

  // ---------------------------------------------------------------- runs

  /** What can happen to the timer: a command, an interval firing, or the answer to a prompt. */
  datatype Step =
    | StartStep(task: Task)
    | PauseStep
    | ResumeStep
    | StopStep
    | TickStep(now: int)
    | AnswerWork(choice: Option<string>)
    | AnswerBreak(choice: Option<string>)

  /** The count never drops and the log only grows at its end. */
  predicate Extends(t: Timer, u: Timer)
  {
    t.status.completedPomodoros <= u.status.completedPomodoros && t.sessions <= u.sessions
  }

  /** One step; an interval fires only while one is live. */
  function Apply(t: Timer, cfg: TimerConfig, step: Step): (r: Outcome)
    ensures Extends(t, r.timer)
    ensures step.TickStep? && !Ticking(t) ==> r == Outcome(t, [])
  {
    match step
    case StartStep(task) => Start(t, cfg, task)
    case PauseStep => Pause(t)
    case ResumeStep => Resume(t)
    case StopStep => Stop(t)
    case TickStep(now) => if Ticking(t) then Tick(t, cfg, now) else Outcome(t, [])
    case AnswerWork(choice) => AnswerAfterWork(t, cfg, choice)
    case AnswerBreak(choice) => AnswerAfterBreak(t, cfg, choice)
  }

  /** A sequence of steps, the effects concatenated in order. */
  function Run(t: Timer, cfg: TimerConfig, steps: seq<Step>): (r: Outcome)
    ensures steps == [] ==> r == Outcome(t, [])
    ensures |steps| == 1 ==> r == Apply(t, cfg, steps[0])
    decreases |steps|
  {
    if steps == [] then Outcome(t, [])
    else
      var o := Apply(t, cfg, steps[0]);
      var rest := Run(o.timer, cfg, steps[1..]);
      Outcome(rest.timer, o.effects + rest.effects)
  }

  /** One step with the corrected prompt answers. */
  function ApplyFixed(t: Timer, cfg: TimerConfig, step: Step): (r: Outcome)
    ensures Extends(t, r.timer)
    ensures !step.AnswerWork? && !step.AnswerBreak? ==> r == Apply(t, cfg, step)
  {
    match step
    case AnswerWork(choice) => AnswerAfterWorkFixed(t, cfg, choice)
    case AnswerBreak(choice) => AnswerAfterBreakFixed(t, cfg, choice)
    case _ => Apply(t, cfg, step)
  }
}
