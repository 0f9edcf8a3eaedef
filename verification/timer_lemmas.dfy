/**
 * Properties of the pomodoro state machine that relate several steps: round
 * trips, the invariants every step keeps, the countdown, whole sessions from
 * start to break, and the runs that show where the source misbehaves.
 */
module TimerLaws {
  import opened Wrappers
  import opened Types
  import opened Settings
  import opened PomodoroTimer

  // ---------------------------------------------------------------- commands

  /** Pausing a running timer and resuming it gives back the same status, with an interval armed again. */
  lemma {:induction false} PauseResumeRoundTrip(t: Timer)
    requires t.status.state == Running && Quiet(t)
    ensures var u := Resume(Pause(t).timer).timer;
      u.status == t.status && u.sessions == t.sessions && u.armed && u.leaked == t.leaked
  {
  }

  /** A second pause, or a second resume, does nothing and shows nothing. */
  lemma {:induction false} PauseResumeIdempotent(t: Timer)
    ensures var p := Pause(t).timer; Pause(p) == Outcome(p, [])
    ensures var q := Resume(t).timer; Resume(q) == Outcome(q, [])
  {
  }

  /** Stopping right after a start ends where stopping at once would: a start changes nothing a stop keeps. */
  lemma {:induction false} StopUndoesStart(t: Timer, cfg: TimerConfig, task: Task)
    ensures Stop(Start(t, cfg, task).timer).timer.status == Stop(t).timer.status
    ensures Stop(Start(t, cfg, task).timer).timer.sessions == t.sessions
  {
  }

  /** No step clears an interval nobody refers to. */
  lemma {:induction false} LeaksStay(t: Timer, cfg: TimerConfig, step: Step)
    ensures Apply(t, cfg, step).timer.leaked >= t.leaked
    ensures ApplyFixed(t, cfg, step).timer.leaked >= t.leaked
  {
  }

  /** Every step keeps the timer quiet while idle or paused. */
  lemma {:induction false} ApplyKeepsQuiet(t: Timer, cfg: TimerConfig, step: Step)
    requires Quiet(t)
    ensures Quiet(Apply(t, cfg, step).timer)
    ensures Quiet(ApplyFixed(t, cfg, step).timer)
  {
    match step
    case TickStep(now) =>
      if Ticking(t) {
        var s := t.status.(remainingTime := t.status.remainingTime - 1);
        if s.remainingTime <= 0 {
          var t1 := t.(status := s, bar := BarFor(s));
          assert Quiet(Expire(t1, cfg, now).timer);
        }
      }
    case _ =>
  }

  /**
   * In a quiet timer, the only step that leaves an interval running
   * unreferenced is a "Iniciar Descanso" answer arriving while an interval is
   * armed. After the work-done prompt that happens when the user stopped and
   * started another pomodoro before answering (see `StopStartLateBreakLeaks`),
   * or paused and resumed and answered within the second before the re-armed
   * interval fires (see `LateBreakLeaks`).
   */
  lemma {:induction false} OnlyLateBreakLeaks(t: Timer, cfg: TimerConfig, step: Step)
    requires Quiet(t)
    ensures Apply(t, cfg, step).timer.leaked > t.leaked <==>
      (step == AnswerWork(Some(StartBreakChoice)) && t.armed)
  {
    match step
    case TickStep(now) =>
      if Ticking(t) {
        var s := t.status.(remainingTime := t.status.remainingTime - 1);
        if s.remainingTime <= 0 {
          var t1 := t.(status := s, bar := BarFor(s));
          assert Expire(t1, cfg, now).timer.leaked == t.leaked;
        }
      }
    case _ =>
  }

  /** With the corrected answers, a quiet timer never leaks an interval. */
  lemma {:induction false} FixedNeverLeaks(t: Timer, cfg: TimerConfig, step: Step)
    requires Quiet(t)
    ensures ApplyFixed(t, cfg, step).timer.leaked == t.leaked
  {
    OnlyLateBreakLeaks(t, cfg, step);
    LeaksStay(t, cfg, step);
  }

  /** Over a whole run, the count never drops and the log is only appended to. */
  lemma {:induction false} RunExtends(t: Timer, cfg: TimerConfig, steps: seq<Step>)
    ensures Extends(t, Run(t, cfg, steps).timer)
    decreases |steps|
  {
    if steps != [] {
      var o := Apply(t, cfg, steps[0]);
      RunExtends(o.timer, cfg, steps[1..]);
      var u := Run(o.timer, cfg, steps[1..]).timer;
      assert t.sessions <= o.timer.sessions <= u.sessions;
    }
  }

  /** A run of quiet-keeping steps keeps the timer quiet. */
  lemma {:induction false} RunKeepsQuiet(t: Timer, cfg: TimerConfig, steps: seq<Step>)
    requires Quiet(t)
    ensures Quiet(Run(t, cfg, steps).timer)
    decreases |steps|
  {
    if steps != [] {
      ApplyKeepsQuiet(t, cfg, steps[0]);
      RunKeepsQuiet(Apply(t, cfg, steps[0]).timer, cfg, steps[1..]);
    }
  }

  // ---------------------------------------------------------------- the countdown

  /** `n` firings of the interval. */
  function Ticks(n: nat, now: int): (r: seq<Step>)
    ensures |r| == n && forall i :: 0 <= i < n ==> r[i] == TickStep(now)
  {
    seq(n, _ => TickStep(now))
  }

  /** A run of firings after a first step, and one firing more. */
  lemma {:induction false} OneMoreTick(first: Step, n: nat, now: int)
    ensures [first] + Ticks(n + 1, now) == [first] + Ticks(n, now) + [TickStep(now)]
  {
    var a := [first] + Ticks(n + 1, now);
    var b := [first] + Ticks(n, now) + [TickStep(now)];
    assert |a| == |b|;
    forall i | 0 <= i < |a| ensures a[i] == b[i] {
      if i > 0 { assert a[i] == Ticks(n + 1, now)[i - 1]; }
    }
  }

  /** While more than `n` seconds remain, `n` firings take exactly `n` seconds off and change nothing else. */
  lemma {:induction false} Countdown(t: Timer, cfg: TimerConfig, n: nat, now: int)
    requires Ticking(t) && t.status.remainingTime > n
    ensures var u := Run(t, cfg, Ticks(n, now)).timer;
      u.status == t.status.(remainingTime := t.status.remainingTime - n)
      && u.sessions == t.sessions && u.armed == t.armed && u.leaked == t.leaked
    decreases n
  {
    if n > 0 {
      var steps := Ticks(n, now);
      assert steps[0] == TickStep(now);
      assert steps[1..] == Ticks(n - 1, now);
      var o := Tick(t, cfg, now);
      assert o.timer.status == t.status.(remainingTime := t.status.remainingTime - 1);
      Countdown(o.timer, cfg, n - 1, now);
    }
  }

  /** The expiry a last firing handles, when notifications are off: the break after a work session. */
  lemma {:induction false} WorkExpiresIntoBreak(t: Timer, cfg: TimerConfig, now: int)
    requires Ticking(t) && t.status.remainingTime == 1 && t.status.sessionType == Work && !cfg.notifications
    ensures var u := Tick(t, cfg, now).timer; var n := t.status.completedPomodoros + 1;
      var long := IsLongBreak(n, cfg.longBreakInterval);
      u.status == t.status.(
        remainingTime := (if long then cfg.longBreakDuration else cfg.shortBreakDuration) * 60,
        sessionType := if long then LongBreak else ShortBreak,
        completedPomodoros := n,
        state := Running)
      && u.sessions == t.sessions + (if t.status.currentTask.Some? then [WorkRecord(t.status.currentTask.value, now)] else [])
      && u.armed && u.leaked == t.leaked
  {
    var s := t.status.(remainingTime := 0);
    var t1 := t.(status := s, bar := BarFor(s));
    var t2 := Disarm(t1).(status := s.(completedPomodoros := s.completedPomodoros + 1));
    var logged := LogWork(t2, now);
    assert Expire(t1, cfg, now) == (var b := StartBreak(logged.timer, cfg); Outcome(b.timer, logged.effects + b.effects));
  }

  /** A one-minute work session on a fresh timer, 59 firings in: one second left, nothing else changed. */
  lemma {:induction false} LastSecond(saved: seq<PomodoroSession>, cfg: TimerConfig, task: Task, now: int)
    requires cfg.workDuration == 1
    ensures var u := Run(NewTimer(saved), cfg, [StartStep(task)] + Ticks(59, now)).timer;
      u.status == TimerStatus(Running, Some(task), 1, Work, 0) && u.sessions == saved && u.armed && u.leaked == 0
  {
    var t0 := NewTimer(saved);
    var steps := [StartStep(task)] + Ticks(59, now);
    var t1 := Start(t0, cfg, task).timer;
    assert steps[0] == StartStep(task) && steps[1..] == Ticks(59, now);
    Countdown(t1, cfg, 59, now);
  }

  /**
   * A one-minute work session on a fresh timer, notifications off: after 60
   * firings the first pomodoro is counted and logged, and a short break of the
   * configured length is running on the same task.
   */
  lemma {:induction false} FirstPomodoro(saved: seq<PomodoroSession>, cfg: TimerConfig, task: Task, now: int)
    requires cfg.workDuration == 1 && cfg.longBreakInterval == 4 && !cfg.notifications
    ensures var u := Run(NewTimer(saved), cfg, [StartStep(task)] + Ticks(60, now)).timer;
      u.status == TimerStatus(Running, Some(task), cfg.shortBreakDuration * 60, ShortBreak, 1)
      && u.sessions == saved + [WorkRecord(task, now)]
  {
    var t0 := NewTimer(saved);
    var first := [StartStep(task)] + Ticks(59, now);
    OneMoreTick(StartStep(task), 59, now);
    RunSplit(t0, cfg, first, [TickStep(now)]);
    LastSecond(saved, cfg, task, now);
    var t2 := Run(t0, cfg, first).timer;
    RunOneTick(t2, cfg, now);
    WorkExpiresIntoBreak(t2, cfg, now);
    LongBreakEvery(1, 4);
  }

  /** The fourth pomodoro is followed by the long break. */
  lemma {:induction false} FourthPomodoroLongBreak(t: Timer, cfg: TimerConfig, now: int)
    requires Ticking(t) && t.status.remainingTime == 1 && t.status.sessionType == Work
    requires t.status.completedPomodoros == 3 && cfg.longBreakInterval == 4 && !cfg.notifications
    ensures var u := Tick(t, cfg, now).timer;
      u.status.sessionType == LongBreak && u.status.remainingTime == cfg.longBreakDuration * 60
      && u.status.completedPomodoros == 4
  {
    WorkExpiresIntoBreak(t, cfg, now);
    LongBreakEvery(4, 4);
  }

  /** A firing that ends a work session on a task reports the completion first, and only once. */
  lemma {:induction false} WorkExpiryReportsOnce(t: Timer, cfg: TimerConfig, now: int)
    requires Ticking(t) && t.status.remainingTime == 1 && t.status.sessionType == Work && t.status.currentTask.Some?
    ensures var e := Tick(t, cfg, now).effects;
      e != [] && e[0] == PomodoroComplete(t.status.currentTask.value)
      && forall i :: 1 <= i < |e| ==> !e[i].PomodoroComplete?
  {
    var s := t.status.(remainingTime := 0);
    var e := Expire(t.(status := s, bar := BarFor(s)), cfg, now);
    assert Tick(t, cfg, now).effects == e.effects + [TimerUpdate(e.timer.status)];
  }

  /** Running one firing is that firing. */
  lemma {:induction false} RunOneTick(t: Timer, cfg: TimerConfig, now: int)
    requires Ticking(t)
    ensures Run(t, cfg, [TickStep(now)]).timer == Tick(t, cfg, now).timer
  {
    assert [TickStep(now)][1..] == [];
  }

  /** Running two runs one after the other is running their concatenation. */
  lemma {:induction false} RunSplit(t: Timer, cfg: TimerConfig, a: seq<Step>, b: seq<Step>)
    ensures Run(t, cfg, a + b).timer == Run(Run(t, cfg, a).timer, cfg, b).timer
    decreases |a|
  {
    if a == [] {
      assert a + b == b;
    } else {
      assert (a + b)[0] == a[0] && (a + b)[1..] == a[1..] + b;
      RunSplit(Apply(t, cfg, a[0]).timer, cfg, a[1..], b);
    }
  }

  // ---------------------------------------------------------------- the prompt window

  /**
   * The last second of a work session with notifications on: the pomodoro is
   * counted, the interval cleared, and the state left `Running` at zero while
   * the prompt waits.
   */
  lemma {:induction false} WorkExpiresIntoPrompt(t: Timer, cfg: TimerConfig, now: int)
    requires Ticking(t) && t.status.remainingTime == 1 && t.status.sessionType == Work && cfg.notifications
    ensures var u := Tick(t, cfg, now).timer;
      u.status == t.status.(remainingTime := 0, completedPomodoros := t.status.completedPomodoros + 1)
      && !u.armed && u.leaked == t.leaked
  {
  }

  /**
   * Pausing and resuming while the work-done prompt waits arms the interval
   * again at zero: the next firing takes the clock to -1 and counts the same
   * pomodoro a second time.
   */
  lemma {:induction false} PromptWindowGoesNegative(t: Timer, cfg: TimerConfig, now: int, later: int)
    requires t.status.state == Running && t.armed && t.status.remainingTime == 1 && t.status.sessionType == Work
    requires cfg.notifications
    ensures var a := Tick(t, cfg, now).timer;
      var b := Resume(Pause(a).timer).timer;
      Ticking(b)
      && var c := Tick(b, cfg, later).timer;
      c.status.remainingTime == -1 && c.status.state == Running
      && c.status.completedPomodoros == t.status.completedPomodoros + 2
  {
    WorkExpiresIntoPrompt(t, cfg, now);
    var a := Tick(t, cfg, now).timer;
    var b := Resume(Pause(a).timer).timer;
    assert b.status == a.status && b.armed;
  }

  /**
   * Finding: "Continuar" after a break is refused. The expired break leaves
   * the state `Running`, so `startPomodoro` warns that a pomodoro is running
   * and returns; the clock stays at zero with no interval to move it.
   */
  lemma {:induction false} ContinueRefused(t: Timer, cfg: TimerConfig, now: int)
    requires t.status.state == Running && t.armed && t.leaked == 0 && t.status.remainingTime == 1
    requires t.status.sessionType != Work && t.status.currentTask.Some? && cfg.notifications
    ensures var a := Tick(t, cfg, now).timer;
      var c := AnswerAfterBreak(a, cfg, Some(ContinueChoice));
      c.effects == [Warning(AlreadyRunning)]
      && c.timer.status == t.status.(remainingTime := 0) && !Ticking(c.timer)
  {
  }

  /** With the corrected answer, "Continuar" starts the next work session on the same task. */
  lemma {:induction false} ContinueStartsWorkFixed(t: Timer, cfg: TimerConfig, now: int)
    requires t.status.state == Running && t.armed && t.leaked == 0 && t.status.remainingTime == 1
    requires t.status.sessionType != Work && t.status.currentTask.Some? && cfg.notifications
    ensures var a := Tick(t, cfg, now).timer;
      var c := AnswerAfterBreakFixed(a, cfg, Some(ContinueChoice)).timer;
      c.status == TimerStatus(Running, t.status.currentTask, cfg.workDuration * 60, Work, t.status.completedPomodoros)
      && c.armed && c.leaked == 0
  {
  }

  /**
   * Finding: a late "Iniciar Descanso" orphans an interval. Stopping and
   * starting a new pomodoro while the work-done prompt waits arms an
   * interval; answering the old prompt then starts the break and arms a
   * second one over it. No timing is involved: the answer may come at any
   * point of the new work session. A stop clears only the second interval,
   * and the orphan's next firing on the idle timer counts a pomodoro nobody
   * worked.
   */
  lemma {:induction false} StopStartLateBreakLeaks(t: Timer, cfg: TimerConfig, task: Task, now: int, later: int)
    requires t.status.state == Running && t.armed && t.leaked == 0 && t.status.remainingTime == 1
    requires t.status.sessionType == Work && cfg.notifications
    ensures var a := Tick(t, cfg, now).timer;
      var b := Start(Stop(a).timer, cfg, task).timer;
      var c := AnswerAfterWork(b, cfg, Some(StartBreakChoice)).timer;
      c.status.state == Running && c.status.sessionType != Work && c.leaked == 1
      && var d := Stop(c).timer;
         d.status.state == Idle && Ticking(d)
         && Tick(d, cfg, later).timer.status.completedPomodoros == t.status.completedPomodoros + 2
  {
    WorkExpiresIntoPrompt(t, cfg, now);
  }

  /** With the corrected `startBreak`, the same stop, start and answer leave nothing ticking after the stop. */
  lemma {:induction false} StopStartLateBreakFixed(t: Timer, cfg: TimerConfig, task: Task, now: int)
    requires t.status.state == Running && t.armed && t.leaked == 0 && t.status.remainingTime == 1
    requires t.status.sessionType == Work && cfg.notifications
    ensures var a := Tick(t, cfg, now).timer;
      var b := Start(Stop(a).timer, cfg, task).timer;
      var c := AnswerAfterWorkFixed(b, cfg, Some(StartBreakChoice)).timer;
      c.status.state == Running && c.status.sessionType != Work && c.leaked == 0
      && var d := Stop(c).timer; d.status.state == Idle && !Ticking(d)
  {
    WorkExpiresIntoPrompt(t, cfg, now);
  }

  /**
   * The same leak by pausing and resuming while the prompt waits, which arms
   * an interval. The answer must come within the second before that interval
   * fires: its firing runs the expiry again, which clears the interval (see
   * `PromptWindowGoesNegative`). After a stop the orphan still fires, and on
   * the idle timer its next firing counts a pomodoro nobody worked.
   */
  lemma {:induction false} LateBreakLeaks(t: Timer, cfg: TimerConfig, now: int, later: int)
    requires t.status.state == Running && t.armed && t.leaked == 0 && t.status.remainingTime == 1
    requires t.status.sessionType == Work && cfg.notifications
    ensures var a := Tick(t, cfg, now).timer;
      var b := Resume(Pause(a).timer).timer;
      var d := Stop(AnswerAfterWork(b, cfg, Some(StartBreakChoice)).timer).timer;
      d.status.state == Idle && d.leaked == 1
      && Tick(d, cfg, later).timer.status.completedPomodoros == t.status.completedPomodoros + 2
  {
    WorkExpiresIntoPrompt(t, cfg, now);
    var a := Tick(t, cfg, now).timer;
    var b := Resume(Pause(a).timer).timer;
    assert b.armed && b.leaked == 0;
  }

  /** With the corrected `startBreak`, the same answers leave no interval behind after the stop. */
  lemma {:induction false} LateBreakFixed(t: Timer, cfg: TimerConfig, now: int)
    requires t.status.state == Running && t.armed && t.leaked == 0 && t.status.remainingTime == 1
    requires t.status.sessionType == Work && cfg.notifications
    ensures var a := Tick(t, cfg, now).timer;
      var b := Resume(Pause(a).timer).timer;
      var d := Stop(AnswerAfterWorkFixed(b, cfg, Some(StartBreakChoice)).timer).timer;
      d.status.state == Idle && !Ticking(d)
  {
    WorkExpiresIntoPrompt(t, cfg, now);
  }
}
