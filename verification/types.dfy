/**
 * The records the extension passes around (src/types.ts). Dates are kept as
 * milliseconds since the epoch, the value `Date.now()` would give; optional
 * properties are `Option`s. The session kind is one type shared by the timer
 * status and the session log.
 */
module Types {
  import opened Wrappers

  datatype Task = Task(
    id: string,
    name: string,
    description: Option<string>,
    estimatedPomodoros: int,
    completedPomodoros: int,
    isCompleted: bool,
    createdAt: int,
    completedAt: Option<int>,
    isBookmark: Option<bool>,
    filePath: Option<string>,
    lineNumber: Option<int>)

  /** The kind of a session: `'work' | 'shortBreak' | 'longBreak'`. */
  datatype SessionType = Work | ShortBreak | LongBreak

  datatype TimerState = Idle | Running | Paused

  /** One entry of the session log; `duration` is in minutes. */
  datatype PomodoroSession = PomodoroSession(
    taskId: string,
    startTime: int,
    endTime: Option<int>,
    duration: int,
    kind: SessionType,
    completed: bool)

  /** What the timer reports; `remainingTime` is in seconds. */
  datatype TimerStatus = TimerStatus(
    state: TimerState,
    currentTask: Option<Task>,
    remainingTime: int,
    sessionType: SessionType,
    completedPomodoros: int)

  /** The string value of a `TimerState` member. */
  function StateName(s: TimerState): (r: string)
    ensures |r| >= 4
  {
    match s
    case Idle => "idle"
    case Running => "running"
    case Paused => "paused"
  }

  /** The `TimerState` whose string value is `t`, if any. */
  function ParseState(t: string): (r: Option<TimerState>)
    ensures r.Some? ==> StateName(r.value) == t
  {
    if t == "idle" then Some(Idle)
    else if t == "running" then Some(Running)
    else if t == "paused" then Some(Paused)
    else None
  }

  /** The string a session kind is written as. */
  function SessionTypeName(k: SessionType): (r: string)
    ensures |r| >= 4
  {
    match k
    case Work => "work"
    case ShortBreak => "shortBreak"
    case LongBreak => "longBreak"
  }

  /** The session kind written as `t`, if any. */
  function ParseSessionType(t: string): (r: Option<SessionType>)
    ensures r.Some? ==> SessionTypeName(r.value) == t
  {
    if t == "work" then Some(Work)
    else if t == "shortBreak" then Some(ShortBreak)
    else if t == "longBreak" then Some(LongBreak)
    else None
  }

  /** The three timer states have three distinct string values, and those are the only ones that parse. */
  lemma {:induction false} StateNamesRoundTrip(s: TimerState, t: string)
    ensures ParseState(StateName(s)) == Some(s)
    ensures ParseState(t) == Some(s) <==> t == StateName(s)
    ensures ParseState(t).None? <==> t !in {"idle", "running", "paused"}
  {
  }

  /** Likewise for the three session kinds. */
  lemma {:induction false} SessionTypeNamesRoundTrip(k: SessionType, t: string)
    ensures ParseSessionType(SessionTypeName(k)) == Some(k)
    ensures ParseSessionType(t) == Some(k) <==> t == SessionTypeName(k)
    ensures ParseSessionType(t).None? <==> t !in {"work", "shortBreak", "longBreak"}
  {
  }
}
