/**
 * The `pomodoroTasks` configuration section as the extension reads and
 * writes it. Each reader names a key and a fallback: the timer reads the
 * durations, the long-break interval and the `notifications` flag
 * (src/pomodoroTimer.ts); the webview provider reads and writes the durations
 * and a `showNotifications` flag (src/pomodoroWebviewProvider.ts).
 */
module Settings {
  /** A stored setting: durations and counts are numbers, the notification switch is a flag. */
  datatype ConfigValue = Number(n: int) | Flag(b: bool)

  /** The configuration section: the keys the user or the extension has set. */
  type Config = map<string, ConfigValue>

  /** `config.get<number>(key, fallback)`. */
  function NumberOr(c: Config, key: string, fallback: int): (r: int)
    ensures key in c && c[key].Number? ==> r == c[key].n
    ensures (key !in c || !c[key].Number?) ==> r == fallback
  {
    if key in c && c[key].Number? then c[key].n else fallback
  }

  /** `config.get<boolean>(key, fallback)`. */
  function FlagOr(c: Config, key: string, fallback: bool): (r: bool)
    ensures key in c && c[key].Flag? ==> r == c[key].b
    ensures (key !in c || !c[key].Flag?) ==> r == fallback
  {
    if key in c && c[key].Flag? then c[key].b else fallback
  }

  /** The values the timer consults; durations are in minutes. */
  datatype TimerConfig = TimerConfig(
    workDuration: int,
    shortBreakDuration: int,
    longBreakDuration: int,
    longBreakInterval: int,
    notifications: bool)

  /** The timer's reads (src/pomodoroTimer.ts): the switch is read under the key `notifications`. */
  function TimerConfigOf(c: Config): (r: TimerConfig)
    ensures r.workDuration == NumberOr(c, "workDuration", 25)
    ensures r.shortBreakDuration == NumberOr(c, "shortBreakDuration", 5)
    ensures r.longBreakDuration == NumberOr(c, "longBreakDuration", 15)
    ensures r.longBreakInterval == NumberOr(c, "longBreakInterval", 4)
    ensures r.notifications == FlagOr(c, "notifications", true)
  {
    TimerConfig(
      NumberOr(c, "workDuration", 25),
      NumberOr(c, "shortBreakDuration", 5),
      NumberOr(c, "longBreakDuration", 15),
      NumberOr(c, "longBreakInterval", 4),
      FlagOr(c, "notifications", true))
  }

  /** The timer's reads with the switch read under the key the settings panel writes. */
  function TimerConfigOfFixed(c: Config): (r: TimerConfig)
    ensures r.notifications == FlagOr(c, "showNotifications", true)
    ensures r == TimerConfigOf(c).(notifications := r.notifications)
  {
    TimerConfigOf(c).(notifications := FlagOr(c, "showNotifications", true))
  }

  /** The settings panel's four values: `focusTime`, `shortBreak`, `longBreak`, `notifications`. */
  datatype PanelSettings = PanelSettings(focusTime: int, shortBreak: int, longBreak: int, notifications: bool)

  /** The panel's values before any message: 25, 5, 15 and on. */
  const DefaultPanel := PanelSettings(25, 5, 15, true)

  /** `_sendInitialData`: the panel's values read from the configuration. */
  function ReadSettings(c: Config): (r: PanelSettings)
    ensures r.focusTime == NumberOr(c, "workDuration", 25)
    ensures r.shortBreak == NumberOr(c, "shortBreakDuration", 5)
    ensures r.longBreak == NumberOr(c, "longBreakDuration", 15)
    ensures r.notifications == FlagOr(c, "showNotifications", true)
  {
    PanelSettings(
      NumberOr(c, "workDuration", 25),
      NumberOr(c, "shortBreakDuration", 5),
      NumberOr(c, "longBreakDuration", 15),
      FlagOr(c, "showNotifications", true))
  }

  /** The four keys `_updateSettings` writes. */
  const PanelKeys: set<string> := {"workDuration", "shortBreakDuration", "longBreakDuration", "showNotifications"}

  /** `_updateSettings`: the panel's values written under their configuration keys. */
  function WriteSettings(c: Config, s: PanelSettings): (r: Config)
    ensures r.Keys == c.Keys + PanelKeys
    ensures forall key :: key in c && key !in PanelKeys ==> r[key] == c[key]
  {
    c["workDuration" := Number(s.focusTime)]
      ["shortBreakDuration" := Number(s.shortBreak)]
      ["longBreakDuration" := Number(s.longBreak)]
      ["showNotifications" := Flag(s.notifications)]
  }

  /** What the panel writes, the panel reads back, whatever was stored before. */
  lemma {:induction false} ReadAfterWrite(c: Config, s: PanelSettings)
    ensures ReadSettings(WriteSettings(c, s)) == s
  {
  }

  /** With nothing stored, every reader gets its fallback. */
  lemma {:induction false} EmptyConfigDefaults()
    ensures ReadSettings(map[]) == DefaultPanel
    ensures TimerConfigOf(map[]) == TimerConfig(25, 5, 15, 4, true)
  {
  }

  /**
   * The panel's durations reach the timer, but its notification switch does
   * not: the timer's switch is whatever it was before the write.
   */
  lemma {:induction false} PanelSwitchNotHeard(c: Config, s: PanelSettings)
    ensures var t := TimerConfigOf(WriteSettings(c, s));
      t.workDuration == s.focusTime && t.shortBreakDuration == s.shortBreak
      && t.longBreakDuration == s.longBreak
      && t.notifications == TimerConfigOf(c).notifications
  {
    var w := WriteSettings(c, s);
    assert "notifications" !in PanelKeys;
    assert "notifications" in w <==> "notifications" in c;
  }

  /** Turning the switch off in the panel leaves the timer prompting. */
  lemma {:induction false} SwitchOffIgnored()
    ensures TimerConfigOf(WriteSettings(map[], PanelSettings(25, 5, 15, false))).notifications
  {
    PanelSwitchNotHeard(map[], PanelSettings(25, 5, 15, false));
  }

  /** Reading the switch under the panel's key, the timer follows the panel. */
  lemma {:induction false} PanelSwitchHeardFixed(c: Config, s: PanelSettings)
    ensures TimerConfigOfFixed(WriteSettings(c, s)) ==
      TimerConfig(s.focusTime, s.shortBreak, s.longBreak, TimerConfigOf(c).longBreakInterval, s.notifications)
  {
    var w := WriteSettings(c, s);
    assert "longBreakInterval" !in PanelKeys;
    assert "longBreakInterval" in w <==> "longBreakInterval" in c;
  }
}
