# Pomodoro tasks: a Dafny model

This project models the core of a VS Code extension that runs pomodoro
sessions against a task list.

**The timer.** `src/pomodoroTimer.ts` is the core: a state machine over a
status record, with the following parts:

- state idle, running or paused;
- the current task;
- the remaining seconds;
- the session kind (work, short break, long break);
- the count of completed pomodoros.

It also keeps an append-only log of finished work sessions. A one-second
interval drives it. When a session runs out, the user is asked what to do
next.

**Around the timer**

- **Task store.** An ordered list of tasks with add, update, delete and get
  (`src/taskProvider.ts`). The store changes behind the task commands
  (`src/taskService.ts`).
- **TODO/FIXME scanner.** It turns lines of source files into bookmarks, and
  bookmarks into tasks with a sanitised id (`src/bookmarkService.ts`).
- **Command decisions.** The decisions behind the extension's commands
  (`src/extension.ts`).
- **Panel host.** The side panel's host, which dispatches the panel's
  messages (`src/pomodoroWebviewProvider.ts`).
- **Panel script.** The panel's own script (`media/script.js`). It mirrors
  the timer, draws the `MM:SS` clock and the buttons, and adjusts the
  settings.

**How the model is built.** Everything is immutable datatypes and pure
functions.

- **Operations.** A timer operation returns an `Outcome`: the new timer and
  its effects, in order. The effects are update events, completion events,
  messages, a write of the session log, and prompts.
- **Prompts.** The answer to a prompt is a separate step that may arrive at
  any later time, since the source handles it in a `.then` callback.
- **The interval.** It is a flag `armed`, meaning the handle field holds a
  live interval, plus a count `leaked` of intervals that no field refers to
  any more. A tick can happen whenever one of them is live.
- **Configuration.** It is a map from keys to values. Each reader reads its
  own keys, with the source's defaults.
- **JavaScript built-ins.** The ones the core relies on are written out in
  `JsText`: `trim`, `parseInt`, `toString`, `padStart`, the truncating `%`,
  `toUpperCase`/`toLowerCase`, `indexOf` and `split`. Node's
  `path.basename`/`path.extname` are in `NodePath`.

**Files**

| file | module | what |
|---|---|---|
| wrappers.dfy | Wrappers | `Option` |
| js_text.dfy | JsText | the JavaScript string and number built-ins |
| node_path.dfy | NodePath | `path.basename` and `path.extname` |
| time_text.dfy | TimeText | the `MM:SS` text and a reader for it |
| types.dfy | Types | `Task`, `PomodoroSession`, `TimerState`, `TimerStatus` |
| task_provider.dfy | TaskProvider | the task store and the tree item's labels |
| task_service.dfy | TaskService | the task commands' store changes |
| bookmarks.dfy | Bookmarks | the TODO/FIXME scanner and bookmark tasks |
| settings.dfy | Settings | configuration keys as the timer and the panel read and write them |
| timer.dfy | PomodoroTimer | the timer's state machine and its status bar text |
| timer_lemmas.dfy | TimerLaws | laws of the state machine over single steps and runs |
| extension.dfy | Extension | the command decisions and the completion wiring |
| webview_provider.dfy | WebviewProvider | the panel host's message dispatch |
| webview_script.dfy | WebviewScript | the panel script |

## Model

| member | source | states |
|---|---|---|
| Types.StateNamesRoundTrip | src/types.ts:24-28 | A timer state is exactly one of 'idle', 'running', 'paused': each name reads back to its state, and any other text names none. |
| Types.SessionTypeNamesRoundTrip | src/types.ts:30-37 | A session kind is exactly one of 'work', 'shortBreak', 'longBreak', the same kinds a session record's type ranges over; each name reads back, and any other text names none. |
| JsText.TrimStart | src/bookmarkService.ts:82 | The result is a suffix of the input; it starts with a non-whitespace character, and everything removed is whitespace. |
| JsText.TrimEnd | src/bookmarkService.ts:82 | The result is a prefix of the input; it ends with a non-whitespace character, and everything removed is whitespace. |
| JsText.TrimIsMiddle | src/bookmarkService.ts:82 | `trim` yields the middle slice of its input, with only whitespace around it and no whitespace at its ends. |
| JsText.TrimmedIff | src/bookmarkService.ts:82 | A text has no whitespace at either end exactly when it is its own trim. |
| JsText.TrimIdempotent | src/pomodoroWebviewProvider.ts:237-238 | Trimming twice is trimming once. |
| JsText.TrimEmptyIff | src/pomodoroWebviewProvider.ts:237 | A string trims to empty exactly when it is all whitespace. |
| JsText.Trim | src/bookmarkService.ts:82 | `String.prototype.trim`. Its contract is stated by JsText.TrimIsMiddle, JsText.TrimmedIff, JsText.TrimIdempotent and JsText.TrimEmptyIff: the middle slice with only whitespace cut off, idempotent, empty exactly for all-whitespace text. |
| JsText.IndexOf | src/bookmarkService.ts:72 | The first position of a character, or none when it does not occur. |
| JsText.Split | src/bookmarkService.ts:72 | `split` yields at least one piece, and no piece contains the separator. |
| JsText.JoinSplit | src/bookmarkService.ts:72 | Joining the pieces of a split with the separator gives back the text. |
| JsText.SplitJoin | src/bookmarkService.ts:72 | Splitting pieces joined by a separator they do not contain gives back the pieces. |
| JsText.NatToString | src/taskProvider.ts:33 | A count's decimal text is all digits, with no leading zero. |
| JsText.PadStart2 | src/pomodoroTimer.ts:197 | `padStart(2, '0')` keeps the text as a suffix and adds only zeros, to a length of at least 2. |
| JsText.FloorDiv | src/pomodoroTimer.ts:195 | `Math.floor(a / b)` is the quotient that rounds down. |
| JsText.TruncRem | src/pomodoroTimer.ts:196 | JavaScript `%`: the magnitude is the remainder of the magnitudes, with the dividend's sign. |
| JsText.ToUpper | src/bookmarkService.ts:81 | Every character is upper-cased in place. |
| JsText.ToLower | src/bookmarkService.ts:104 | Every character is lower-cased in place. |
| JsText.ValueOfNatToString | src/taskProvider.ts:33 | The decimal text of a count has that count as its value. |
| JsText.ParseIntOfDigitsIn | src/taskService.ts:33 | `parseInt` of a run of decimal digits that starts the text is the run's value, whatever follows it. A leading `0` followed by `x` is excluded, since that is read as hexadecimal. |
| JsText.ParseIntOfNegativeIn | src/taskService.ts:33 | `parseInt` of a minus sign followed by decimal digits is the negated value. |
| JsText.ParseIntOfNumberIn | src/taskService.ts:45 | `parseInt` reads back any integer's `toString` text inside a larger text. |
| JsText.ParseIntOfNumberToString | src/taskService.ts:45 | `parseInt` reads back any integer's `toString` text, followed by anything that does not continue the number. |
| JsText.ParseInt | src/taskService.ts:33 | `parseInt` with no radix. Its contract is stated by JsText.ParseIntOfDigitsIn, JsText.ParseIntOfNegativeIn and JsText.ParseIntOfNumberToString: it reads a leading run of digits, negated after a minus sign, and inverts `toString` on integers. |
| JsText.NumberToString | src/pomodoroTimer.ts:197 | `toString` of an integer. Its contract is stated by JsText.ParseIntOfNumberToString and JsText.ValueOfNatToString: `parseInt` reads the text back as the number. |
| NodePath.TrimSlashes | src/bookmarkService.ts:126 | Trailing slashes are removed, and only those. |
| NodePath.AfterLastSlash | src/bookmarkService.ts:126 | The part after the last slash, which contains no slash. |
| NodePath.BasenameOfJoin | src/bookmarkService.ts:126 | The base name of a directory joined with a file name is that file name. |
| NodePath.Basename | src/bookmarkService.ts:126 | `path.basename`: the result contains no slash. NodePath.BasenameOfJoin states the rest: the base name of a directory joined with a file name is that file name. |
| NodePath.ExtOf | src/bookmarkService.ts:104 | An extension is empty, or is a suffix of the base name that starts with its only dot. |
| NodePath.Extname | src/bookmarkService.ts:104 | The extension of a path is a dot-led suffix of its base name, or empty. |
| NodePath.ExtOfNoExtension | src/bookmarkService.ts:104 | A base name without a dot, or whose only dot leads it, has no extension. |
| NodePath.ExtOfStemAndExtension | src/bookmarkService.ts:104 | A non-empty stem followed by a dot-led suffix has that suffix as its extension. |
| TimeText.FormatTimeReadsBack | src/pomodoroTimer.ts:195-197 | The `MM:SS` text of any non-negative number of seconds reads back as those seconds (minutes × 60 + seconds). |
| TimeText.FormatTime | src/pomodoroTimer.ts:195-197 | The clock text. Its contract is stated by TimeText.FormatTimeReadsBack and TimeText.FormatTimeShape: it reads back as the seconds and has the colon in the middle. |
| TimeText.FormatTimeShape | src/pomodoroTimer.ts:195-197 | Under 100 minutes, the text is five characters with the colon in the middle. |
| TimeText.NegativeTimeText | src/pomodoroTimer.ts:195-197 | Minus one second is drawn as "-1:-1", which reads back as -61. |
| TimeText.ReadClockOfParts | src/pomodoroTimer.ts:197 | Two padded numbers around a colon read back as minutes × 60 + seconds. |
| TaskProvider.PatchLaws | src/taskProvider.ts:84 | An empty update changes nothing; two updates in a row are one merged update; repeating an update changes nothing more. |
| TaskProvider.FindIndex | src/taskProvider.ts:82 | The position of the first task with the id, or none exactly when no task has it. |
| TaskProvider.AddTask | src/taskProvider.ts:75-79 | The task is appended at the end; the earlier tasks are unchanged. |
| TaskProvider.UpdateTask | src/taskProvider.ts:81-88 | Only the first task with the id changes, and only in the supplied fields; an unknown id changes nothing. |
| TaskProvider.DeleteTask | src/taskProvider.ts:90-94 | Every task with the id is removed, and every other task is kept. |
| TaskProvider.DeleteTaskAppend | src/taskProvider.ts:90-91 | Deleting distributes over concatenation, so the remaining tasks keep their order. |
| TaskProvider.DeleteTaskAbsent | src/taskProvider.ts:90-91 | Deleting twice is deleting once, and deleting an unknown id changes nothing. |
| TaskProvider.GetTask | src/taskProvider.ts:96-98 | The first task with the id, or none exactly when no task has it. |
| TaskProvider.GetAllTasks | src/taskProvider.ts:100-102 | The copy has the same tasks in the same order. |
| TaskProvider.GetAfterAdd | src/taskProvider.ts:75-98 | After an append, a lookup finds what it found before; failing that, it finds the new task if the id is the new task's. |
| TaskProvider.GetAfterUpdate | src/taskProvider.ts:81-98 | After an update that keeps the id, a lookup finds the updated task. |
| TaskProvider.GetAfterDelete | src/taskProvider.ts:90-98 | After a delete the id is gone, and lookups of other ids are unchanged. |
| TaskProvider.DescriptionReadsBack | src/taskProvider.ts:30-34 | The description's two numbers around the slash read back as the completed and the estimated counts. |
| TaskProvider.Description | src/taskProvider.ts:30-34 | The description ends in the tomato. TaskProvider.DescriptionReadsBack reads both counts back from it. |
| TaskProvider.Icon | src/taskProvider.ts:36-44 | The icon is 'check-all' exactly when the task is completed, else 'clock' exactly when a pomodoro was done, else 'circle-outline'. |
| TaskService.ValidateEstimate | src/taskService.ts:32-38 | An estimate is accepted exactly when `parseInt` reads a positive number from it; otherwise the error text is given. |
| TaskService.ValidateEstimateOfNumber | src/taskService.ts:32-38 | An integer's text is accepted exactly when the integer is positive, and empty input is refused. |
| TaskService.ValidateEstimateLenient | src/taskService.ts:33 | A number followed by words passes, because `parseInt` stops at the first non-digit. |
| TaskService.CreateTask | src/taskService.ts:14-59 | Nothing is created without a name or an estimate. Otherwise one task is appended with that name and description, the parsed positive estimate, no pomodoros, not completed, and no bookmark fields. |
| TaskService.EditTask | src/taskService.ts:61-101 | Only name, description and estimate of the edited task change, and only when a name and an estimate were given and the task is stored. |
| TaskService.EditPatch | src/taskService.ts:94-98 | Applied to any task, the update object sets the name, the description and the estimate, and changes nothing else. |
| TaskService.DeleteTaskConfirmed | src/taskService.ts:103-114 | The list changes only when the answer is 'Sí'. Then every task with the id is removed by the store's order-preserving delete, and every other task is kept. |
| TaskService.CompleteTask | src/taskService.ts:116-130 | The task is marked completed, with the time, only when the answer is 'Sí'; no other field or task changes. |
| TaskService.IncrementPomodoroCount | src/taskService.ts:132-139 | That task's count rises by exactly one and nothing else changes; an unknown id changes nothing. |
| TaskService.IncrementRaisesTotal | src/taskService.ts:132-139 | The sum of all counts rises by one for a stored id and by nothing for an unknown one. |
| TaskService.TotalCompletedUpdate | src/taskProvider.ts:84 | Replacing one task changes the sum by the difference of its counts. |
| TaskService.TotalCompleted | src/taskService.ts:132-139 | The total of completed pomodoros is never negative while no task's count is. |
| Bookmarks.IsCodeFile | src/bookmarkService.ts:103-120 | A file is scanned exactly when its lower-cased extension is in the list or it has none. |
| Bookmarks.IsCodeFileOfName | src/bookmarkService.ts:103-120 | For a path ending in a stem and an extension, the decision depends only on the lower-cased extension. |
| Bookmarks.TagAt | src/bookmarkService.ts:27 | A tag is recognised only at a word boundary, followed by a colon, whatever its case. |
| Bookmarks.FindTag | src/bookmarkService.ts:27 | The first position where a tag is recognised, or none exactly when there is none. |
| Bookmarks.LineEnd | src/bookmarkService.ts:27 | `.*` stops at the first line terminator. |
| Bookmarks.RestOfLine | src/bookmarkService.ts:82 | The content has no whitespace at either end and holds no line terminator. |
| Bookmarks.RestOfLineIsTrimmedCapture | src/bookmarkService.ts:82 | The content is exactly what `(.*)` captures from the given position, trimmed. |
| Bookmarks.Captured | src/bookmarkService.ts:79-82 | What `(.*)` captures ends exactly where `.*` stops. |
| Bookmarks.CapturedChars | src/bookmarkService.ts:79-82 | Each captured character is the line's character at the same offset, and none of them ends the line. |
| Bookmarks.MatchAt | src/bookmarkService.ts:79-82 | A match's kind is the tag at that position, and the tag and its colon fit in the line. The content has no whitespace at either end and no line terminator. |
| Bookmarks.MatchAtContent | src/bookmarkService.ts:79-82 | The match at a tag whose colon ends right before `after` is that tag. Its content is what `(.*)` captures once `\s*` has skipped the white space from `after`, trimmed. |
| Bookmarks.MatchLine | src/bookmarkService.ts:79-82 | A line matches exactly when a tag is recognised somewhere in it, and the content is trimmed. |
| Bookmarks.MatchLineContent | src/bookmarkService.ts:79-82 | A line whose leftmost tag is at `pos`, with its colon ending right before `after`, reports that tag. The content is the text captured after the colon and the white space that follows it, trimmed. |
| Bookmarks.ContentOfRest | src/bookmarkService.ts:79-82 | When the rest of the line from `after` is `c`, with no line terminator, the trimmed capture after the white space is `c` trimmed. |
| Bookmarks.MatchLineOfComment | src/bookmarkService.ts:79-82 | For every line `pre TAG: c` with no colon in `pre`, no word character just before the tag, and no line terminator in `c`, the match is that tag with content `c` trimmed. |
| Bookmarks.MatchedKind | src/bookmarkService.ts:79-81 | The kind reported is the first tag in the line. |
| Bookmarks.TagIsUppercasedMatch | src/bookmarkService.ts:81 | The kind's name is the matched text upper-cased. |
| Bookmarks.GluedTagIsNoMatch | src/bookmarkService.ts:27 | A tag glued to a preceding word character is not a match. |
| Bookmarks.CommentTagMatches | src/bookmarkService.ts:79-82 | "// todo:  fix me " yields a TODO with content "fix me". |
| Bookmarks.BookmarkOf | src/bookmarkService.ts:79-90 | A line yields a bookmark exactly when it matches. The bookmark has that file, line number and trimmed line, and the matched kind and content. |
| Bookmarks.ScanLinesSound | src/bookmarkService.ts:74-91 | Every bookmark found comes from some line, carries that line's 1-based number, and is what that line yields. |
| Bookmarks.ScanLinesOrdered | src/bookmarkService.ts:74-91 | Bookmarks come out in strictly increasing line order, so at most one per line. |
| Bookmarks.ScanLinesComplete | src/bookmarkService.ts:74-91 | Every line that yields a bookmark is represented in the result. |
| Bookmarks.ScanLines | src/bookmarkService.ts:74-91 | The per-line scan of a file. Its contract is stated by Bookmarks.ScanLinesSound, Bookmarks.ScanLinesOrdered and Bookmarks.ScanLinesComplete: exactly the bookmarks the lines yield, one per yielding line, in line order. |
| Bookmarks.FileScannerNumbers | src/bookmarkService.ts:76-90 | The per-line scanner numbers its bookmarks by the line number it is given, and yields exactly for matching lines. |
| Bookmarks.ScanFile | src/bookmarkService.ts:61-98 | A file that is not code yields nothing; otherwise the text is split at newlines and the lines are scanned in order. |
| Bookmarks.ScanEachLine | src/bookmarkService.ts:74-92 | The loop over the lines collects exactly the per-line scan of every line. |
| Bookmarks.Sanitize | src/bookmarkService.ts:156 | Every character of the result is a letter, a digit or an underscore, and the result is no shorter than the input. |
| Bookmarks.SanitizeBmp | src/bookmarkService.ts:156 | For text in the Basic Multilingual Plane the result has the same length. Each ASCII letter or digit is kept in place, and every other character becomes `_`. |
| Bookmarks.SanitizeAstral | src/bookmarkService.ts:156 | A character outside the Basic Multilingual Plane is two UTF-16 units, and becomes `__`. |
| Bookmarks.SanitizeAppend | src/bookmarkService.ts:156 | Sanitising works character by character. |
| Bookmarks.SanitizeIdempotent | src/bookmarkService.ts:156 | Sanitising a sanitised text changes nothing. |
| Bookmarks.BookmarkId | src/bookmarkService.ts:154-157 | The id is `bookmark_` followed by the sanitised `path:line:TYPE`, and holds only letters, digits and underscores. |
| Bookmarks.BookmarkIdParts | src/bookmarkService.ts:154-157 | For a non-negative line number the id is `bookmark_`, the sanitised path, `_`, the line's digits, `_` and the tag word. |
| Bookmarks.BookmarkIdOfSanitizedPath | src/bookmarkService.ts:155 | Equal file, line and kind give equal ids, and so do paths that differ only in the characters replaced. |
| Bookmarks.PunctuationCollides | src/bookmarkService.ts:156 | "a-b.ts" and "a_b.ts" sanitise to the same text, so their bookmarks share an id. |
| Bookmarks.CreateTaskFromBookmark | src/bookmarkService.ts:125-149 | A bookmark task has the bookmark's id and name, one estimated and no completed pomodoros, is not completed, is marked as a bookmark, and copies the file and line. Its description starts with the file icon, the relative path and a colon, and ends with a new line, the speech-balloon icon and the whole source line. |
| Bookmarks.DescriptionLineReadsBack | src/bookmarkService.ts:135 | Between the path and the source line, the description holds the line number: `parseInt` from just after the colon reads it back. |
| Bookmarks.TaskNameReadsBack | src/bookmarkService.ts:130-132 | The name starts with the kind. With content, the next two characters are ": " and the rest is the content; without, the rest is " en " and the file's base name. |
| Bookmarks.TaskName | src/bookmarkService.ts:130-132 | The task's name starts with the tag word, and something follows it. |
| Settings.NumberOr | src/pomodoroTimer.ts:40 | A stored number is read as itself, and anything else as the default. |
| Settings.FlagOr | src/pomodoroTimer.ts:109 | A stored flag is read as itself, and anything else as the default. |
| Settings.TimerConfigOf | src/pomodoroTimer.ts:108-172 | The timer reads workDuration, shortBreakDuration, longBreakDuration, longBreakInterval and notifications, with defaults 25, 5, 15, 4 and true. |
| Settings.ReadSettings | src/pomodoroWebviewProvider.ts:193-207 | The panel reads focusTime from workDuration, shortBreak from shortBreakDuration, longBreak from longBreakDuration and notifications from showNotifications, with defaults 25, 5, 15 and true. |
| Settings.WriteSettings | src/pomodoroWebviewProvider.ts:228-234 | Writing sets exactly the four panel keys and keeps every other key. |
| Settings.ReadAfterWrite | src/pomodoroWebviewProvider.ts:193-234 | With a single configuration scope, settings written by the panel are read back unchanged. |
| Settings.EmptyConfigDefaults | src/pomodoroWebviewProvider.ts:199-202 | An empty configuration reads as the defaults, for the panel and for the timer. |
| Settings.PanelSwitchNotHeard | src/pomodoroTimer.ts:109 | After the panel writes, the timer hears the three durations but not the notifications switch. |
| Settings.SwitchOffIgnored | src/pomodoroWebviewProvider.ts:233 | Switching notifications off in the panel leaves them on for the timer. |
| Settings.TimerConfigOfFixed | src/pomodoroTimer.ts:109 | The corrected reader takes the notifications flag from the key the panel writes, and reads everything else as before. |
| Settings.PanelSwitchHeardFixed | src/pomodoroWebviewProvider.ts:228-234 | With the corrected reader, the timer hears everything the panel writes. |
| PomodoroTimer.TaskLabel | src/pomodoroTimer.ts:214 | The tooltip names the current task whenever it has a non-empty name, and the label is never empty. |
| PomodoroTimer.BarFor | src/pomodoroTimer.ts:190-207 | The bar shows the idle text exactly when the timer is idle; otherwise the tooltip describes the status. |
| PomodoroTimer.BarShowsClock | src/pomodoroTimer.ts:190-204 | Outside idle the bar text starts with the session's icon. Then comes the clock, which reads back as the remaining seconds, then the pause mark exactly when paused. |
| PomodoroTimer.Tooltip | src/pomodoroTimer.ts:209-220 | A fixed text while idle. Otherwise the tooltip opens with the session kind and the task label and closes with the completed count. |
| PomodoroTimer.SessionLabel | src/pomodoroTimer.ts:215-216 | 'Trabajo' exactly for work and 'Descanso largo' exactly for a long break. |
| PomodoroTimer.SessionIcon | src/pomodoroTimer.ts:199-200 | The tomato exactly for work and the cup exactly for a short break. |
| PomodoroTimer.SessionNamesDistinct | src/pomodoroTimer.ts:199-216 | Different session kinds have different names and different icons. |
| PomodoroTimer.Arm | src/pomodoroTimer.ts:85-96 | Arming leaves a live interval; if one was already armed, that one is lost but keeps firing. |
| PomodoroTimer.Disarm | src/pomodoroTimer.ts:98-103 | Clearing leaves no armed interval and does not touch lost ones. |
| PomodoroTimer.NewTimer | src/pomodoroTimer.ts:6-31 | A new timer is idle with no task and no pomodoros, holds the saved log, and has no interval. |
| PomodoroTimer.Start | src/pomodoroTimer.ts:33-52 | Starting while running only warns. Otherwise the timer runs a work session on the task for workDuration × 60 seconds, keeps the count and the log, fires no update and leaves the bar as it was. |
| PomodoroTimer.StartWork | src/pomodoroTimer.ts:42-51 | A work session on the task, running, for workDuration × 60 seconds, with the count kept; a fresh interval is armed, and one already armed is lost; one message names the task. TimerLaws.StopUndoesStart relates it to a stop. |
| PomodoroTimer.Pause | src/pomodoroTimer.ts:54-62 | Pausing changes only running into paused, clears the interval, redraws the bar and fires one update; in any other state it does nothing. |
| PomodoroTimer.Resume | src/pomodoroTimer.ts:64-70 | Resuming changes only paused into running and arms the interval, without an update or a redraw; in any other state it does nothing. |
| PomodoroTimer.Stop | src/pomodoroTimer.ts:72-83 | From any state, the timer becomes idle at zero seconds in a work session without a task, keeping the count, the log and lost intervals; an update then a message follow. |
| PomodoroTimer.LongBreakEvery | src/pomodoroTimer.ts:174 | For a positive interval, a break is long exactly when the count is a multiple of it. |
| PomodoroTimer.IsLongBreak | src/pomodoroTimer.ts:174 | The long-break test with JavaScript `%`, false for an interval of 0. Its contract is stated by PomodoroTimer.LongBreakEvery: for a positive interval, long exactly at multiples of the interval. |
| PomodoroTimer.StartBreak | src/pomodoroTimer.ts:168-188 | A break keeps the task and the count, runs, and lasts the long or short minutes × 60 by the long-break rule; it arms an interval. |
| PomodoroTimer.WorkRecord | src/pomodoroTimer.ts:119-126 | A work record names the task, claims 25 minutes whatever was configured, and ends now, 25 minutes after its start. |
| PomodoroTimer.LogWork | src/pomodoroTimer.ts:115-129 | With a task, a completion is reported and exactly one record is appended and saved; without one, nothing happens. |
| PomodoroTimer.Expire | src/pomodoroTimer.ts:105-166 | Work expiry counts exactly one pomodoro and logs one record only when there is a task. It then asks "¡Pomodoro completado!…" with the buttons 'Iniciar Descanso' and 'Detener', or goes straight into a break. Break expiry asks with 'Continuar' and 'Detener', or stops exactly as stopPomodoro does. The completion is reported first and only once. |
| PomodoroTimer.Tick | src/pomodoroTimer.ts:86-95 | A tick takes exactly one second off and redraws the bar for the new status. It expires the session only when the time reaches zero or less, and always ends with an update. |
| PomodoroTimer.AnswerAfterWork | src/pomodoroTimer.ts:136-142 | 'Iniciar Descanso' starts a break; any other answer stops. |
| PomodoroTimer.AnswerAfterBreak | src/pomodoroTimer.ts:153-161 | 'Continuar' with a task calls start on it, and without one does nothing; any other answer stops. |
| PomodoroTimer.StartBreakFixed | src/pomodoroTimer.ts:168-188 | The corrected break start clears any armed interval first, so none is lost; status and effects are as before. |
| PomodoroTimer.AnswerAfterWorkFixed | src/pomodoroTimer.ts:136-142 | The corrected answer handler starts the break without losing an interval. |
| PomodoroTimer.AnswerAfterBreakFixed | src/pomodoroTimer.ts:153-161 | 'Continuar' with a task starts the next work session directly, whatever the stale running state. |
| PomodoroTimer.Apply | src/pomodoroTimer.ts:33-188 | No step lowers the pomodoro count or removes a log record; a tick without a live interval does nothing. |
| PomodoroTimer.ApplyFixed | src/pomodoroTimer.ts:33-188 | The corrected steps also never lower the count or lose records, and differ from the original only in the prompt answers. |
| TimerLaws.PauseResumeRoundTrip | src/pomodoroTimer.ts:54-70 | Pausing then resuming a running timer gives back the same status and log, with an interval armed. |
| TimerLaws.PauseResumeIdempotent | src/pomodoroTimer.ts:54-70 | A second pause or a second resume does nothing. |
| TimerLaws.StopUndoesStart | src/pomodoroTimer.ts:33-83 | Stopping after a start gives the same status as stopping at once, and the log is untouched. |
| TimerLaws.LeaksStay | src/pomodoroTimer.ts:85-103 | No step recovers a lost interval. |
| TimerLaws.ApplyKeepsQuiet | src/pomodoroTimer.ts:85-103 | An idle or paused timer never has an armed interval, step after step. |
| TimerLaws.OnlyLateBreakLeaks | src/pomodoroTimer.ts:184 | From a timer whose idle or paused state means no armed interval, a step loses an interval exactly when it is 'Iniciar Descanso' answered while one is armed. |
| TimerLaws.StopStartLateBreakLeaks | src/pomodoroTimer.ts:184 | Stopping and starting a new pomodoro while the work-done prompt waits, then answering 'Iniciar Descanso', loses an interval; after a stop it still ticks and counts another pomodoro. |
| TimerLaws.StopStartLateBreakFixed | src/pomodoroTimer.ts:184 | With the corrected break start, the same stop, start and answer lose nothing, and a stop leaves nothing ticking. |
| TimerLaws.FixedNeverLeaks | src/pomodoroTimer.ts:184 | With the corrected break start, no step loses an interval. |
| TimerLaws.RunExtends | src/pomodoroTimer.ts:113 | Over any run of steps the count never decreases and the log only grows. |
| TimerLaws.RunKeepsQuiet | src/pomodoroTimer.ts:98-103 | Over any run of steps an idle or paused timer has no armed interval. |
| TimerLaws.Countdown | src/pomodoroTimer.ts:86-92 | n ticks with more than n seconds left take exactly n seconds off and change nothing else. |
| TimerLaws.WorkExpiresIntoBreak | src/pomodoroTimer.ts:111-145 | With notifications off, the last second of work counts one pomodoro, logs the task's record and runs the chosen break. |
| TimerLaws.LastSecond | src/pomodoroTimer.ts:42-92 | A one-minute pomodoro has one second left after 59 ticks. |
| TimerLaws.FirstPomodoro | src/pomodoroTimer.ts:33-188 | A one-minute pomodoro with notifications off ends after 60 ticks in a short break, with one pomodoro counted and one record logged. |
| TimerLaws.FourthPomodoroLongBreak | src/pomodoroTimer.ts:170-181 | The fourth pomodoro is followed by a long break. |
| TimerLaws.WorkExpiryReportsOnce | src/pomodoroTimer.ts:115-116 | The tick that ends a work session with a task reports its completion first and exactly once. |
| TimerLaws.RunSplit | src/pomodoroTimer.ts:85-96 | Running two sequences of steps is running the first, then the second. |
| PomodoroTimer.Run | src/pomodoroTimer.ts:85-96 | No steps change nothing, and one step is that step. |
| TimerLaws.WorkExpiresIntoPrompt | src/pomodoroTimer.ts:105-142 | With notifications on, work expiry counts one pomodoro and leaves the timer running at zero with no interval, awaiting the answer. |
| TimerLaws.PromptWindowGoesNegative | src/pomodoroTimer.ts:98-106 | A pause then resume while the prompt waits re-arms the interval, and the next tick takes the time to -1 and counts another pomodoro. |
| TimerLaws.ContinueRefused | src/pomodoroTimer.ts:153-157 | After a break expires, 'Continuar' only warns that a pomodoro is running, and the timer stays at zero with no interval. |
| TimerLaws.ContinueStartsWorkFixed | src/pomodoroTimer.ts:153-157 | With the corrected handler, 'Continuar' runs a new work session on the task with an interval armed. |
| TimerLaws.LateBreakLeaks | src/pomodoroTimer.ts:184 | A pause and resume, then an answer 'Iniciar Descanso' within the second before the re-armed interval fires, loses an interval; after a stop it still ticks and counts another pomodoro. |
| TimerLaws.LateBreakFixed | src/pomodoroTimer.ts:184 | With the corrected break start, the same answers end idle with nothing ticking. |
| Extension.PauseToggle | src/extension.ts:127-136 | The command pauses a running timer, resumes a paused one, and otherwise only shows a message. |
| Extension.PauseToggleTwice | src/extension.ts:127-136 | Toggling twice gives back the status and the log of a running or paused timer. |
| Extension.ShowTimer | src/extension.ts:142-172 | Idle offers only 'Iniciar Pomodoro'; running offers pause and stop; paused offers resume and stop; a non-idle dialog shows the summary. |
| Extension.ShowTimerAnswer | src/extension.ts:144-183 | When idle only 'Iniciar Pomodoro' acts, by starting. Otherwise 'Detener' stops, 'Pausar' and 'Reanudar' toggle, and nothing starts. |
| Extension.OfferedButtonsAct | src/extension.ts:162-183 | Every offered button has an action, and the first one flips running and paused. |
| Extension.ShowTimerClock | src/extension.ts:154-171 | The dialog's message holds the `MM:SS` text of the remaining time, which reads back as the remaining seconds. |
| Extension.TimerSummary | src/extension.ts:154-171 | The dialog text opens with the session kind, the task and the caption and closes with the completed count. |
| Extension.Candidates | src/extension.ts:105 | The offered tasks are exactly the stored tasks that are not completed, and a single task is offered exactly when it is open. |
| Extension.CandidatesAppend | src/extension.ts:105 | The filter distributes over concatenation, so the offered tasks keep the store's order and repeats. |
| Extension.PickItems | src/extension.ts:111-115 | Each quick-pick item carries its task and the task's name, one per task. |
| Extension.StartCommand | src/extension.ts:100-125 | A tree item starts its own task. Without one, an empty candidate list only shows a message. A pick starts the picked candidate, and a dismissed pick does nothing. |
| Extension.StartCommandNeedsOpenTask | src/extension.ts:104-123 | Without an item, a stopped timer starts exactly when some task is incomplete and one of the candidates is picked. |
| Extension.OnPomodoroComplete | src/extension.ts:40-46 | A completion increments that task's count, posts the tasks to the panel, then shows a message. |
| Extension.DeliverOne | src/extension.ts:40-41 | Effects holding one completion count that task once. |
| Extension.CompletionCountedOnce | src/extension.ts:40-41 | The tick that ends a work session raises that task's count by exactly one, and the total by one if the task is stored. |
| Extension.CountdownCountsNothing | src/extension.ts:40-41 | A tick that does not end the session changes no count. |
| Extension.Deliver | src/extension.ts:40-41 | Delivering any effects to the listener keeps the number of tasks. |
| WebviewProvider.Forwarded | src/pomodoroWebviewProvider.ts:79-82 | Every update the timer fires is posted as a timerUpdate, and nothing else is posted. A single effect gives one post if it is an update and none otherwise. |
| WebviewProvider.ForwardedAppend | src/pomodoroWebviewProvider.ts:79-82 | Forwarding distributes over concatenation: one post per update, in firing order. |
| WebviewProvider.NewTaskName | src/pomodoroWebviewProvider.ts:236-241 | A name is accepted exactly when it is present and not blank once trimmed, and the trimmed name is used. |
| WebviewProvider.StartFromPanel | src/pomodoroWebviewProvider.ts:39-51 | A paused timer resumes; otherwise the first task starts; with no task there is only a warning. |
| WebviewProvider.Dispatch | src/pomodoroWebviewProvider.ts:34-73 | Each command has its handler. startPomodoro posts the status after the timer's own updates; pausePomodoro and stopPomodoro forward the timer's updates; updateSettings writes the configuration; getTasks posts the tasks; addTask creates a task for an accepted name; anything else does nothing; only addTask changes the tasks. |
| WebviewProvider.StartResumesWhenPaused | src/pomodoroWebviewProvider.ts:39-42 | Start on a paused timer resumes the same session and starts no new one. |
| WebviewProvider.StartTakesFirstTask | src/pomodoroWebviewProvider.ts:45-47 | Start on an idle timer runs a work session on the first task. |
| WebviewProvider.StartWithoutTasks | src/pomodoroWebviewProvider.ts:48-50 | With no tasks, start only warns and leaves the timer as it was. |
| WebviewProvider.StartAlwaysPostsStatus | src/pomodoroWebviewProvider.ts:52-53 | Every start ends by posting the status the timer is left in. |
| WebviewProvider.SettingsRoundTrip | src/pomodoroWebviewProvider.ts:193-234 | With a single configuration scope, settings sent by the panel come back unchanged in the next initial data. |
| WebviewProvider.InitialData | src/pomodoroWebviewProvider.ts:193-213 | The initial data carries the settings as read under the panel's keys and the timer's status. |
| WebviewProvider.AddTaskTrims | src/pomodoroWebviewProvider.ts:236-241 | A blank name does nothing; any other name creates a task under its trimmed form. |
| WebviewScript.ModeOfName | media/script.js:423-424 | 'work' means focus, 'shortBreak' means short break, and any other text means long break. |
| WebviewScript.ModeOfKinds | media/script.js:423-424 | Each session kind maps to its own mode. |
| WebviewScript.OnTimerUpdate | media/script.js:414-427 | isRunning exactly when the state is 'running' and isPaused exactly when it is 'paused'. The time and mode follow the data, elapsed time is kept, and a missing count becomes 0. |
| WebviewScript.MirrorOfStatus | media/script.js:414-427 | A posted status is mirrored faithfully: running, paused, time, count and mode. |
| WebviewScript.FeedKeepsElapsed | media/script.js:422 | Any number of updates keep the elapsed time the mirror started with. |
| WebviewScript.Feed | media/script.js:414-427 | A single update is handled as that update. |
| WebviewScript.RingNeverMoves | media/script.js:422 | From the initial mirror, the total always equals the remaining time, whatever updates arrive. |
| WebviewScript.TickShrinksTotal | media/script.js:422 | The first tick of a 25-minute session shrinks the total to 1499 seconds. |
| WebviewScript.OnTimerUpdateFixed | media/script.js:422 | The corrected update keeps the total within a session and restarts the elapsed time on a new one; everything else is as before. |
| WebviewScript.TickAdvancesRingFixed | media/script.js:422 | With the corrected update, a tick keeps the total and advances the elapsed time by one second. |
| WebviewScript.Display | media/script.js:113-116 | The clock text of a non-negative time reads back as that time. |
| WebviewScript.Label | media/script.js:119-129 | Each mode has its own label: FOCUS, SHORT BREAK, LONG BREAK. |
| WebviewScript.ControlsOf | media/script.js:132-170 | Exactly three button layouts, in priority order: running and not paused; paused; otherwise idle. The start button shows exactly when pause does not. |
| WebviewScript.PanelShowsStatus | media/script.js:102-170 | After a timer update, the buttons, clock and label match the host's status. |
| WebviewScript.AssignStatus | media/script.js:104 | Assigning a raw status onto the mirror changes only the pomodoro count, the one field whose name both share. |
| WebviewScript.Receive | media/script.js:402-433 | Tasks replace the list, a timer update goes through the mapping, and initial data merges the settings and assigns the raw status. |
| WebviewScript.PausedTimerShownIdle | media/script.js:406-412 | A panel opened on a paused pomodoro at 10:00 shows the idle buttons and 25:00. |
| WebviewScript.ReceiveFixed | media/script.js:406-412 | The corrected handler maps the initial status like a timer update. |
| WebviewScript.InitialDataShownFixed | media/script.js:406-412 | With the corrected handler, initial data shows the host's buttons, clock and count. |
| WebviewScript.AdjustValue | media/script.js:228-232 | Increase adds one up to 60, decrease takes one down to 1, and anything else keeps the value. |
| WebviewScript.AdjustStaysInRange | media/script.js:222-237 | Any sequence of adjustments keeps a value within 1 to 60. |
| WebviewScript.AdjustAll | media/script.js:222-237 | A single press is that press. |
| WebviewScript.AdjustUndo | media/script.js:228-232 | Away from the bounds, a decrease undoes an increase and vice versa. |
| WebviewScript.AdjustSetting | media/script.js:222-237 | Only the chosen setting moves; the update sent carries the new settings. |
| WebviewScript.ToggleNotifications | media/script.js:239-242 | The switch sets the flag and sends the new settings. |
| WebviewScript.AdjustReachesHost | media/script.js:251-261 | With a single configuration scope, an adjustment sent to the host is read back by the panel, and the timer hears the durations. |
| WebviewScript.SpaceKey | media/script.js:443-452 | Outside a text field, space sends pause exactly when the pause button shows, and start otherwise. |
| WebviewScript.SpaceFollowsTimer | media/script.js:443-452 | Space pauses a running timer, resumes a paused one, and starts an idle one on the first task. |
| WebviewScript.AddTaskAction | media/script.js:312-321 | The add-task message is sent exactly when the trimmed name is not empty, and it carries the trimmed name. |
| WebviewScript.AddTaskAgreesWithHost | media/script.js:312-321 | A name the panel sends is created by the host as sent. |
| WebviewScript.PlayButtonIgnoresTask | media/script.js:380-385 | A task's play button starts the same thing for every task: whatever the plain start does. |
| WebviewScript.StartTaskMessage | media/script.js:380-385 | A task's play button sends startPomodoro with that task's id. |
| WebviewScript.CompleteButtonIgnored | media/script.js:387-392 | A task's complete button changes nothing, because the host has no case for it. |
| WebviewScript.CompleteTaskMessage | media/script.js:387-392 | A task's complete button sends completeTask with that task's id. |

## Left out

- I/O and time. The one-second interval, the event emitters and the status
  bar objects are left out. A tick is a step, the interval a flag, the
  emitters' firings effects.
- Prompts and input boxes (`showInformationMessage(...).then`,
  `showInputBox`, `showQuickPick`). The user's answers are parameters. An
  answer is a step that may come at any later time. Whether VS Code still
  shows a stale prompt is not modelled.
- Persistence. Saving and loading the session log and the task list is
  left out. `SaveSessions` is an effect, and `NewTimer` takes the saved log.
  Turning stored dates back into `Date` objects is not modelled.
- Dates. Times are integers in milliseconds passed in by the caller
  (`Date.now()`).
- `generateId`'s random ids. Ids are parameters.
- Floating point. This covers the progress ring's geometry and the
  percentage shown by the `selectTask` command. Numbers are integers
  throughout, and the elapsed time the ring draws from is modelled.
- HTML, DOM and modal construction, and the panel's task list markup.
- Workspace files:
  - the search across workspace files;
  - opening a document;
  - `asRelativePath`, which is a parameter;
  - the unused comment patterns.
- Tree view plumbing: `getChildren`, `getTreeItem`, `refresh`, the tooltip
  text of a task item, `openBookmarkLocation`.
- The `selectTask` command's dialog, whose progress percentage is floating
  point, and the `refresh` command. The `addTask`, `editTask`, `deleteTask`
  and `completeTask` commands only hand the tree item to `TaskService`,
  which is modelled.
- `TaskService.createTaskFromName` and `TaskService.getAllTasks`. The panel
  host calls them, but taskService.ts defines neither of them. The first is
  a parameter; the second is taken to be the stored list.
- Repeated listener registration. A second `resolveWebviewView` adds a
  second timer listener. The model has one host with one listener.
- `getStatus` and `getSessions` are the `status` and `sessions` fields of
  the timer record. The spread copy they return is not modelled.
- The timer keeps `currentTask` in the status during breaks, because
  `startBreak` spreads the old status. The model follows the code.
- `playSound` in `TimerStatus` and the panel's `silentActions`,
  `oneMinuteWarning` and `customWarningMinutes` settings are left out. No
  code in the core reads them.
- Settings.NumberOr and Settings.FlagOr: a configuration value of the
  wrong type is read as the default. VS Code would hand back the stored
  value whatever its type.
- JsText.ToLower, JsText.ToUpper: only ASCII letters change case.
  JavaScript also maps other Unicode letters.
- JsText.NumberToString: integers only. JavaScript numbers are doubles,
  and fractional values never arise in the core's text.
- JsText.ParseIntOfDigitsIn, JsText.ParseIntOfNegativeIn: decimal input
  only. `ParseInt` itself also reads a leading `0x` as hexadecimal, but no
  lemma states that case.
- NodePath.Extname, NodePath.Basename: POSIX paths only. Backslash
  separators on Windows are not modelled.
- TimeText.FormatTimeReadsBack: stated for non-negative seconds. A negative
  time is drawn by the same rule, and TimeText.NegativeTimeText shows one
  example.
- WebviewScript.Display: the read-back is stated for non-negative times
  only, for the same reason.
- PomodoroTimer.Start: the status bar is not refreshed. The source
  refreshes it only on the next tick, so the model keeps the stale bar.
- PomodoroTimer.Resume: likewise leaves the bar stale until the next tick.
- Configuration scopes. VS Code layers user, workspace and folder
  settings. The panel writes to the user (Global) scope and does not await
  the write. The model has one flat configuration map, so
  Settings.ReadAfterWrite, WebviewProvider.SettingsRoundTrip and
  WebviewScript.AdjustReachesHost hold only while no workspace or folder
  value shadows the key.
- Bookmarks.ScanLinesSound, Bookmarks.ScanLinesOrdered,
  Bookmarks.ScanLinesComplete: these are stated for any per-line scanner
  that numbers its bookmarks by the line number it is given.
  Bookmarks.FileScannerNumbers shows that the file scanner does.

## Findings

| source | as written | input that shows it | evidently intended | confidence | as-written member | corrected member |
|---|---|---|---|---|---|---|
| src/pomodoroTimer.ts:153-157 | After a break runs out, "Continuar" calls `startPomodoro`. The state is still `Running`, because `onTimerFinished` clears the interval but not the state, so the call only warns "Ya hay un pomodoro en ejecución". | A break with a current task runs out with notifications on, and the user answers "Continuar". The timer then sits at 00:00, running, with no interval. | The next work session starts on the current task. | medium, not executed | TimerLaws.ContinueRefused | TimerLaws.ContinueStartsWorkFixed |
| src/pomodoroTimer.ts:184 | `startBreak` calls `startTimer`, which overwrites the interval handle without clearing the old interval. | Work runs out with notifications on. Before answering, the user stops and starts a new pomodoro. Later in that session the user answers "Iniciar Descanso" to the old prompt, then stops. The lost interval keeps firing and counts another pomodoro. | At most one interval is live, and stop stops it. | medium, not executed | TimerLaws.StopStartLateBreakLeaks | TimerLaws.StopStartLateBreakFixed |
| src/pomodoroTimer.ts:109 | The timer reads the notifications switch under the key `notifications`. The panel writes and reads it under `showNotifications` (src/pomodoroWebviewProvider.ts:233). | The panel switches notifications off. The timer still reads its default `true` and keeps prompting. | The switch in the panel controls the timer's prompts. | high, not executed | Settings.SwitchOffIgnored | Settings.PanelSwitchHeardFixed |
| media/script.js:406-412 | The initial status is merged into the panel's timer with `Object.assign`. The host's field names (`state`, `remainingTime`, `sessionType`) are not the panel's (`isRunning`, `isPaused`, `timeRemaining`, `mode`), so only `completedPomodoros` lands. | The panel is opened while a pomodoro is paused at 10:00 with two done. It shows START and 25:00. | The initial status is mapped like a `timerUpdate`. | high, not executed | WebviewScript.PausedTimerShownIdle | WebviewScript.InitialDataShownFixed |
| media/script.js:422 | Each `timerUpdate` sets the total to the new remaining time plus the old elapsed time. The elapsed time starts at 0, so the total always equals the remaining time. | The first tick of a 25-minute session, with 1499 seconds left, sets the total to 1499 rather than keeping 1500. | The session's total is kept, as the line's own comment says, so the ring advances. | high, not executed | WebviewScript.RingNeverMoves | WebviewScript.TickAdvancesRingFixed |
