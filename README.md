# Scheduled tasks of a game-server supervisor, in Dafny

This project models the task-scheduling core of a supervisor for a single ARK
game server (`src/tasks.py`). Each task is ticked by an outer loop. On a tick the task
samples the clock and sends a chat warning for each configured threshold (minutes before
the due time) it has newly crossed. When the task is due it runs its variant's
action, then clears its warned set and advances its due time. The variants are
a health check that restarts a server that is not running, an announcement, the
stale-server restart (the server has been empty for a configured number of
hours), an update check that warns and waits before checking, a routine
restart, and a wild-dino cleanup.

Time is integer seconds. The effects of the tasks on the outside world are
appended, in order, to a record kept on the shared server object. These are chat
messages, sleeps, server starts and restarts, and the cleanup command. The
answers to the outside queries (`get_active_players`,
`does_server_need_update`, `is_server_running`) come in as a `Probe` value.

Files:

- `outside.dfy` (module `Outside`): the `Server` class with the shared
  empty-since timestamp `firstEmpty` and the effect record `effects`, the
  `Effect` and `Probe` datatypes.
- `warnings.dfy` (module `Warnings`): the descending sort of the thresholds,
  the thresholds one pass of `_warn_before_task` announces (`Announced`), and
  the effects of `_warn_then_wait`, with their lemmas.
- `stale.dfy` (module `Stale`): the stale-server rule for one due tick
  (`StaleStep`) and over a run of due ticks (`StaleRun`, `Fires`).
- `tasks.dfy` (module `Tasks`): the `Task` class. Its methods follow the
  source's methods one for one and are proved against the functions above.
  `RunOutcome` says what each variant's `_run_task` does.

## Model

| member | source | states |
|---|---|---|
| `Warnings.SortDescending` | src/tasks.py:29 | the warning list is put in descending order with the same elements and multiplicities |
| `Warnings.SortedDescUnique` | src/tasks.py:29 | two descending sequences with the same elements are equal, so `SortDescending` gives exactly what `sorted(..., reverse=True)` gives |
| `Warnings.AnnouncedPrefixExactly` | src/tasks.py:45-50 | after the loop has taken the first n thresholds, the warned set is the old one plus the announced ones, and the announced ones are exactly those among the n that are crossed and were not already warned, with none twice |
| `Warnings.AnnouncedExactly` | src/tasks.py:45-53 | a pass announces a threshold if and only if it is in the list, `minutes_until <= threshold`, and it was not warned yet; no threshold is announced twice |
| `Warnings.WarnedAfterPass` | src/tasks.py:45-50 | after a whole pass the warned set is the old one plus the announced thresholds, and it still holds only thresholds from the list |
| `Warnings.AnnouncedDescending` | src/tasks.py:45-53 | with descending thresholds, the warnings of one pass go out in strictly descending order |
| `Warnings.NoRepeatWithinCycle` | src/tasks.py:46-49 | a threshold already warned is not announced again before the set is cleared, however the remaining time moves |
| `Warnings.AnnounceIdempotent` | src/tasks.py:45-50 | a second pass at the same current time adds no threshold and sends no message |
| `Warnings.AnnouncedNothing` | src/tasks.py:45-50 | once every crossed threshold is in the warned set, a pass announces nothing |
| `Warnings.ThirtyTenFiveScenario` | src/tasks.py:40-53 | thresholds [30, 10, 5] with ticks one minute apart: warnings go out at 30, 10 and 5 minutes left, and nothing in between |
| `Warnings.WarningEffects` | src/tasks.py:51-53 | one chat message per announced threshold: entry i is the warning for the i-th announced threshold |
| `Warnings.WarnThenWaitEffects` | src/tasks.py:56-63 | round i of `_warn_then_wait` is the warning for the i-th threshold followed by the sleep until the next threshold (or the whole last threshold) |
| `Warnings.WarnThenWaitPrefix` | src/tasks.py:56-63 | later rounds only append; round m ends by sleeping its own gap |
| `Warnings.WarnThenWaitWarnsEach` | src/tasks.py:56-59 | `_warn_then_wait` warns once per threshold, in the list's order |
| `Warnings.WarnThenWaitPartialSleep` | src/tasks.py:60-61 | the sleeps before the last round telescope to the distance from the first threshold to the next one still to come |
| `Warnings.WarnThenWaitTotalSleep` | src/tasks.py:56-63 | the sleeps add up to `warning_times[0] * 60` seconds, or 0 for an empty list |
| `Warnings.WarnThenWaitGapsNonNegative` | src/tasks.py:60-61 | with descending thresholds, no sleep between two warnings is negative |
| `Stale.StaleStep` | src/tasks.py:119-137 | zero players and no timestamp: record now, no restart; players present: clear the timestamp, no restart; restart exactly when there are zero players and `now - first_empty >= threshold` |
| `Stale.TimerKeptWhileEmpty` | src/tasks.py:120-127 | while every due tick sees an empty server, a running timer keeps its start |
| `Stale.StreakStartsTimer` | src/tasks.py:119-135 | the timer of an empty streak starts at the streak's first due tick |
| `Stale.StaleFiresAfterThreshold` | src/tasks.py:119-131 | in an empty streak, the first tick only starts the timer; a later tick restarts the server if and only if the time since the first tick reaches the threshold |
| `Stale.PlayersResetTimer` | src/tasks.py:132-135 | a tick that sees players never restarts, and the next empty tick starts the timer afresh |
| `Stale.StaleKeepsFiring` | src/tasks.py:124-131 | the code does not clear the timestamp when it restarts, so every later empty due tick restarts again |
| `Tasks.RunOutcome` | src/tasks.py:89-185 | each `_run_task`: at most one effect, and the result is true exactly when that effect starts or restarts the server; health check true if and only if the server is not running; announcement and dino cleanup always false; update true if and only if an update is needed; routine restart always true; stale as `StaleStep`; only the stale task touches the shared timestamp |
| `Tasks.Task.constructor` | src/tasks.py:21-33 | thresholds sorted descending (same multiset), warned set empty, description and warnings default to "" and [], the due time after the start time; the stale task's threshold (set at src/tasks.py:117) is the configured hours × 3600 seconds, and 0 when absent |
| `Tasks.Task.SetNextTime` | src/tasks.py:72 | the due time is advanced past the current time |
| `Tasks.Task.WarnBeforeTask` | src/tasks.py:35-53 | an empty threshold list changes nothing; otherwise the warned set gains exactly the announced thresholds and the record gains one warning for each, in order, largest first and none twice; the thresholds stay descending and only listed thresholds are ever warned |
| `Tasks.Task.WarnThenWait` | src/tasks.py:55-63 | the record gains exactly the warn-then-wait rounds for every threshold; its warnings name every threshold once, largest first |
| `Tasks.Task.ResetSentWarnings` | src/tasks.py:65-67 | the warned set is emptied |
| `Tasks.Task.Cleanup` | src/tasks.py:69-72 | the warned set is emptied and the due time moves past the current time |
| `Tasks.Task.UpdateLastCheck` | src/tasks.py:136 | the last-check time becomes the current tick's time |
| `Tasks.Task.RunTask` | src/tasks.py:89-185 | the variant's action has exactly the result, effects and new timestamp of `RunOutcome` |
| `Tasks.Task.ExecuteWhenDue` | src/tasks.py:74-82 | the tick's warnings go out largest first, none twice; not due: false, due time unchanged, no action, only the warnings; due: the warnings, then the action, whose result is returned, then an empty warned set and a due time in the future |
| `Tasks.Task.ExecuteWarnThenCheck` | src/tasks.py:153-161 | not due: false and nothing changes (no warnings); due: the full warn-then-wait sequence, then the update check, whose result is returned, then cleanup |
| `Tasks.Task.ExecuteEveryTick` | src/tasks.py:97-98 | the health check runs its action on every tick and leaves the clock, due time and warnings alone |
| `Tasks.Task.Execute` | src/tasks.py:74-161 | a tick goes to the variant's own `execute` |

## Reading of the code

In several places `src/tasks.py` cannot run as written. The model takes the
evidently intended behaviour in each:

- `HandleEmptyServerRestart._run_task` reads `self.current_time` (src/tasks.py:123,125).
  No task has that attribute. The model uses the tick's sampled time, `self.time.current_time`.
- `self.current_time - self.server.first_empty_server_time >= self.threshold`
  compares a time difference with a number of seconds. The model compares the
  elapsed seconds with the threshold in seconds.
- `_update_last_check` is called (src/tasks.py:130,136,147,172,184) but never
  defined. The model keeps a per-task `lastCheck` and sets it to the tick's time.
- The variants call `super().__init__(server, current_time)`, but
  `Task.__init__` takes only `server`. The model's constructor takes the start
  time and seeds the tick clock with it.
- `CheckServerRunningAndRestart` has no `task_name` to look its configuration up by.
  The model constructs it like any other task.

Where the code runs as written, the model reads it as follows:

- `minutes_until_task = seconds_until_next / 60` (src/tasks.py:41) is Python's true
  division, so the test `minutes_until_task <= w` is exactly `seconds_until_next <= w * 60`.
- The stale restart does not reset `first_empty_server_time` (src/tasks.py:128-131),
  so while the server stays empty every later due tick restarts it again
  (`Stale.StaleKeepsFiring`). Only code outside `src/tasks.py` (for instance
  `ArkServer.restart`) could reset it, and that code is not part of this model.
- The update task runs its whole blocking warning sequence whenever it is due,
  before it checks for an update (src/tasks.py:156-158).

## Left out

- `TimeTracker` (`time_operations`) is not part of this model. Two of its members are assumed: `is_time_to_execute` is `currentTime >= nextTime` (`Tasks.Task.IsTimeToExecute`), and `seconds_until_next` is `nextTime - currentTime`, negative once the due time has passed (`Tasks.Task.SecondsUntilNext`). Every due or not-due case of the tick contracts, and every warning decision, rests on these two definitions.
- `Tasks.Task.SetNextTime`: promises only that the new due time is after the current time. `TimeTracker` (`time_operations`) is not part of this model, so interval and time-of-day schedules, and the spacing of successive due times, are not modelled.
- `Tasks.Task.constructor`: promises only that the first due time is after the start time, for the same reason.
- Real clock reads and sleeping: the time is a parameter of each tick, and a sleep is a `Slept` entry in the record. The clock does not advance during a sleep, as in the source, where the tick time is sampled once.
- Message text and `display_next_time`/`display`: a warning is recorded by its description and minutes, and an announcement by its text. The formatting and the `discord_msg` channel default belong to code that is not part of this model.
- `update`, `server_operations`, `config` and `main.ArkServer` are not part of this model. Their queries are `Probe` fields and always answer. Their actions are record entries. What `ArkServer.start`/`restart` do internally is not modelled, and neither is the default of `skip_warnings` (taken as false).
- Query failures and exceptions from collaborators are not modelled.
- The base `Task._run_task` raises `NotImplementedError`. It is unreachable because every variant overrides it.
- Logging calls.
- The scheduler loop, its cadence and ordering, and any concurrency: the loop is not in the modelled file.
- `src/shell_operations.py` and `src/old/shell_operations.py`: OS process plumbing around programs the model cannot see. The `old/` copy is superseded.
- Configuration values are integers (minutes, hours). Fractional values and a negative last threshold (which would make `time.sleep` raise) are not modelled.
