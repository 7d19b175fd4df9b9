# Schedule-controlled switch: the relay state machine

A Dafny model of the firmware's `app_main`. This is an ESP32 device that drives one relay from a daily ON/OFF window once network time is available. The model covers what `app_main` does with the relay:

- **Safe start.** The control pin is reset, made an output and driven to level 0 before anything else happens.
- **Sync gate.** `sntp_get_sync_status` is polled until it reports `SNTP_SYNC_STATUS_COMPLETED`. No time is read and no scheduling command is issued before that.
- **Time-of-day encoding.** The sampled local hour and minute become `nowHHMM = tm_hour * 100 + tm_min`.
- **Window decision.** `relayState` is 1 exactly when `CONFIG_ON_TIME < nowHHMM < CONFIG_OFF_TIME`, and 0 otherwise.
- **Change-only emission.** `oldRelayState` starts at the sentinel -1. `gpio_set_level` is called only when the newly computed state differs from `oldRelayState`, and `oldRelayState` is updated at that point.

The firmware's loops never end. Here each of them consumes a finite trace:

- `statuses` is the sequence of sync statuses the poll would observe.
- `samples` is the sequence of `(tm_hour, tm_min)` pairs the control loop would read.

A run stops when the trace it is reading runs out. `CONFIG_ON_TIME` and `CONFIG_OFF_TIME` are the parameter `Window(onTime, offTime)`.

A run keeps one ordered event log. Each entry is a driver call (`Gpio`), a sync-status poll (`Poll`) or a clock read (`Sample`). The commands issued by the control loop are also kept as `Write(step, hhmm, level)` records: iteration, logged HHMM reading, level. The function `Trace` says what the log of a run must be. The driver calls and the clock reads are read back from the log, so "the samples that were read" is a fact about the log, not a separate counter.

Modules:

- `Clock` (`clock.dfy`): `LocalTime`, the HHMM `Encode`, its inverse `Decode`, and chronological order `Before`.
- `Schedule` (`schedule.dfy`): `Window` and the decision `RelayState`.
- `Controller` (`controller.dfy`): the specification of the control loop over a trace, and the three phases of `app_main` as methods.
  - `Emitted` is the specification function: the commands issued by the first `n` iterations.
  - `Trace` is the specification of the whole event log: safe start, then polls up to the first `Completed`, then the control iterations.
  - `AwaitSync` and `ControlLoop` are the two loops. Each appends its entries to the log.
  - `AppMain` runs the safe start, `AwaitSync` and `ControlLoop` in order.

The window is not validated, as in the source. When `onTime >= offTime`, including a window meant to cross midnight such as 22:00 to 06:00, the relay is OFF at every time. The model reproduces this and does not correct it.

## Model

| member | source | states |
|---|---|---|
| `Clock.Encode` | main/esp32-sched-controlled-switch.c:60 | for hour in [0,23] and minute in [0,59], `hour*100 + minute` lies in [0,2359], its `/ 100` is the hour and its `% 100` is the minute (it decodes back to the same time) |
| `Clock.LessIsBefore` | main/esp32-sched-controlled-switch.c:60-61 | for any integer bound and a time with a valid minute, the integer comparison with the HHMM value agrees with chronological order against the bound's decoded hour and minute, in both directions |
| `Clock.EncodeMonotone` | main/esp32-sched-controlled-switch.c:60 | on valid times, HHMM order is chronological order, and two times have equal HHMM exactly when they are the same time |
| `Schedule.RelayState` | main/esp32-sched-controlled-switch.c:61 | the level is always 0 or 1; it is 1 exactly when `onTime < now` and `now < offTime`; it is 0 at `now == onTime` and at `now == offTime`; it is 0 for every `now` when `onTime >= offTime` |
| `Schedule.OnExactlyBetween` | main/esp32-sched-controlled-switch.c:60-61 | for a valid sampled time, the relay is ON exactly when that time is strictly after the decoded ON time and strictly before the decoded OFF time |
| `Schedule.CrossingMidnightNeverOn` | main/esp32-sched-controlled-switch.c:61 | when OFF is not after ON, no valid time lies strictly inside the window, and the decision for every valid time is OFF: such a window (for example one meant to cross midnight) never switches the relay on |
| `Schedule.DaytimeWindowCases` | main/esp32-sched-controlled-switch.c:60-61 | window 08:00 to 20:00: 07:59 OFF, 08:00 OFF, 08:01 ON, 19:59 ON, 20:00 OFF, 20:01 OFF |
| `Controller.LastState` | main/esp32-sched-controlled-switch.c:56-65 | `oldRelayState` after `i` iterations: it is the sentinel -1 exactly when no iteration has run, and 0 or 1 afterwards; `ControlLoop`'s loop invariant keeps the C variable equal to it |
| `Controller.LevelAt` | main/esp32-sched-controlled-switch.c:58-61 | the level computed in iteration `i` is 0 or 1, and is 1 exactly when the encoded sample lies strictly inside the window |
| `Controller.Commands` | main/esp32-sched-controlled-switch.c:64 | each issued command becomes one `gpio_set_level` call with its level, in the same order |
| `Controller.EmittedSound` | main/esp32-sched-controlled-switch.c:62-66 | every issued command comes from an earlier iteration whose level differed from the previously applied one, and carries that iteration's level and HHMM reading; commands are in strictly increasing iteration order, so no iteration issues two |
| `Controller.EmittedComplete` | main/esp32-sched-controlled-switch.c:62-66 | every iteration whose level differs from the previously applied one issues a command |
| `Controller.IssuedExactlyAtChanges` | main/esp32-sched-controlled-switch.c:62-66 | a command is issued in iteration `i` if and only if the level computed there differs from the level applied before it |
| `Controller.RepeatIssuesNothing` | main/esp32-sched-controlled-switch.c:62-66 | an iteration that computes the same level as the previous one issues no command |
| `Controller.FirstIterationIssues` | main/esp32-sched-controlled-switch.c:56-64 | the first iteration always issues a command with its own level, even when that level is 0, because the sentinel -1 differs from both levels |
| `Controller.LastWriteIsLatestLevel` | main/esp32-sched-controlled-switch.c:62-65 | after at least one iteration, the last command issued carries the level of the latest iteration, which is `oldRelayState` |
| `Controller.PinFollowsSchedule` | main/esp32-sched-controlled-switch.c:14-66 | after the safe start and `n` iterations, the pin was last commanded to the schedule's level for the latest sample, or to 0 if no iteration has run |
| `Controller.EveningTransition` | main/esp32-sched-controlled-switch.c:57-66 | window 08:00 to 20:00, samples 19:59 then 20:01: exactly two commands, ON at 1959 then OFF at 2001 |
| `Controller.Emitted` | main/esp32-sched-controlled-switch.c:56-66 | the commands issued by the first `n` iterations of the loop, as the reference for `ControlLoop`; its contract bounds the total by `n`. That each iteration issues at most one command follows from the strictly increasing steps in `EmittedSound`, and the other lemmas above state what the commands are |
| `Controller.ChangesAtIsChangeFromApplied` | main/esp32-sched-controlled-switch.c:62-65 | an iteration changes the level exactly when its level differs from the level of the last command issued before it (-1 if none was), i.e. the comparison with `oldRelayState` is a comparison with the applied state |
| `Controller.WaitsFor` | main/esp32-sched-controlled-switch.c:42-45 | the number of polls before the first `Completed`: all of them are not `Completed`; it is less than the number of statuses exactly when `Completed` occurs, and then the next status is `Completed` |
| `Controller.PollEvents` | main/esp32-sched-controlled-switch.c:42 | each status read by the wait becomes one `Poll` entry of the log, in order, and nothing else is logged per read |
| `Controller.PollsCarryNoCallsOrReads` | main/esp32-sched-controlled-switch.c:42-45 | the sync wait makes no driver call and reads no clock |
| `Controller.LoopCallsAreCommands` | main/esp32-sched-controlled-switch.c:57-66 | the driver calls the control iterations make are exactly one `gpio_set_level` per issued command, with its level, in order |
| `Controller.LoopReadsSamples` | main/esp32-sched-controlled-switch.c:57-59 | the first `n` iterations read exactly the first `n` clock samples, in order |
| `Controller.LoopEvents` | main/esp32-sched-controlled-switch.c:57-66 | `n` iterations log `n` entries plus one per issued command; `LoopCallsAreCommands` and `LoopReadsSamples` show that its driver calls are exactly the issued commands and its clock reads exactly the first `n` samples, and `LoopCommandFollowsRead` gives the order within an iteration |
| `Controller.LoopCommandFollowsRead` | main/esp32-sched-controlled-switch.c:58-64 | in the control iterations' log every driver call comes immediately after a clock read, and sets the level the schedule gives that reading: each iteration reads the time first and only then commands the pin |
| `Controller.Trace` | main/esp32-sched-controlled-switch.c:14-66 | the log of a bounded run: three safe-start entries, then, when `Completed` occurs, the polls up to and including the first one, a read per sample and an entry per issued command, and otherwise one poll per status; `TraceGated` and `TraceProjections` state its order and contents, and `AppMain` produces it |
| `Controller.TraceProjections` | main/esp32-sched-controlled-switch.c:14-66 | the driver calls of a run are the safe start followed, only when `Completed` occurs, by the schedule's commands; the clock reads are all samples when `Completed` occurs and none otherwise |
| `Controller.TraceGated` | main/esp32-sched-controlled-switch.c:14-66 | the log starts with the three safe-start calls, so every poll and clock read comes after them; every clock read and every later driver call comes after a `Completed` poll |
| `Controller.NeverSyncedStaysOff` | main/esp32-sched-controlled-switch.c:14-45 | for every status trace without `Completed` and any samples, the log is exactly the safe start followed by one poll per status, and the pin is left at 0 |
| `Controller.AwaitSync` | main/esp32-sched-controlled-switch.c:41-45 | the wait ends exactly when `Completed` occurs in the status trace; it stops at the first `Completed` (`waits` is `WaitsFor`), all earlier polls were not `Completed`, if none occurs every poll was spent waiting, and it appends exactly the statuses it polled, in order, to the log |
| `Controller.ControlLoop` | main/esp32-sched-controlled-switch.c:56-68 | the loop issues exactly the commands of `Emitted` and appends, per iteration, a clock read and then any command to the log; it ends with `oldRelayState` equal to the latest computed level (-1 if it never ran); commands are issued exactly at the iterations whose level changed; once it has run, the last level written equals `oldRelayState` |
| `Controller.AppMain` | main/esp32-sched-controlled-switch.c:12-69 | the run's log is `Trace`: the pin is reset, made an output and set to 0 before any poll or clock read, and no clock read or scheduling command comes before a `Completed` poll. The run synchronizes exactly when `Completed` occurs in the trace. Without sync, no sample is read, no command is issued, the safe-start calls are the only driver calls and the pin stays at 0. With sync, every sample is read in order, the driver calls are the safe start followed by a `gpio_set_level` per change, and the pin ends at the latest scheduled level |

## Left out

- Non-volatile storage initialisation and its erase-and-retry path (main/esp32-sched-controlled-switch.c:19-25): storage I/O through foreign calls. It drives no output itself; its only effect on the relay is the abort described below.
- WiFi provisioning (`wifi_prov_connect`, line 28): a network client whose code is not part of this model.
- Timezone setup, the SNTP client configuration and its protocol (lines 31-38): the model sees the client only through the sequence of sync statuses it reports.
- `time` and `localtime_r` (lines 49-51, 58-59): library calendar conversion. The model takes the resulting `(tm_hour, tm_min)` pairs as input. The single clock read after synchronization (lines 48-53) only feeds a log line and is not modelled.
- Logging and formatting (`ESP_LOGI`, `snprintf`, `strftime`, the `buf` cursor; lines 43, 46-53, 63): output only. The HHMM value that line 63 logs is kept in each `Write` record.
- `vTaskDelay` (lines 44, 67): FreeRTOS sleeps that only pace the loops. `AwaitSync` counts the waits; the samples trace stands in for the passage of time.
- `ESP_ERROR_CHECK` aborts (lines 14-16, 22, 25, 28, 64): every call it wraps is taken to succeed. The failing GPIO call, NVS erase or initialisation, or `wifi_prov_connect`, and the process abort that follows, are not modelled. An abort at lines 22, 25 or 28 happens after the safe start and before the sync wait. For the relay it looks like a run that never synchronizes: the pin stays at the safe-start level 0.
- The infinite loops themselves: each loop runs over a finite trace and stops when that trace ends. The properties cover every finite prefix of an infinite run.
- Purity of the decision (running it twice on the same reading gives the same level) holds because Dafny functions are deterministic. No separate lemma states it.
