/**
 The body of `app_main`: drive the control pin to 0, wait until network
 time is synchronized, then sample the clock once per iteration and command
 the relay only when its computed level changes.

 The firmware loops forever; here each unbounded input becomes a finite
 trace. `statuses` holds the successive results of `sntp_get_sync_status`
 and `samples` the successive local times read by the control loop. A run
 ends when the trace it is consuming runs out.
 */
module Controller {
  import opened Clock
  import opened Schedule

  /** `sntp_sync_status_t`. */
  datatype SyncStatus = Reset | Completed | InProgress

  /** The calls the switch makes on the GPIO driver for its control pin. */
  datatype GpioCall = ResetPin | SetDirectionOutput | SetLevel(level: int)

  /**
   One command issued by the control loop: the iteration it was issued in,
   the HHMM reading it was logged with, and the level written to the pin.
   */
  datatype Write = Write(step: nat, hhmm: int, level: int)

  /** One observable step of `app_main`: a driver call, a sync-status poll or a clock read. */
  datatype Event = Gpio(call: GpioCall) | Poll(status: SyncStatus) | Sample(time: LocalTime)

  /** What a bounded run of `app_main` did. */
  datatype Run = Run(
    events: seq<Event>,    // every driver call, poll and clock read, in order
    waits: nat,            // sync polls that were not yet `Completed`
    synced: bool,          // whether `Completed` was observed
    writes: seq<Write>,    // commands issued by the control loop
    relayState: int)       // `oldRelayState` when the trace ended

  /** The initial value of `oldRelayState`: differs from both levels. */
  const UNKNOWN: int := -1

  /** The three driver calls that put the pin into a known-safe state. */
  const SAFE_START: seq<GpioCall> := [ResetPin, SetDirectionOutput, SetLevel(OFF)]

  /** The same three calls as the first entries of the event log. */
  const SAFE_START_EVENTS: seq<Event> := [Gpio(ResetPin), Gpio(SetDirectionOutput), Gpio(SetLevel(OFF))]

  // ---------------------------------------------------------------------
  // Specification of the control loop over a trace of samples
  // ---------------------------------------------------------------------

  /** The level computed in iteration `i`. */
  function LevelAt(w: Window, samples: seq<LocalTime>, i: nat): (s: int)
    requires i < |samples|
    ensures s == OFF || s == ON
    ensures s == ON <==> w.onTime < Encode(samples[i]) < w.offTime
  {
    RelayState(w, Encode(samples[i]))
  }

  /** `oldRelayState` at the start of iteration `i` (after `i` iterations). */
  function LastState(w: Window, samples: seq<LocalTime>, i: nat): (s: int)
    requires i <= |samples|
    ensures s == UNKNOWN <==> i == 0
    ensures 0 < i ==> s == OFF || s == ON
  {
    if i == 0 then UNKNOWN else LevelAt(w, samples, i - 1)
  }

  /** Iteration `i` computes a level different from the one last applied. */
  predicate ChangesAt(w: Window, samples: seq<LocalTime>, i: nat)
    requires i < |samples|
  {
    LevelAt(w, samples, i) != LastState(w, samples, i)
  }

  /** The commands issued by the first `n` iterations. */
  function Emitted(w: Window, samples: seq<LocalTime>, n: nat): (e: seq<Write>)
    requires n <= |samples|
    ensures |e| <= n
    decreases n
  {
    if n == 0 then []
    else
      Emitted(w, samples, n - 1) +
      (if ChangesAt(w, samples, n - 1)
       then [Write(n - 1, Encode(samples[n - 1]), LevelAt(w, samples, n - 1))]
       else [])
  }

  /** Some command in `writes` was issued in iteration `i`. */
  predicate IssuedAt(writes: seq<Write>, i: nat) {
    exists j :: 0 <= j < |writes| && writes[j].step == i
  }

  /** The driver calls that carry out the control loop's commands. */
  function Commands(writes: seq<Write>): (calls: seq<GpioCall>)
    ensures |calls| == |writes|
    ensures forall j :: 0 <= j < |writes| ==> calls[j] == SetLevel(writes[j].level)
  {
    if writes == [] then [] else Commands(writes[..|writes| - 1]) + [SetLevel(writes[|writes| - 1].level)]
  }

  /** The level the pin was last commanded to, or UNKNOWN before any `SetLevel`. */
  function PinLevel(calls: seq<GpioCall>): (level: int)
    decreases |calls|
  {
    if calls == [] then UNKNOWN
    else if calls[|calls| - 1].SetLevel? then calls[|calls| - 1].level
    else PinLevel(calls[..|calls| - 1])
  }

  // ---------------------------------------------------------------------
  // Properties of the control loop
  // ---------------------------------------------------------------------

  /** `c` is what iteration `c.step`, one of the first `n`, issues when its level changes. */
  predicate IssuedBy(w: Window, samples: seq<LocalTime>, n: nat, c: Write)
    requires n <= |samples|
  {
    c.step < n && ChangesAt(w, samples, c.step) &&
    c.level == LevelAt(w, samples, c.step) && c.hhmm == Encode(samples[c.step])
  }

  /**
   Every command was issued in one of the first `n` iterations, in an
   iteration whose level changed, with that iteration's level and HHMM
   reading; and the commands are in strictly increasing iteration order, so
   no iteration issues two.
   */
  lemma {:induction false} EmittedSound(w: Window, samples: seq<LocalTime>, n: nat)
    requires n <= |samples|
    ensures forall j :: 0 <= j < |Emitted(w, samples, n)| ==> IssuedBy(w, samples, n, Emitted(w, samples, n)[j])
    ensures forall j, k :: 0 <= j < k < |Emitted(w, samples, n)| ==>
              Emitted(w, samples, n)[j].step < Emitted(w, samples, n)[k].step
  {
    if n > 0 {
      EmittedSound(w, samples, n - 1);
      var before := Emitted(w, samples, n - 1);
      forall j | 0 <= j < |before| ensures IssuedBy(w, samples, n, before[j]) {
        assert IssuedBy(w, samples, n - 1, before[j]);
      }
    }
  }

  /** Every iteration whose level changed issued a command. */
  lemma {:induction false} EmittedComplete(w: Window, samples: seq<LocalTime>, n: nat, i: nat)
    requires i < n <= |samples|
    requires ChangesAt(w, samples, i)
    ensures IssuedAt(Emitted(w, samples, n), i)
  {
    var e := Emitted(w, samples, n);
    var before := Emitted(w, samples, n - 1);
    if i == n - 1 {
      assert e[|e| - 1].step == i;
    } else {
      EmittedComplete(w, samples, n - 1, i);
      var j :| 0 <= j < |before| && before[j].step == i;
      assert e[j] == before[j];
    }
  }

  /**
   Change-only emission: over the first `n` iterations a command is issued
   in iteration `i` exactly when the level computed there differs from the
   level applied before it.
   */
  lemma {:induction false} IssuedExactlyAtChanges(w: Window, samples: seq<LocalTime>, n: nat, i: nat)
    requires i < n <= |samples|
    ensures IssuedAt(Emitted(w, samples, n), i) <==> ChangesAt(w, samples, i)
  {
    var e := Emitted(w, samples, n);
    if ChangesAt(w, samples, i) {
      EmittedComplete(w, samples, n, i);
    }
    if IssuedAt(e, i) {
      EmittedSound(w, samples, n);
      var j :| 0 <= j < |e| && e[j].step == i;
      assert IssuedBy(w, samples, n, e[j]);
    }
  }

  /** A repeated level issues nothing: equal consecutive levels after the first iteration. */
  lemma {:induction false} RepeatIssuesNothing(w: Window, samples: seq<LocalTime>, i: nat)
    requires 0 < i < |samples|
    requires LevelAt(w, samples, i) == LevelAt(w, samples, i - 1)
    ensures !IssuedAt(Emitted(w, samples, |samples|), i)
  {
    IssuedExactlyAtChanges(w, samples, |samples|, i);
  }

  /**
   The first iteration always issues exactly one command, even when the
   level it computes is OFF, because UNKNOWN differs from both levels.
   */
  lemma {:induction false} FirstIterationIssues(w: Window, samples: seq<LocalTime>, n: nat)
    requires 0 < n <= |samples|
    ensures |Emitted(w, samples, n)| > 0
    ensures Emitted(w, samples, n)[0] == Write(0, Encode(samples[0]), LevelAt(w, samples, 0))
  {
    if n > 1 {
      FirstIterationIssues(w, samples, n - 1);
      assert Emitted(w, samples, n)[0] == Emitted(w, samples, n - 1)[0];
    }
  }

  /**
   After every iteration, the last command issued carries the level of the
   latest iteration: once the loop has run, `oldRelayState` is also the level
   last written to the pin.
   */
  lemma {:induction false} LastWriteIsLatestLevel(w: Window, samples: seq<LocalTime>, n: nat)
    requires 0 < n <= |samples|
    ensures |Emitted(w, samples, n)| > 0
    ensures Emitted(w, samples, n)[|Emitted(w, samples, n)| - 1].level == LastState(w, samples, n)
  {
    if n > 1 && !ChangesAt(w, samples, n - 1) {
      LastWriteIsLatestLevel(w, samples, n - 1);
    }
  }

  /** The pin level after a driver call sequence that ends with more calls. */
  lemma PinLevelAppend(calls: seq<GpioCall>, more: seq<GpioCall>)
    requires more != [] && more[|more| - 1].SetLevel?
    ensures PinLevel(calls + more) == more[|more| - 1].level
  {
  }

  /**
   After the safe start and `n` control iterations the pin holds the level
   the schedule gives for the latest sample, or 0 if no iteration has run.
   */
  lemma {:induction false} PinFollowsSchedule(w: Window, samples: seq<LocalTime>, n: nat)
    requires n <= |samples|
    ensures PinLevel(SAFE_START + Commands(Emitted(w, samples, n))) ==
              if n == 0 then OFF else LevelAt(w, samples, n - 1)
  {
    var e := Emitted(w, samples, n);
    if n == 0 {
      assert SAFE_START + Commands(e) == SAFE_START;
    } else {
      LastWriteIsLatestLevel(w, samples, n);
      PinLevelAppend(SAFE_START, Commands(e));
    }
  }

  /** The worked case 19:59 then 20:01 in the window 08:00 to 20:00: ON, then OFF. */
  lemma EveningTransition()
    ensures Emitted(Window(800, 2000), [LocalTime(19, 59), LocalTime(20, 1)], 2) ==
              [Write(0, 1959, ON), Write(1, 2001, OFF)]
  {
  }

  /** The level last applied by a sequence of commands, or UNKNOWN before any. */
  function AppliedLevel(writes: seq<Write>): (level: int) {
    if writes == [] then UNKNOWN else writes[|writes| - 1].level
  }

  /**
   The emission test in terms of what was applied: iteration `i` changes the
   level exactly when its level differs from the level of the last command
   issued before it (UNKNOWN if there was none).
   */
  lemma {:induction false} ChangesAtIsChangeFromApplied(w: Window, samples: seq<LocalTime>, i: nat)
    requires i < |samples|
    ensures ChangesAt(w, samples, i) <==> LevelAt(w, samples, i) != AppliedLevel(Emitted(w, samples, i))
  {
    if i > 0 {
      LastWriteIsLatestLevel(w, samples, i);
    }
  }

  // ---------------------------------------------------------------------
  // The event log of a run
  // ---------------------------------------------------------------------

  /** The number of polls before the first `Completed`, or all of them if none is. */
  function WaitsFor(statuses: seq<SyncStatus>): (n: nat)
    ensures n <= |statuses|
    ensures forall k :: 0 <= k < n ==> statuses[k] != Completed
    ensures n < |statuses| <==> Completed in statuses
    ensures n < |statuses| ==> statuses[n] == Completed
  {
    if statuses == [] || statuses[0] == Completed then 0 else 1 + WaitsFor(statuses[1..])
  }

  /** The log entries of polling `ss` in order. */
  function PollEvents(ss: seq<SyncStatus>): (es: seq<Event>)
    ensures |es| == |ss|
    ensures forall i :: 0 <= i < |ss| ==> es[i] == Poll(ss[i])
    decreases |ss|
  {
    if ss == [] then [] else PollEvents(ss[..|ss| - 1]) + [Poll(ss[|ss| - 1])]
  }

  /** The log entries of the first `n` control iterations: a clock read, then a command if the level changed. */
  function LoopEvents(w: Window, samples: seq<LocalTime>, n: nat): (es: seq<Event>)
    requires n <= |samples|
    ensures |es| == n + |Emitted(w, samples, n)|
    decreases n
  {
    if n == 0 then []
    else
      LoopEvents(w, samples, n - 1) + [Sample(samples[n - 1])] +
      (if ChangesAt(w, samples, n - 1) then [Gpio(SetLevel(LevelAt(w, samples, n - 1)))] else [])
  }

  /**
   The event log of a bounded run: the safe start, then the polls up to and
   including the first `Completed` (all of them if none is), then, only after
   a `Completed`, the control iterations.
   */
  function Trace(w: Window, statuses: seq<SyncStatus>, samples: seq<LocalTime>): (es: seq<Event>)
    ensures |es| == 3 + (if Completed in statuses
                         then WaitsFor(statuses) + 1 + |samples| + |Emitted(w, samples, |samples|)|
                         else |statuses|)
  {
    if Completed in statuses
    then SAFE_START_EVENTS + PollEvents(statuses[..WaitsFor(statuses) + 1]) + LoopEvents(w, samples, |samples|)
    else SAFE_START_EVENTS + PollEvents(statuses)
  }

  /** A `Completed` poll occurs in the log before position `k`. */
  predicate CompletedBefore(es: seq<Event>, k: nat) {
    exists p :: 0 <= p < k && p < |es| && es[p] == Poll(Completed)
  }

  /** The driver calls of a log, in order. */
  function GpioCalls(es: seq<Event>): (calls: seq<GpioCall>)
    decreases |es|
  {
    if es == [] then []
    else GpioCalls(es[..|es| - 1]) + (if es[|es| - 1].Gpio? then [es[|es| - 1].call] else [])
  }

  /** The clock reads of a log, in order. */
  function Samples(es: seq<Event>): (ts: seq<LocalTime>)
    decreases |es|
  {
    if es == [] then []
    else Samples(es[..|es| - 1]) + (if es[|es| - 1].Sample? then [es[|es| - 1].time] else [])
  }

  /** A log makes no driver call exactly when it has no `Gpio` entry. */
  lemma {:induction false} NoCallsWithoutGpio(es: seq<Event>)
    ensures GpioCalls(es) == [] <==> forall k :: 0 <= k < |es| ==> !es[k].Gpio?
    decreases |es|
  {
    if es != [] {
      NoCallsWithoutGpio(es[..|es| - 1]);
    }
  }

  /** A log reads no clock exactly when it has no `Sample` entry. */
  lemma {:induction false} NoReadsWithoutSample(es: seq<Event>)
    ensures Samples(es) == [] <==> forall k :: 0 <= k < |es| ==> !es[k].Sample?
    decreases |es|
  {
    if es != [] {
      NoReadsWithoutSample(es[..|es| - 1]);
    }
  }

  /** Reading the driver calls back from a log distributes over concatenation. */
  lemma {:induction false} GpioCallsAppend(a: seq<Event>, b: seq<Event>)
    ensures GpioCalls(a + b) == GpioCalls(a) + GpioCalls(b)
    decreases |b|
  {
    if b == [] {
      assert a + b == a;
    } else {
      assert (a + b)[..|a + b| - 1] == a + b[..|b| - 1];
      GpioCallsAppend(a, b[..|b| - 1]);
    }
  }

  /** Reading the clock reads back from a log distributes over concatenation. */
  lemma {:induction false} SamplesAppend(a: seq<Event>, b: seq<Event>)
    ensures Samples(a + b) == Samples(a) + Samples(b)
    decreases |b|
  {
    if b == [] {
      assert a + b == a;
    } else {
      assert (a + b)[..|a + b| - 1] == a + b[..|b| - 1];
      SamplesAppend(a, b[..|b| - 1]);
    }
  }

  /** Polling issues no driver call and reads no clock. */
  lemma {:induction false} PollsCarryNoCallsOrReads(ss: seq<SyncStatus>)
    ensures GpioCalls(PollEvents(ss)) == [] && Samples(PollEvents(ss)) == []
    decreases |ss|
  {
    if ss != [] {
      PollsCarryNoCallsOrReads(ss[..|ss| - 1]);
      GpioCallsAppend(PollEvents(ss[..|ss| - 1]), [Poll(ss[|ss| - 1])]);
      SamplesAppend(PollEvents(ss[..|ss| - 1]), [Poll(ss[|ss| - 1])]);
    }
  }

  /** The driver calls and clock reads of a one-entry log. */
  lemma OneEventProject(e: Event)
    ensures GpioCalls([e]) == (if e.Gpio? then [e.call] else [])
    ensures Samples([e]) == (if e.Sample? then [e.time] else [])
  {
  }

  /** One control iteration's log entries: a clock read, then at most one `SetLevel`. */
  lemma IterationProject(prev: seq<Event>, t: LocalTime, cmd: seq<Event>, level: int)
    requires cmd == [] || cmd == [Gpio(SetLevel(level))]
    ensures GpioCalls(prev + [Sample(t)] + cmd) == GpioCalls(prev) + (if cmd == [] then [] else [SetLevel(level)])
    ensures Samples(prev + [Sample(t)] + cmd) == Samples(prev) + [t]
  {
    GpioCallsAppend(prev, [Sample(t)]);
    GpioCallsAppend(prev + [Sample(t)], cmd);
    SamplesAppend(prev, [Sample(t)]);
    SamplesAppend(prev + [Sample(t)], cmd);
    OneEventProject(Sample(t));
    OneEventProject(Gpio(SetLevel(level)));
  }

  /** Appending at most one command appends at most one driver call. */
  lemma CommandsStep(before: seq<Write>, tail: seq<Write>)
    requires |tail| <= 1
    ensures Commands(before + tail) == Commands(before) + (if tail == [] then [] else [SetLevel(tail[0].level)])
  {
  }

  /** The first `n` control iterations make exactly the driver calls of the commands they issue. */
  lemma {:induction false} LoopCallsAreCommands(w: Window, samples: seq<LocalTime>, n: nat)
    requires n <= |samples|
    ensures GpioCalls(LoopEvents(w, samples, n)) == Commands(Emitted(w, samples, n))
    decreases n
  {
    if n > 0 {
      LoopCallsAreCommands(w, samples, n - 1);
      var level := LevelAt(w, samples, n - 1);
      var changes := ChangesAt(w, samples, n - 1);
      var cmd := if changes then [Gpio(SetLevel(level))] else [];
      var tail := if changes then [Write(n - 1, Encode(samples[n - 1]), level)] else [];
      IterationProject(LoopEvents(w, samples, n - 1), samples[n - 1], cmd, level);
      CommandsStep(Emitted(w, samples, n - 1), tail);
    }
  }

  /** An iteration that reads the next sample extends the reads by that sample. */
  lemma ReadStep(prev: seq<Event>, cmd: seq<Event>, level: int, samples: seq<LocalTime>, n: nat)
    requires 0 < n <= |samples|
    requires cmd == [] || cmd == [Gpio(SetLevel(level))]
    requires Samples(prev) == samples[..n - 1]
    ensures Samples(prev + [Sample(samples[n - 1])] + cmd) == samples[..n]
  {
    IterationProject(prev, samples[n - 1], cmd, level);
    assert samples[..n] == samples[..n - 1] + [samples[n - 1]];
  }

  /** The first `n` control iterations read the first `n` samples, in order. */
  lemma {:induction false} LoopReadsSamples(w: Window, samples: seq<LocalTime>, n: nat)
    requires n <= |samples|
    ensures Samples(LoopEvents(w, samples, n)) == samples[..n]
    decreases n
  {
    if n > 0 {
      LoopReadsSamples(w, samples, n - 1);
      var level := LevelAt(w, samples, n - 1);
      var cmd := if ChangesAt(w, samples, n - 1) then [Gpio(SetLevel(level))] else [];
      assert LoopEvents(w, samples, n) == LoopEvents(w, samples, n - 1) + [Sample(samples[n - 1])] + cmd;
      ReadStep(LoopEvents(w, samples, n - 1), cmd, level, samples, n);
    }
  }

  /** Every driver call of `es` comes right after a clock read and sets the level the schedule gives that reading. */
  predicate CommandsFollowReads(w: Window, es: seq<Event>) {
    forall k :: 0 <= k < |es| && es[k].Gpio? ==>
      0 < k && es[k - 1].Sample? && es[k].call == SetLevel(RelayState(w, Encode(es[k - 1].time)))
  }

  /** Appending one iteration, a read and at most the command for its level, keeps every command after its read. */
  lemma IterationFollowsRead(w: Window, prev: seq<Event>, t: LocalTime, cmd: seq<Event>)
    requires CommandsFollowReads(w, prev)
    requires cmd == [] || cmd == [Gpio(SetLevel(RelayState(w, Encode(t))))]
    ensures CommandsFollowReads(w, prev + [Sample(t)] + cmd)
  {
    var es := prev + [Sample(t)] + cmd;
    forall k | 0 <= k < |es| && es[k].Gpio?
      ensures 0 < k && es[k - 1].Sample? && es[k].call == SetLevel(RelayState(w, Encode(es[k - 1].time)))
    {
      if k < |prev| {
        assert es[k] == prev[k];
        assert 0 < k;
        assert es[k - 1] == prev[k - 1];
      } else {
        assert k == |prev| + 1;
        assert es[k - 1] == Sample(t);
      }
    }
  }

  /**
   Within each control iteration the clock is read first, and the command,
   if any, follows it immediately with the level that reading gives.
   */
  lemma {:induction false} LoopCommandFollowsRead(w: Window, samples: seq<LocalTime>, n: nat)
    requires n <= |samples|
    ensures CommandsFollowReads(w, LoopEvents(w, samples, n))
    decreases n
  {
    if n > 0 {
      LoopCommandFollowsRead(w, samples, n - 1);
      var cmd := if ChangesAt(w, samples, n - 1) then [Gpio(SetLevel(LevelAt(w, samples, n - 1)))] else [];
      assert LoopEvents(w, samples, n) == LoopEvents(w, samples, n - 1) + [Sample(samples[n - 1])] + cmd;
      IterationFollowsRead(w, LoopEvents(w, samples, n - 1), samples[n - 1], cmd);
    }
  }

  /** The safe start is three driver calls and reads no clock. */
  lemma SafeStartProject()
    ensures GpioCalls(SAFE_START_EVENTS) == SAFE_START
    ensures Samples(SAFE_START_EVENTS) == []
  {
    var reset, output, off := Gpio(ResetPin), Gpio(SetDirectionOutput), Gpio(SetLevel(OFF));
    OneEventProject(reset);
    OneEventProject(output);
    OneEventProject(off);
    assert SAFE_START_EVENTS == [reset] + [output] + [off];
    GpioCallsAppend([reset], [output]);
    GpioCallsAppend([reset] + [output], [off]);
    SamplesAppend([reset], [output]);
    SamplesAppend([reset] + [output], [off]);
  }

  /** Read as driver calls and clock reads, the log of a run is the safe start, then the schedule's commands and the samples, both only after sync. */
  lemma {:induction false} TraceProjections(w: Window, statuses: seq<SyncStatus>, samples: seq<LocalTime>)
    ensures GpioCalls(Trace(w, statuses, samples)) ==
              SAFE_START + (if Completed in statuses then Commands(Emitted(w, samples, |samples|)) else [])
    ensures Samples(Trace(w, statuses, samples)) == (if Completed in statuses then samples else [])
  {
    SafeStartProject();
    if Completed in statuses {
      var polls := PollEvents(statuses[..WaitsFor(statuses) + 1]);
      var loop := LoopEvents(w, samples, |samples|);
      PollsCarryNoCallsOrReads(statuses[..WaitsFor(statuses) + 1]);
      LoopCallsAreCommands(w, samples, |samples|);
      LoopReadsSamples(w, samples, |samples|);
      GpioCallsAppend(SAFE_START_EVENTS, polls);
      GpioCallsAppend(SAFE_START_EVENTS + polls, loop);
      SamplesAppend(SAFE_START_EVENTS, polls);
      SamplesAppend(SAFE_START_EVENTS + polls, loop);
      assert samples[..|samples|] == samples;
    } else {
      PollsCarryNoCallsOrReads(statuses);
      GpioCallsAppend(SAFE_START_EVENTS, PollEvents(statuses));
      SamplesAppend(SAFE_START_EVENTS, PollEvents(statuses));
    }
  }

  /**
   The order of a run: the safe-start calls come first, so every poll and
   every clock read comes after them; and every clock read and every
   scheduling command comes after a `Completed` poll.
   */
  lemma {:induction false} TraceGated(w: Window, statuses: seq<SyncStatus>, samples: seq<LocalTime>)
    ensures |Trace(w, statuses, samples)| >= 3
    ensures Trace(w, statuses, samples)[..3] == SAFE_START_EVENTS
    ensures forall k :: 0 <= k < |Trace(w, statuses, samples)| && Trace(w, statuses, samples)[k].Sample? ==>
              CompletedBefore(Trace(w, statuses, samples), k)
    ensures forall k :: 3 <= k < |Trace(w, statuses, samples)| && Trace(w, statuses, samples)[k].Gpio? ==>
              CompletedBefore(Trace(w, statuses, samples), k)
  {
    var es := Trace(w, statuses, samples);
    var m := if Completed in statuses then WaitsFor(statuses) + 1 else |statuses|;
    var polls := PollEvents(statuses[..m]);
    assert es[..3] == SAFE_START_EVENTS;
    forall k | 0 <= k < 3 + m
      ensures (k < 3 && es[k].Gpio?) || es[k].Poll?
    {
      if k >= 3 {
        assert es[k] == polls[k - 3];
      }
    }
    if Completed in statuses {
      assert es[2 + m] == Poll(Completed);
    }
  }

  /**
   A time server that never answers: whatever the statuses and however many
   samples the clock would offer, the log is the safe start and the polls,
   and the pin stays at 0.
   */
  lemma NeverSyncedStaysOff(w: Window, statuses: seq<SyncStatus>, samples: seq<LocalTime>)
    requires Completed !in statuses
    ensures Trace(w, statuses, samples) == SAFE_START_EVENTS + PollEvents(statuses)
    ensures PinLevel(GpioCalls(Trace(w, statuses, samples))) == OFF
  {
    TraceProjections(w, statuses, samples);
  }

  // ---------------------------------------------------------------------
  // The phases of app_main
  // ---------------------------------------------------------------------

  /**
   The sync-wait loop: polls the statuses in order, appending each poll to
   the log, and stops at the first `Completed`. `waits` counts the polls
   that were not `Completed` (each one logged and followed by a one-second
   delay).
   */
  method AwaitSync(log: seq<Event>, statuses: seq<SyncStatus>) returns (out: seq<Event>, waits: nat, synced: bool)
    ensures synced <==> Completed in statuses
    ensures waits == WaitsFor(statuses)
    ensures waits <= |statuses|
    ensures forall k :: 0 <= k < waits ==> statuses[k] != Completed
    ensures synced ==> waits < |statuses| && statuses[waits] == Completed
    ensures !synced ==> waits == |statuses|
    ensures out == log + PollEvents(statuses[..if synced then waits + 1 else waits])
  {
    out, waits, synced := log, 0, false;
    while !synced && waits < |statuses|
      invariant waits <= |statuses|
      invariant forall k :: 0 <= k < waits ==> statuses[k] != Completed
      invariant synced ==> waits < |statuses| && statuses[waits] == Completed
      invariant out == log + PollEvents(statuses[..if synced then waits + 1 else waits])
      decreases |statuses| - waits, if synced then 0 else 1
    {
      var status := statuses[waits];
      assert statuses[..waits + 1][..waits] == statuses[..waits];
      out := out + [Poll(status)];
      if status == Completed {
        synced := true;
      } else {
        waits := waits + 1;
      }
    }
    assert !synced ==> statuses[..waits] == statuses;
  }

  /**
   The control loop over a finite trace of samples: each iteration reads
   the time, encodes it, decides the level, and issues a command only if the
   level differs from `oldRelayState`; reads and commands are appended to
   the log.
   */
  method ControlLoop(w: Window, samples: seq<LocalTime>, log: seq<Event>)
    returns (out: seq<Event>, writes: seq<Write>, oldRelayState: int)
    ensures out == log + LoopEvents(w, samples, |samples|)
    ensures writes == Emitted(w, samples, |samples|)
    ensures oldRelayState == LastState(w, samples, |samples|)
    ensures forall i :: 0 <= i < |samples| ==> (IssuedAt(writes, i) <==> ChangesAt(w, samples, i))
    ensures |samples| > 0 ==> |writes| > 0 && writes[|writes| - 1].level == oldRelayState
  {
    out, writes := log, [];
    oldRelayState := UNKNOWN;
    var i := 0;
    while i < |samples|
      invariant i <= |samples|
      invariant out == log + LoopEvents(w, samples, i)
      invariant writes == Emitted(w, samples, i)
      invariant oldRelayState == LastState(w, samples, i)
    {
      out := out + [Sample(samples[i])];
      var nowHHMM := Encode(samples[i]);
      var relayState := RelayState(w, nowHHMM);
      if relayState != oldRelayState {
        writes := writes + [Write(i, nowHHMM, relayState)];
        out := out + [Gpio(SetLevel(relayState))];
        oldRelayState := relayState;
      }
      i := i + 1;
    }
    forall i | 0 <= i < |samples|
      ensures IssuedAt(writes, i) <==> ChangesAt(w, samples, i)
    {
      IssuedExactlyAtChanges(w, samples, |samples|, i);
    }
    if |samples| > 0 {
      LastWriteIsLatestLevel(w, samples, |samples|);
    }
  }

  /**
   A bounded run of `app_main`. The pin is reset, made an output and driven
   to 0 before anything else is logged. No time is read and no scheduling
   command is issued until a `Completed` poll is in the log; without one,
   the safe-start calls are the only driver calls and the pin stays at 0.
   */
  method AppMain(w: Window, statuses: seq<SyncStatus>, samples: seq<LocalTime>) returns (run: Run)
    ensures run.events == Trace(w, statuses, samples)
    ensures |run.events| >= 3 && run.events[..3] == SAFE_START_EVENTS
    ensures forall k :: 0 <= k < |run.events| && run.events[k].Sample? ==> CompletedBefore(run.events, k)
    ensures forall k :: 3 <= k < |run.events| && run.events[k].Gpio? ==> CompletedBefore(run.events, k)
    ensures run.synced <==> Completed in statuses
    ensures run.waits <= |statuses| && forall k :: 0 <= k < run.waits ==> statuses[k] != Completed
    ensures run.synced ==> run.waits < |statuses| && statuses[run.waits] == Completed
    ensures Samples(run.events) == (if run.synced then samples else [])
    ensures GpioCalls(run.events) == SAFE_START + Commands(run.writes)
    ensures !run.synced ==>
              run.waits == |statuses| && run.writes == [] &&
              PinLevel(GpioCalls(run.events)) == OFF && run.relayState == UNKNOWN
    ensures run.synced ==>
              run.writes == Emitted(w, samples, |samples|) &&
              run.relayState == LastState(w, samples, |samples|) &&
              PinLevel(GpioCalls(run.events)) == (if samples == [] then OFF else run.relayState)
  {
    var events := SAFE_START_EVENTS;
    var waits, synced;
    events, waits, synced := AwaitSync(events, statuses);
    if !synced {
      assert statuses[..waits] == statuses;
      run := Run(events, waits, false, [], UNKNOWN);
      assert run.events == Trace(w, statuses, samples);
    } else {
      var writes, oldRelayState;
      events, writes, oldRelayState := ControlLoop(w, samples, events);
      run := Run(events, waits, true, writes, oldRelayState);
      assert run.events == Trace(w, statuses, samples);
      PinFollowsSchedule(w, samples, |samples|);
    }
    TraceGated(w, statuses, samples);
    TraceProjections(w, statuses, samples);
  }
}
