/** The sampling loop of jestat: the `gotalarm` / `starttime` state that
    `sigalarm` and `cont_measure` share, the wait loop of `main` and the
    final report. Blocking calls, the alarm signal, the clock and the
    counter backend's reads are inputs; the report log is the output. */
module Sampling {
  import opened Counters
  import opened Report
  import opened Interval

  /** What the counter backend and the clock give at one sampling point:
      the time (an abstract positive, non-decreasing count) and the event
      list as `read_all_events` leaves it. */
  datatype Reading = Reading(now: int, counters: EventList)

  /** One return of the blocking call in the wait loop: whether an alarm was
      delivered while it blocked, the call's return value, and what a read
      at that point would see. */
  datatype Wake = Wake(alarm: bool, ret: int, at: Reading)

  /** One printed report: the number of reads done when it was printed, its
      time column and its rows. */
  datatype Emitted = Emitted(afterRead: nat, stamp: Option<int>, rows: seq<Row>)

  /** A wake is an interval tick: the call failed and the alarm flag is set. */
  predicate IsTick(w: Wake, armed: bool) {
    w.ret < 0 && armed && w.alarm
  }

  /** The number of wakes the loop treats as ticks before it stops: the
      length of the leading run of ticks. */
  function Ticks(wakes: seq<Wake>, armed: bool): (n: nat)
    ensures n <= |wakes|
    ensures forall k :: 0 <= k < n ==> IsTick(wakes[k], armed)
    ensures n < |wakes| ==> !IsTick(wakes[n], armed)
    ensures !armed ==> n == 0
  {
    if wakes == [] || !IsTick(wakes[0], armed) then 0 else 1 + Ticks(wakes[1..], armed)
  }

  /** Ticks is the index of the first wake that is not a tick: any n such
      that the wakes before it are ticks and the wake at n (if any) is not. */
  lemma {:induction false} TicksExact(wakes: seq<Wake>, armed: bool, n: nat)
    requires n <= |wakes|
    requires forall k :: 0 <= k < n ==> IsTick(wakes[k], armed)
    requires n < |wakes| ==> !IsTick(wakes[n], armed)
    ensures Ticks(wakes, armed) == n
  {
    if n > 0 {
      assert IsTick(wakes[0], armed);
      TicksExact(wakes[1..], armed, n - 1);
    }
  }

  /** The inputs are usable: every event list is well formed and the clock
      is positive and never runs backwards, the final reading coming last. */
  predicate ReadingsOk(wakes: seq<Wake>, final: Reading) {
    final.counters.Valid() && 0 < final.now &&
    (forall k :: 0 <= k < |wakes| ==>
       wakes[k].at.counters.Valid() && 0 < wakes[k].at.now <= final.now) &&
    (forall k :: 0 < k < |wakes| ==> wakes[k - 1].at.now <= wakes[k].at.now)
  }

  /** Consecutive readings in order make every earlier reading no later. */
  lemma {:induction false} NowsSorted(wakes: seq<Wake>, final: Reading, i: nat, j: nat)
    requires ReadingsOk(wakes, final) && i <= j < |wakes|
    ensures wakes[i].at.now <= wakes[j].at.now
    decreases j - i
  {
    if i < j {
      NowsSorted(wakes, final, i + 1, j);
    }
  }

  /** The reports of the first n ticks, for a start time `start`. */
  function PeriodicReports(wakes: seq<Wake>, n: nat, start: int, noAggr: bool): seq<Emitted>
    requires n <= |wakes| && forall k :: 0 <= k < |wakes| ==> wakes[k].at.counters.Valid()
  {
    seq(n, k requires 0 <= k < n =>
      Emitted(k + 1, Some(wakes[k].at.now - start),
              ReportRows(wakes[k].at.counters, Some(wakes[k].at.now - start), noAggr)))
  }

  lemma PeriodicStep(wakes: seq<Wake>, n: nat, start: int, noAggr: bool)
    requires n < |wakes| && forall k :: 0 <= k < |wakes| ==> wakes[k].at.counters.Valid()
    ensures PeriodicReports(wakes, n + 1, start, noAggr) ==
      PeriodicReports(wakes, n, start, noAggr) +
      [Emitted(n + 1, Some(wakes[n].at.now - start),
               ReportRows(wakes[n].at.counters, Some(wakes[n].at.now - start), noAggr))]
  {
  }

  /** `starttime` after n ticks: the first tick's time, or 0 if none. */
  function StartAfter(wakes: seq<Wake>, n: nat): int
    requires n <= |wakes|
  {
    if n > 0 then wakes[0].at.now else 0
  }

  /** The final report, for a loop that stopped after n ticks. */
  function FinalEmitted(interval: int, n: nat, start: int, final: Reading, noAggr: bool): Emitted
    requires final.counters.Valid()
  {
    var stamp := Stamp(final.now - start, interval != 0 && start != 0);
    Emitted(n + 1, stamp, ReportRows(final.counters, stamp, noAggr))
  }

  /** The whole output of a run: one timestamped report per tick, then, if
      the loop stopped, the final report, timestamped only when an interval
      was requested and a start time was captured. */
  function Session(interval: int, wakes: seq<Wake>, final: Reading, noAggr: bool): seq<Emitted>
    requires ReadingsOk(wakes, final)
  {
    var n := Ticks(wakes, interval != 0);
    var start := StartAfter(wakes, n);
    PeriodicReports(wakes, n, start, noAggr) +
    (if n < |wakes| then [FinalEmitted(interval, n, start, final, noAggr)] else [])
  }

  /** The run's output once the loop has stopped at wake n. */
  lemma SessionStopped(interval: int, wakes: seq<Wake>, final: Reading, noAggr: bool, n: nat)
    requires ReadingsOk(wakes, final) && n < |wakes|
    requires forall k :: 0 <= k < n ==> IsTick(wakes[k], interval != 0)
    requires !IsTick(wakes[n], interval != 0)
    ensures n == Ticks(wakes, interval != 0)
    ensures Session(interval, wakes, final, noAggr) ==
      PeriodicReports(wakes, n, StartAfter(wakes, n), noAggr) +
      [FinalEmitted(interval, n, StartAfter(wakes, n), final, noAggr)]
  {
    TicksExact(wakes, interval != 0, n);
  }

  /** The run's output when every wake was a tick. */
  lemma SessionRunning(interval: int, wakes: seq<Wake>, final: Reading, noAggr: bool)
    requires ReadingsOk(wakes, final)
    requires forall k :: 0 <= k < |wakes| ==> IsTick(wakes[k], interval != 0)
    ensures |wakes| == Ticks(wakes, interval != 0)
    ensures Session(interval, wakes, final, noAggr) ==
      PeriodicReports(wakes, |wakes|, StartAfter(wakes, |wakes|), noAggr)
  {
    TicksExact(wakes, interval != 0, |wakes|);
  }

  /** A run prints one report per tick and, once the loop has stopped,
      exactly one more; every report follows its own read; the periodic
      reports are timestamped, the final one only when an interval was
      requested and a tick captured the start time. */
  lemma SessionShape(interval: int, wakes: seq<Wake>, final: Reading, noAggr: bool)
    requires ReadingsOk(wakes, final)
    ensures var n := Ticks(wakes, interval != 0);
      var s := Session(interval, wakes, final, noAggr);
      |s| == n + (if n < |wakes| then 1 else 0) &&
      (forall k :: 0 <= k < |s| ==> s[k].afterRead == k + 1) &&
      (forall k :: 0 <= k < n ==> s[k].stamp.Some?) &&
      (n < |wakes| ==> (s[n].stamp.Some? <==> interval != 0 && n > 0))
  {
  }

  /** Time columns are never negative and never decrease from one report to
      the next, the final report included. */
  lemma SessionStampsOrdered(interval: int, wakes: seq<Wake>, final: Reading, noAggr: bool)
    requires ReadingsOk(wakes, final)
    ensures var s := Session(interval, wakes, final, noAggr);
      (forall k :: 0 <= k < |s| && s[k].stamp.Some? ==> 0 <= s[k].stamp.value) &&
      (forall i, j :: 0 <= i < j < |s| && s[i].stamp.Some? && s[j].stamp.Some? ==>
         s[i].stamp.value <= s[j].stamp.value)
  {
    var n := Ticks(wakes, interval != 0);
    var s := Session(interval, wakes, final, noAggr);
    forall k | 0 <= k < |s| && s[k].stamp.Some?
      ensures 0 <= s[k].stamp.value
    {
      if k < n {
        NowsSorted(wakes, final, 0, k);
      }
    }
    forall i, j | 0 <= i < j < |s| && s[i].stamp.Some? && s[j].stamp.Some?
      ensures s[i].stamp.value <= s[j].stamp.value
    {
      if j < n {
        NowsSorted(wakes, final, i, j);
      }
    }
  }

  /** Without an interval no alarm is handled: the run prints a single
      report, after the loop stops, without a time column. */
  lemma ZeroIntervalSingleReport(wakes: seq<Wake>, final: Reading, noAggr: bool)
    requires ReadingsOk(wakes, final) && |wakes| > 0
    ensures Session(0, wakes, final, noAggr) == [Emitted(1, None, ReportRows(final.counters, None, noAggr))]
  {
  }

  /** The process-wide sampling state of jestat, with the report log. */
  class Sampler {
    const noAggr: bool
    /** The SIGALRM handler is installed and `setitimer` was called. */
    var armed: bool
    /** The `itimerval` passed to `setitimer`, if any. */
    var timer: Option<ITimerVal>
    /** `gotalarm`: an alarm arrived and has not been consumed. */
    var gotAlarm: bool
    /** `starttime`: 0 until the first tick captures the clock. */
    var startTime: int
    /** Number of `read_all_events` calls. */
    var readCount: nat
    /** The event list as the last read left it. */
    var counters: EventList
    /** The reports printed so far, in order. */
    var log: seq<Emitted>
    /** The latest time observed, so that time never runs backwards. */
    ghost var clock: int

    ghost predicate Valid()
      reads this`counters, this`startTime, this`clock, this`log, this`readCount
    {
      counters.Valid() &&
      0 <= startTime <= clock &&
      (forall k :: 0 <= k < |log| ==> 0 < log[k].afterRead <= readCount) &&
      (forall i, j :: 0 <= i < j < |log| ==> log[i].afterRead < log[j].afterRead) &&
      (forall k :: 0 <= k < |log| && log[k].stamp.Some? ==>
         0 < startTime && 0 <= log[k].stamp.value <= clock - startTime)
    }

    /** The state at program start: nothing read, printed or armed yet. */
    ghost predicate Initial()
      reads this
    {
      !armed && timer == None && !gotAlarm && startTime == 0 &&
      readCount == 0 && log == [] && clock == 0
    }

    constructor (el: EventList, noAggr: bool)
      requires el.Valid()
      ensures Valid() && Initial()
      ensures this.noAggr == noAggr && counters == el
    {
      this.noAggr := noAggr;
      armed, timer, gotAlarm := false, None, false;
      startTime, readCount, counters, log := 0, 0, el, [];
      clock := 0;
    }

    /** Installs the alarm handler and the timer only for a non-zero
        interval, with delay and period both equal to the interval. */
    method Arm(interval: int)
      requires Valid()
      modifies this`armed, this`timer
      ensures Valid()
      ensures armed == (interval != 0)
      ensures timer == if interval != 0 then Some(IntervalTimer(interval)) else None
    {
      if interval != 0 {
        timer := Some(IntervalTimer(interval));
        armed := true;
      } else {
        timer := None;
        armed := false;
      }
    }

    /** `sigalarm`: only records that an alarm arrived. It can run only once
        the handler is installed. */
    method Alarm()
      requires Valid() && armed
      modifies this`gotAlarm
      ensures Valid() && gotAlarm
    {
      gotAlarm := true;
    }

    /** `read_all_events`: the backend refreshes the counters. */
    method ReadAllEvents(at: Reading)
      requires Valid() && at.counters.Valid()
      modifies this`counters, this`readCount
      ensures Valid()
      ensures counters == at.counters && readCount == old(readCount) + 1
    {
      counters := at.counters;
      readCount := readCount + 1;
    }

    /** `print_data` on the current counters, appended to the log. */
    method Emit(ts: int, printTs: bool)
      requires Valid()
      requires printTs ==> 0 < startTime && 0 <= ts <= clock - startTime
      requires 0 < readCount && (forall k :: 0 <= k < |log| ==> log[k].afterRead < readCount)
      modifies this`log
      ensures Valid()
      ensures log == old(log) + [Emitted(readCount, Stamp(ts, printTs), ReportRows(counters, Stamp(ts, printTs), noAggr))]
    {
      var rows := PrintData(counters, ts, printTs, noAggr);
      log := log + [Emitted(readCount, Stamp(ts, printTs), rows)];
    }

    /** Captures the start time if it is still unset, with the clock advanced. */
    method Capture(now: int)
      requires Valid() && 0 < now && clock <= now
      modifies this`clock, this`startTime
      ensures Valid() && clock == now
      ensures startTime == if old(startTime) == 0 then now else old(startTime)
      ensures 0 < startTime
      ensures forall k :: 0 <= k < |log| && log[k].stamp.Some? ==> log[k].stamp.value <= now - startTime
    {
      clock := now;
      if startTime == 0 {
        startTime := now;
      }
    }

    /** `cont_measure`: a failed wait with a pending alarm is a tick: clear
        the flag, read, capture the start time if it is still unset, and
        print a timestamped report. Anything else ends the loop and changes
        nothing. */
    method ContMeasure(ret: int, at: Reading) returns (cont: bool)
      requires Valid() && at.counters.Valid() && 0 < at.now && clock <= at.now
      modifies this`gotAlarm, this`counters, this`readCount, this`startTime, this`log, this`clock
      ensures Valid()
      ensures cont == (ret < 0 && old(gotAlarm))
      ensures !cont ==>
        gotAlarm == old(gotAlarm) && startTime == old(startTime) && readCount == old(readCount) &&
        counters == old(counters) && log == old(log) && clock == old(clock)
      ensures cont ==>
        !gotAlarm && readCount == old(readCount) + 1 && counters == at.counters && clock == at.now &&
        startTime == (if old(startTime) == 0 then at.now else old(startTime)) &&
        log == old(log) + [Emitted(readCount, Some(at.now - startTime),
                                   ReportRows(at.counters, Some(at.now - startTime), noAggr))]
    {
      if ret < 0 && gotAlarm {
        gotAlarm := false;
        ReadAllEvents(at);
        Capture(at.now);
        Emit(at.now - startTime, true);
        return true;
      }
      return false;
    }

    /** The final read and report after the loop: timestamped only when an
        interval was requested and a start time was captured. */
    method FinalReport(interval: int, at: Reading)
      requires Valid() && at.counters.Valid() && 0 < at.now && clock <= at.now
      modifies this`counters, this`readCount, this`log, this`clock
      ensures Valid()
      ensures readCount == old(readCount) + 1 && counters == at.counters && clock == at.now
      ensures log == old(log) + [Emitted(readCount, Stamp(at.now - startTime, interval != 0 && startTime != 0),
                                         ReportRows(at.counters, Stamp(at.now - startTime, interval != 0 && startTime != 0), noAggr))]
    {
      ReadAllEvents(at);
      clock := at.now;
      Emit(at.now - startTime, interval != 0 && startTime != 0);
    }

    /** The `for (;;)` wait loop of `main`: one pass per wake, an alarm
        setting the flag when the handler is installed, until `cont_measure`
        returns false. `finished` is false when the wakes ran out with the
        loop still going. */
    method SampleLoop(wakes: seq<Wake>, final: Reading) returns (ticks: nat, finished: bool)
      requires Valid() && !gotAlarm && startTime == 0 && readCount == 0 && log == [] && clock == 0
      requires ReadingsOk(wakes, final)
      modifies this`gotAlarm, this`counters, this`readCount, this`startTime, this`log, this`clock
      ensures Valid()
      ensures ticks == Ticks(wakes, armed)
      ensures finished == (ticks < |wakes|)
      ensures readCount == ticks && clock <= final.now
      ensures startTime == StartAfter(wakes, ticks)
      ensures log == PeriodicReports(wakes, ticks, startTime, noAggr)
    {
      ticks, finished := 0, false;
      while ticks < |wakes|
        invariant Valid()
        invariant 0 <= ticks <= |wakes|
        invariant forall k :: 0 <= k < ticks ==> IsTick(wakes[k], armed)
        invariant !gotAlarm && readCount == ticks
        invariant startTime == StartAfter(wakes, ticks)
        invariant ticks < |wakes| ==> clock <= wakes[ticks].at.now
        invariant clock <= final.now
        invariant log == PeriodicReports(wakes, ticks, startTime, noAggr)
      {
        var w := wakes[ticks];
        if armed && w.alarm {
          Alarm();
        }
        var cont := ContMeasure(w.ret, w.at);
        if !cont {
          finished := true;
          break;
        }
        PeriodicStep(wakes, ticks, startTime, noAggr);
        ticks := ticks + 1;
      }
      TicksExact(wakes, armed, ticks);
    }

    /** After the loop: if it stopped, the final read and report. */
    method Finish(interval: int, wakes: seq<Wake>, final: Reading, ticks: nat, finished: bool)
      requires Valid() && ReadingsOk(wakes, final)
      requires armed == (interval != 0)
      requires ticks == Ticks(wakes, armed) && finished == (ticks < |wakes|)
      requires readCount == ticks && clock <= final.now
      requires startTime == StartAfter(wakes, ticks)
      requires log == PeriodicReports(wakes, ticks, startTime, noAggr)
      modifies this`counters, this`readCount, this`log, this`clock
      ensures Valid()
      ensures log == Session(interval, wakes, final, noAggr)
      ensures readCount == |log|
    {
      if finished {
        SessionStopped(interval, wakes, final, noAggr, ticks);
        FinalReport(interval, final);
      } else {
        SessionRunning(interval, wakes, final, noAggr);
      }
    }

    /** `main` from arming the timer to the end: the wait loop, then, once it
        has stopped, the final read and report. */
    method Run(interval: int, wakes: seq<Wake>, final: Reading) returns (ticks: nat, finished: bool)
      requires Valid() && Initial()
      requires ReadingsOk(wakes, final)
      modifies this`armed, this`timer, this`gotAlarm, this`counters, this`readCount,
               this`startTime, this`log, this`clock
      ensures Valid()
      ensures armed == (interval != 0)
      ensures timer == if interval != 0 then Some(IntervalTimer(interval)) else None
      ensures ticks == Ticks(wakes, armed)
      ensures finished == (ticks < |wakes|)
      ensures log == Session(interval, wakes, final, noAggr)
      ensures readCount == |log|
      ensures startTime == StartAfter(wakes, ticks)
    {
      Arm(interval);
      ticks, finished := SampleLoop(wakes, final);
      Finish(interval, wakes, final, ticks, finished);
    }
  }
}
