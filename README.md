# jestat sampling and reporting, modelled in Dafny

`jestat` is a small `perf stat`-style tool from the jevents examples. It starts
or attaches to a workload and programs hardware counters. Then it waits for the
workload to end, printing counter reports on a timer in the meantime. This
project models the sequential logic of that tool. The counter backend, the
clock and the operating system are treated as inputs.

- `counters.dfy` (module `Counters`): the event list as a sequence of events,
  in the order of the `e->next` list. Each event has an optional symbolic name,
  its raw event spec and one slot per CPU. A slot is a file descriptor plus the
  scaled value the backend reports. The module also holds the report row,
  `uint64_t` values and the naming precedence.
- `report.dfy` (module `Report`): `print_data_aggr`, `print_data_no_aggr` and
  `print_data` as methods with loops. Each method returns the rows it prints
  instead of text. Spec functions (`AggrRows`, `PerCpuRows`, `ActiveCells`)
  and lemmas describe what the rows are.
- `interval.dfy` (module `Interval`): the conversion of the `-I` interval in
  milliseconds to a `struct itimerval`. C's truncating `/` and `%` are written
  out explicitly.
- `sampling.dfy` (module `Sampling`): class `Sampler` holds the globals
  `gotalarm` and `starttime`, a count of `read_all_events` calls and the log of
  printed reports. Its methods are `sigalarm`, `cont_measure`, the wait loop of
  `main` and the final report. The spec function `Session` gives the whole
  output of a run in terms of its inputs.

Each pass of the wait loop takes a `Wake` as input. A `Wake` says whether an
alarm arrived, gives the blocking call's return value `ret`, and carries a
`Reading`. A `Reading` is the abstract time plus the event list that
`read_all_events` would produce at that moment.

In two places the code does something a reader might not expect, and the
model follows the code:
- The aggregate loop adds every CPU's scaled value, whatever that slot's file
  descriptor (jevents/examples/jestat.c:59-60). It does not skip inactive slots.
  `AggrIncludesInactive` states this. `AggrMatchesActiveWhenInactiveZero` and
  `AggrMatchesPerCpu` show the two readings agree when the backend scales an
  inactive slot to zero.
- System-wide mode does not use the `pause()` loop. `main` forks an idling
  child in that mode too and waits on it with `waitpid`. A failed `fork` exits
  at jevents/examples/jestat.c:200-201, so `child_pid >= 0` always holds at
  line 233 and the `pause()` loop at lines 241-245 cannot be reached. Both
  loops pass an input `ret` to `cont_measure`, so the single loop
  `Sampler.SampleLoop` models both.

## Model

| member | source | states |
|---|---|---|
| `Report.PrintDataAggr` | jevents/examples/jestat.c:52-65 | exactly one row per event, in list order; each row is labelled with the event's name, or its raw spec when it has no name; the value is the sum of the scaled values of CPUs 0..num_cpus-1 modulo 2^64, inactive slots included; a time column iff `print_ts`; the rows equal `AggrRows` |
| `Report.PrintDataNoAggr` | jevents/examples/jestat.c:67-83 | the rows are `CpuRow` of each cell of `ActiveCells`, in that order: one row per active (event, CPU) slot, carrying that CPU index, the label and that slot's scaled value; at most N×C rows; a time column iff `print_ts` |
| `Report.PrintData` | jevents/examples/jestat.c:85-91 | per-CPU rows iff `no_aggr`, aggregate rows otherwise; every row has the CPU column iff `no_aggr` and the time column iff `print_ts` |
| `Counters.Label` | jevents/examples/jestat.c:63 | an event is labelled by its symbolic name when it has one, and by its raw event spec otherwise; the same rule labels per-CPU rows at line 80 |
| `Counters.Stamp` | jevents/examples/jestat.c:61-62 | a row has a time column if and only if `print_ts` is set, and that column holds the given time; per-CPU rows do the same at lines 78-79 |
| `Counters.AddU64` | jevents/examples/jestat.c:58-60 | `uint64_t` addition wraps around: the result is (a + b) modulo 2^64 |
| `Counters.ModAdd` | jevents/examples/jestat.c:58-60 | adding to a value already reduced modulo 2^64 leaves the same residue as adding to the unreduced value, so the `uint64_t v +=` loop computes the sum modulo 2^64 |
| `Report.AggrIncludesInactive` | jevents/examples/jestat.c:58-60 | the aggregate value equals (sum over active slots + sum over inactive slots) modulo 2^64: no CPU index is skipped |
| `Report.AggrMatchesActiveWhenInactiveZero` | jevents/examples/jestat.c:58-60 | if every inactive slot scales to 0, the aggregate value is the sum over active slots only, modulo 2^64 |
| `Report.WrapSumStep` | jevents/examples/jestat.c:59-60 | one more pass of the CPU loop takes the wrapped sum of the first n CPUs to that of the first n+1 by one wrapping addition |
| `Report.CpuCells` | jevents/examples/jestat.c:74-76 | for one event, the CPUs that get a row: every one is below the bound and has fd ≥ 0, and there are at most as many as CPUs |
| `Report.CpuCellsOrdered` | jevents/examples/jestat.c:74-81 | one event's rows come by strictly ascending CPU index |
| `Report.ActiveCells` | jevents/examples/jestat.c:72-81 | every printed (event, CPU) cell lies within the list and has fd ≥ 0 |
| `Report.ActiveCellsOrdered` | jevents/examples/jestat.c:72-81 | the printed cells are strictly ordered event-major, then by CPU; so no cell is printed twice |
| `Report.ActiveCellsBound` | jevents/examples/jestat.c:72-81 | per-CPU mode prints at most N×C rows |
| `Report.ActiveCellsExact` | jevents/examples/jestat.c:72-81 | a cell is printed in per-CPU mode if and only if it lies within the list and its fd is ≥ 0 |
| `Report.AllActiveFull` | jevents/examples/jestat.c:72-81 | when every slot is active, per-CPU mode prints exactly N×C rows |
| `Report.CpuCellsSum` | jevents/examples/jestat.c:72-81 | the values of one event's per-CPU rows add up to the sum over its active slots |
| `Report.AggrMatchesPerCpu` | jevents/examples/jestat.c:57-81 | if inactive slots scale to 0, an event's aggregate value is the sum, modulo 2^64, of the values of that event's per-CPU rows |
| `Interval.IntervalTimer` | jevents/examples/jestat.c:219-226 | the repeat period `it_interval` equals the first delay `it_value` |
| `Interval.CDiv` | jevents/examples/jestat.c:222 | C's `/` truncates toward zero: for a non-negative dividend the remainder `a - q*b` lies in [0, b), for a negative one in (-b, 0] |
| `Interval.CRem` | jevents/examples/jestat.c:222-223 | C's `%` and `/` satisfy `a == (a / b) * b + a % b`; the remainder takes the sign of the dividend and is smaller than `b` in magnitude |
| `Interval.NonNegativeInterval` | jevents/examples/jestat.c:219-226 | for interval ≥ 0: `tv_sec = interval / 1000`, `tv_usec = (interval % 1000) * 1000 < 1000000`, `tv_sec*1000 + tv_usec/1000 == interval`, `setitimer` accepts the value, and the value is all-zero iff the interval is 0 |
| `Interval.MillisRoundTrip` | jevents/examples/jestat.c:222-223 | for every interval, negative ones included, converting the `{sec, usec}` pair back to milliseconds with C arithmetic gives the interval |
| `Interval.NegativeIntervalRejected` | jevents/examples/jestat.c:222-223 | a negative interval converts to a value with a negative second or microsecond count, which `setitimer` rejects |
| `Sampling.Ticks` | jevents/examples/jestat.c:235-245 | the loop's ticks are the leading run of wakes where the call failed with an alarm pending; the first other wake stops the loop; without a timer there are no ticks |
| `Sampling.TicksExact` | jevents/examples/jestat.c:235-245 | the number of ticks is exactly the index of the first wake that is not a tick, or the number of wakes if there is none |
| `Sampling.SessionShape` | jevents/examples/jestat.c:233-250 | one report per tick, plus exactly one final report once the loop stops; report k follows read k+1; every periodic report is timestamped; the final one is timestamped iff `interval != 0` and a tick captured the start time |
| `Sampling.SessionStampsOrdered` | jevents/examples/jestat.c:139-141 | time columns are never negative and never decrease from one report to the next, the final report included |
| `Sampling.ZeroIntervalSingleReport` | jevents/examples/jestat.c:219-250 | with interval 0 a run that stops prints exactly one report, the final one, without a time column |
| `Sampling.Sampler.constructor` | jevents/examples/jestat.c:118-120 | at start `gotalarm` is false, `starttime` is 0 (unset), nothing is read, printed or armed |
| `Sampling.Sampler.Alarm` | jevents/examples/jestat.c:122-125 | the alarm handler, which runs only once it is installed, only sets `gotalarm` |
| `Sampling.Sampler.Arm` | jevents/examples/jestat.c:219-232 | the handler and timer are installed iff `interval != 0`, with `IntervalTimer(interval)` |
| `Sampling.Sampler.ReadAllEvents` | jevents/examples/jestat.c:138 | a read replaces the counters with the backend's values and adds one to the read count |
| `Sampling.Sampler.Capture` | jevents/examples/jestat.c:139-140 | `starttime` is set to the current time only if it was 0, and is never changed once non-zero |
| `Sampling.Sampler.Emit` | jevents/examples/jestat.c:141 | one call of `print_data` on the current counters appends one report, with the read count and the time column, to the log |
| `Sampling.Sampler.ContMeasure` | jevents/examples/jestat.c:134-145 | returns true iff `ret < 0` and `gotalarm`; then it clears `gotalarm`, does exactly one read, sets `starttime` only if it was 0, and appends one timestamped report of the fresh counters; on false nothing changes |
| `Sampling.Sampler.FinalReport` | jevents/examples/jestat.c:247-250 | one read, then one report with a time column iff `interval != 0 && starttime != 0` |
| `Sampling.Sampler.Finish` | jevents/examples/jestat.c:247-250 | once the loop has stopped, the final read and report complete the log to `Session` |
| `Sampling.Sampler.SampleLoop` | jevents/examples/jestat.c:233-246 | the loop runs `Ticks` passes, one read and one timestamped report per pass, and stops at the first non-tick; the start time is the first tick's time |
| `Sampling.Sampler.Run` | jevents/examples/jestat.c:219-250 | after arming, the loop and the final report, the log equals `Session(interval, wakes, final, noAggr)`; one read per report |

## Left out

- Process control: `pipe`, `fork`, the one-byte handshake, `execvp`, `_exit`,
  `waitpid` and `pause`. Only the return value `ret` of the blocking call is
  modelled, as an input to the loop.
- Signal installation (`signal`, `sigaction`) and the empty `sigint` handler.
  An interrupt shows up as a wake with `ret < 0` and no alarm, which ends the
  loop. Races between the handler and the loop are not modelled; several
  expiries between two checks coalesce into the single flag.
- `setitimer` itself. The model records the `itimerval` it would receive.
  `Interval.Accepted` states the kernel's validity rule that
  `NegativeIntervalRejected` refers to.
- `gettime` and the `double` arithmetic `(gettime() - starttime) / 1e6`. Time is
  an abstract positive integer that never decreases. The time column is
  `now - starttime` in those units.
- Sampling.Sampler.ContMeasure: `cont_measure` reads the clock twice, once for
  `starttime` and once for the time column. The model uses one reading for
  both, so the first tick's column is 0.
- `printf` formatting, `%'15lu` grouping and `setlocale`. Rows are structured
  values.
- The counter backend: `alloc_eventlist`, `parse_events`,
  `setup_events_cpumask`, `print_event_list_attr`, the inside of
  `read_all_events` and `event_scaled_value`. Scaled values are inputs, and a
  read replaces the event list with one supplied by the caller.
- `getopt_long` option parsing, `usage`, and the "Specify command or -a" exit.
  `atoi` overflow is not modelled either, so the interval is an unbounded
  integer.
- Sampling.Sampler.Run: the wait loop runs only on the wakes given. If every
  wake is a tick, the run has not ended (`finished` is false) and no final
  report is made.
- Sampling.Sampler.Run: a negative interval arms the handler in the model, as
  `if (interval)` does. The kernel would then reject the timer, so the caller
  would supply no alarms.
