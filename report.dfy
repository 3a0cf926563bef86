/** Report generation: `print_data_aggr`, `print_data_no_aggr` and the
    `print_data` dispatcher. Output is a sequence of rows instead of text. */
module Report {
  import opened Counters

  // ---------------------------------------------------------------------
  // Aggregate mode
  // ---------------------------------------------------------------------

  /** The scaled values of CPUs 0 .. n-1 of one event, in CPU order. */
  function ScaledValues(e: Event, n: nat): (vs: seq<int>)
    requires n <= |e.slots|
    ensures |vs| == n
    ensures forall i :: 0 <= i < n ==> vs[i] == e.slots[i].scaled
  {
    if n == 0 then [] else ScaledValues(e, n - 1) + [e.slots[n - 1].scaled]
  }

  /** The `uint64_t` sum of the scaled values of CPUs 0 .. n-1, whatever
      their file descriptors: the mathematical sum taken modulo 2^64. */
  function WrapSum(e: Event, n: nat): u64
    requires n <= |e.slots|
  {
    Sum(ScaledValues(e, n)) % U64
  }

  /** One more CPU: the running `uint64_t` sum takes one wrapping addition. */
  lemma WrapSumStep(e: Event, n: nat)
    requires n < |e.slots|
    ensures WrapSum(e, n + 1) == AddU64(WrapSum(e, n), e.slots[n].scaled)
  {
    var prefix := ScaledValues(e, n);
    assert ScaledValues(e, n + 1) == prefix + [e.slots[n].scaled];
    SumSnoc(prefix, e.slots[n].scaled);
    ModAdd(Sum(prefix), e.slots[n].scaled);
  }

  /** The row aggregate mode prints for one event. */
  function AggrRow(el: EventList, k: nat, stamp: Option<int>): Row
    requires el.Valid() && k < |el.events|
  {
    assert el.events[k] in el.events;
    Row(stamp, None, Label(el.events[k]), WrapSum(el.events[k], el.numCpus))
  }

  /** The rows of one aggregate report, one per event in list order. */
  function AggrRows(el: EventList, stamp: Option<int>): seq<Row>
    requires el.Valid()
  {
    seq(|el.events|, k requires 0 <= k < |el.events| => AggrRow(el, k, stamp))
  }

  /** `print_data_aggr`: one row per event, in list order, whose value is the
      wrapping 64-bit sum over every CPU index (inactive slots included). */
  method PrintDataAggr(el: EventList, ts: int, printTs: bool) returns (rows: seq<Row>)
    requires el.Valid()
    ensures rows == AggrRows(el, Stamp(ts, printTs))
    ensures |rows| == |el.events|
    ensures forall k :: 0 <= k < |rows| ==>
      rows[k].event == Label(el.events[k]) && rows[k].cpu.None? &&
      rows[k].stamp == Stamp(ts, printTs) &&
      rows[k].value == WrapSum(el.events[k], el.numCpus)
  {
    var stamp := Stamp(ts, printTs);
    rows := [];
    var i := 0;
    while i < |el.events|
      invariant 0 <= i <= |el.events|
      invariant |rows| == i
      invariant forall k :: 0 <= k < i ==> rows[k] == AggrRow(el, k, stamp)
    {
      var e := el.events[i];
      assert e in el.events;
      var v: u64 := 0;
      var cpu := 0;
      while cpu < el.numCpus
        invariant 0 <= cpu <= el.numCpus
        invariant v == WrapSum(e, cpu)
      {
        WrapSumStep(e, cpu);
        v := AddU64(v, e.slots[cpu].scaled);
        cpu := cpu + 1;
      }
      rows := rows + [Row(stamp, None, Label(e), v)];
      i := i + 1;
    }
  }

  /** Sum of the scaled values of the active (fd >= 0) slots among CPUs 0 .. n-1. */
  function ActiveSum(e: Event, n: nat): int
    requires n <= |e.slots|
  {
    if n == 0 then 0
    else ActiveSum(e, n - 1) + (if e.slots[n - 1].fd >= 0 then e.slots[n - 1].scaled else 0)
  }

  /** Sum of the scaled values of the inactive (fd < 0) slots among CPUs 0 .. n-1. */
  function InactiveSum(e: Event, n: nat): int
    requires n <= |e.slots|
  {
    if n == 0 then 0
    else InactiveSum(e, n - 1) + (if e.slots[n - 1].fd < 0 then e.slots[n - 1].scaled else 0)
  }

  /** The aggregate value counts inactive slots too: it is the active sum
      plus the inactive sum, modulo 2^64. */
  lemma {:induction false} AggrIncludesInactive(e: Event, n: nat)
    requires n <= |e.slots|
    ensures WrapSum(e, n) == (ActiveSum(e, n) + InactiveSum(e, n)) % U64
  {
    SumSplit(e, n);
  }

  lemma {:induction false} SumSplit(e: Event, n: nat)
    requires n <= |e.slots|
    ensures Sum(ScaledValues(e, n)) == ActiveSum(e, n) + InactiveSum(e, n)
  {
    if n > 0 {
      SumSplit(e, n - 1);
      SumSnoc(ScaledValues(e, n - 1), e.slots[n - 1].scaled);
    }
  }

  /** When the backend scales every inactive slot to zero, the aggregate
      value is the sum over the active slots only, modulo 2^64. */
  lemma {:induction false} AggrMatchesActiveWhenInactiveZero(e: Event, n: nat)
    requires n <= |e.slots|
    requires forall i :: 0 <= i < n && e.slots[i].fd < 0 ==> e.slots[i].scaled == 0
    ensures WrapSum(e, n) == ActiveSum(e, n) % U64
  {
    SumSplit(e, n);
    InactiveZero(e, n);
  }

  lemma {:induction false} InactiveZero(e: Event, n: nat)
    requires n <= |e.slots|
    requires forall i :: 0 <= i < n && e.slots[i].fd < 0 ==> e.slots[i].scaled == 0
    ensures InactiveSum(e, n) == 0
  {
    if n > 0 {
      InactiveZero(e, n - 1);
    }
  }

  // ---------------------------------------------------------------------
  // Per-CPU mode
  // ---------------------------------------------------------------------

  /** A (event index, CPU index) pair of the event list. */
  datatype Cell = Cell(event: nat, cpu: nat)

  /** The cell exists in the list and its slot has a file descriptor. */
  predicate Active(el: EventList, c: Cell)
    requires el.Valid()
  {
    c.event < |el.events| && c.cpu < el.numCpus &&
    (assert el.events[c.event] in el.events;
     el.events[c.event].slots[c.cpu].fd >= 0)
  }

  /** Event-major, then CPU order. */
  predicate Precedes(a: Cell, b: Cell) {
    a.event < b.event || (a.event == b.event && a.cpu < b.cpu)
  }

  /** The active cells of event e among CPUs 0 .. n-1, by ascending CPU. */
  function CpuCells(el: EventList, e: nat, n: nat): (cs: seq<Cell>)
    requires el.Valid() && e < |el.events| && n <= el.numCpus
    ensures |cs| <= n
    ensures forall k :: 0 <= k < |cs| ==> cs[k].event == e && cs[k].cpu < n && Active(el, cs[k])
  {
    if n == 0 then []
    else
      assert el.events[e] in el.events;
      CpuCells(el, e, n - 1) + (if el.events[e].slots[n - 1].fd >= 0 then [Cell(e, n - 1)] else [])
  }

  /** The active cells of events 0 .. n-1, event-major then by ascending CPU:
      the (event, CPU) pairs per-CPU mode prints, in printing order. */
  function ActiveCells(el: EventList, n: nat): (cs: seq<Cell>)
    requires el.Valid() && n <= |el.events|
    ensures forall k :: 0 <= k < |cs| ==> cs[k].event < n && Active(el, cs[k])
  {
    if n == 0 then [] else ActiveCells(el, n - 1) + CpuCells(el, n - 1, el.numCpus)
  }

  /** Per-CPU mode prints at most one row per (event, CPU) pair. */
  lemma {:induction false} ActiveCellsBound(el: EventList, n: nat)
    requires el.Valid() && n <= |el.events|
    ensures |ActiveCells(el, n)| <= n * el.numCpus
  {
    if n > 0 {
      ActiveCellsBound(el, n - 1);
      assert |ActiveCells(el, n)| == |ActiveCells(el, n - 1)| + |CpuCells(el, n - 1, el.numCpus)|;
      assert (n - 1) * el.numCpus + el.numCpus == n * el.numCpus;
    }
  }

  /** The CPUs of one event are printed in strictly ascending order. */
  lemma {:induction false} CpuCellsOrdered(el: EventList, e: nat, n: nat)
    requires el.Valid() && e < |el.events| && n <= el.numCpus
    ensures forall i, j :: 0 <= i < j < |CpuCells(el, e, n)| ==>
      CpuCells(el, e, n)[i].cpu < CpuCells(el, e, n)[j].cpu
  {
    if n > 0 {
      CpuCellsOrdered(el, e, n - 1);
    }
  }

  /** Per-CPU rows come event-major, then by strictly ascending CPU; in
      particular no cell is printed twice. */
  lemma {:induction false} ActiveCellsOrdered(el: EventList, n: nat)
    requires el.Valid() && n <= |el.events|
    ensures forall i, j :: 0 <= i < j < |ActiveCells(el, n)| ==>
      Precedes(ActiveCells(el, n)[i], ActiveCells(el, n)[j])
  {
    if n > 0 {
      ActiveCellsOrdered(el, n - 1);
      CpuCellsOrdered(el, n - 1, el.numCpus);
    }
  }

  /** The row per-CPU mode prints for one cell. */
  function CpuRow(el: EventList, c: Cell, stamp: Option<int>): Row
    requires el.Valid() && c.event < |el.events| && c.cpu < el.numCpus
  {
    assert el.events[c.event] in el.events;
    Row(stamp, Some(c.cpu), Label(el.events[c.event]), el.events[c.event].slots[c.cpu].scaled)
  }

  /** The rows of one per-CPU report: one per active cell, in printing order. */
  function PerCpuRows(el: EventList, stamp: Option<int>): seq<Row>
    requires el.Valid()
  {
    var cs := ActiveCells(el, |el.events|);
    seq(|cs|, k requires 0 <= k < |cs| => CpuRow(el, cs[k], stamp))
  }

  /** `print_data_no_aggr`: one row per active (event, CPU) cell, event-major
      then by ascending CPU, carrying that CPU and its scaled value; inactive
      slots produce no row. */
  method PrintDataNoAggr(el: EventList, ts: int, printTs: bool) returns (rows: seq<Row>)
    requires el.Valid()
    ensures rows == PerCpuRows(el, Stamp(ts, printTs))
    ensures |rows| <= |el.events| * el.numCpus
    ensures forall k :: 0 <= k < |rows| ==> rows[k].cpu.Some? && rows[k].stamp == Stamp(ts, printTs)
  {
    var stamp := Stamp(ts, printTs);
    ghost var cells: seq<Cell> := [];
    rows := [];
    var i := 0;
    while i < |el.events|
      invariant 0 <= i <= |el.events|
      invariant cells == ActiveCells(el, i)
      invariant |rows| == |cells|
      invariant forall k :: 0 <= k < |rows| ==> rows[k] == CpuRow(el, cells[k], stamp)
    {
      var e := el.events[i];
      assert e in el.events;
      var cpu := 0;
      while cpu < el.numCpus
        invariant 0 <= cpu <= el.numCpus
        invariant cells == ActiveCells(el, i) + CpuCells(el, i, cpu)
        invariant |rows| == |cells|
        invariant forall k :: 0 <= k < |rows| ==> rows[k] == CpuRow(el, cells[k], stamp)
      {
        if e.slots[cpu].fd < 0 {
          cpu := cpu + 1;
          continue;
        }
        rows := rows + [Row(stamp, Some(cpu), Label(e), e.slots[cpu].scaled)];
        cells := cells + [Cell(i, cpu)];
        cpu := cpu + 1;
      }
      i := i + 1;
    }
    ActiveCellsBound(el, |el.events|);
  }

  lemma {:induction false} CpuCellsComplete(el: EventList, e: nat, n: nat, cpu: nat)
    requires el.Valid() && e < |el.events| && cpu < n <= el.numCpus
    requires Active(el, Cell(e, cpu))
    ensures Cell(e, cpu) in CpuCells(el, e, n)
  {
    if cpu < n - 1 {
      CpuCellsComplete(el, e, n - 1, cpu);
    }
  }

  lemma {:induction false} ActiveCellsComplete(el: EventList, n: nat, c: Cell)
    requires el.Valid() && n <= |el.events|
    requires c.event < n && Active(el, c)
    ensures c in ActiveCells(el, n)
  {
    if c.event < n - 1 {
      ActiveCellsComplete(el, n - 1, c);
    } else {
      CpuCellsComplete(el, c.event, el.numCpus, c.cpu);
    }
  }

  /** A cell is printed in per-CPU mode if and only if its slot is active. */
  lemma ActiveCellsExact(el: EventList, c: Cell)
    requires el.Valid()
    ensures c in ActiveCells(el, |el.events|) <==> Active(el, c)
  {
    if Active(el, c) {
      ActiveCellsComplete(el, |el.events|, c);
    }
  }

  /** When every slot is active, per-CPU mode prints exactly N x C rows. */
  lemma {:induction false} AllActiveFull(el: EventList, n: nat)
    requires el.Valid() && n <= |el.events|
    requires forall e, cpu :: 0 <= e < n && 0 <= cpu < el.numCpus ==> Active(el, Cell(e, cpu))
    ensures |ActiveCells(el, n)| == n * el.numCpus
  {
    if n > 0 {
      AllActiveFull(el, n - 1);
      CpuCellsFull(el, n - 1, el.numCpus);
      assert ActiveCells(el, n) == ActiveCells(el, n - 1) + CpuCells(el, n - 1, el.numCpus);
      assert (n - 1) * el.numCpus + el.numCpus == n * el.numCpus;
    }
  }

  lemma {:induction false} CpuCellsFull(el: EventList, e: nat, n: nat)
    requires el.Valid() && e < |el.events| && n <= el.numCpus
    requires forall cpu :: 0 <= cpu < n ==> Active(el, Cell(e, cpu))
    ensures |CpuCells(el, e, n)| == n
  {
    if n > 0 {
      CpuCellsFull(el, e, n - 1);
      assert Active(el, Cell(e, n - 1));
    }
  }

  /** The scaled values per-CPU mode prints for a sequence of cells. */
  function CellValues(el: EventList, cs: seq<Cell>): seq<int>
    requires el.Valid()
    requires forall k :: 0 <= k < |cs| ==> cs[k].event < |el.events| && cs[k].cpu < el.numCpus
  {
    if cs == [] then []
    else CellValues(el, cs[..|cs| - 1]) + [CpuRow(el, cs[|cs| - 1], None).value]
  }

  lemma CellValuesSnoc(el: EventList, cs: seq<Cell>, c: Cell)
    requires el.Valid() && c.event < |el.events| && c.cpu < el.numCpus
    requires forall k :: 0 <= k < |cs| ==> cs[k].event < |el.events| && cs[k].cpu < el.numCpus
    ensures Sum(CellValues(el, cs + [c])) == Sum(CellValues(el, cs)) + CpuRow(el, c, None).value
  {
    assert (cs + [c])[..|cs|] == cs;
    SumSnoc(CellValues(el, cs), CpuRow(el, c, None).value);
  }

  /** The per-CPU rows of one event add up to the sum over its active slots. */
  lemma {:induction false} CpuCellsSum(el: EventList, e: nat, n: nat)
    requires el.Valid() && e < |el.events| && n <= el.numCpus
    ensures el.events[e] in el.events
    ensures Sum(CellValues(el, CpuCells(el, e, n))) == ActiveSum(el.events[e], n)
  {
    var ev := el.events[e];
    assert ev in el.events;
    if n > 0 {
      CpuCellsSum(el, e, n - 1);
      CpuCellsStep(el, e, n);
    }
  }

  lemma CpuCellsStep(el: EventList, e: nat, n: nat)
    requires el.Valid() && e < |el.events| && 0 < n <= el.numCpus
    ensures el.events[e] in el.events
    ensures Sum(CellValues(el, CpuCells(el, e, n))) ==
      Sum(CellValues(el, CpuCells(el, e, n - 1))) +
      (if el.events[e].slots[n - 1].fd >= 0 then el.events[e].slots[n - 1].scaled else 0)
  {
    var ev := el.events[e];
    assert ev in el.events;
    var prev := CpuCells(el, e, n - 1);
    if ev.slots[n - 1].fd >= 0 {
      assert CpuCells(el, e, n) == prev + [Cell(e, n - 1)];
      CellValuesSnoc(el, prev, Cell(e, n - 1));
    } else {
      assert CpuCells(el, e, n) == prev;
    }
  }

  /** The two modes agree when the backend scales inactive slots to zero:
      the aggregate row of an event carries the sum, modulo 2^64, of the
      values of that event's per-CPU rows. */
  lemma AggrMatchesPerCpu(el: EventList, e: nat, stamp: Option<int>)
    requires el.Valid() && e < |el.events|
    requires forall cpu :: 0 <= cpu < el.numCpus && !Active(el, Cell(e, cpu)) ==>
      el.events[e].slots[cpu].scaled == 0
    ensures AggrRow(el, e, stamp).value == Sum(CellValues(el, CpuCells(el, e, el.numCpus))) % U64
  {
    CpuCellsSum(el, e, el.numCpus);
    AggrMatchesActiveWhenInactiveZero(el.events[e], el.numCpus);
  }

  // ---------------------------------------------------------------------
  // Dispatch
  // ---------------------------------------------------------------------

  /** The rows of one report in the chosen mode. */
  function ReportRows(el: EventList, stamp: Option<int>, noAggr: bool): seq<Row>
    requires el.Valid()
  {
    if noAggr then PerCpuRows(el, stamp) else AggrRows(el, stamp)
  }

  /** `print_data`: per-CPU rows iff `no_aggr`, aggregate rows otherwise;
      every row carries the time column iff `print_ts`. */
  method PrintData(el: EventList, ts: int, printTs: bool, noAggr: bool) returns (rows: seq<Row>)
    requires el.Valid()
    ensures rows == ReportRows(el, Stamp(ts, printTs), noAggr)
    ensures forall k :: 0 <= k < |rows| ==>
      rows[k].stamp == Stamp(ts, printTs) && (rows[k].cpu.Some? <==> noAggr)
  {
    if noAggr {
      rows := PrintDataNoAggr(el, ts, printTs);
    } else {
      rows := PrintDataAggr(el, ts, printTs);
    }
  }
}
