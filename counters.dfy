/** The counter data jestat reports on: an event list whose events carry one
    file-descriptor slot and one scaled value per CPU, and the rows a report
    is made of. The linked list of events becomes a sequence in list order. */
module Counters {

  datatype Option<+T> = None | Some(value: T)

  /** Values of a C `uint64_t`. */
  const U64: int := 0x1_0000_0000_0000_0000
  type u64 = x: int | 0 <= x < U64

  /** The slot of one event on one CPU: the counter's file descriptor
      (negative when the event is not monitored on that CPU) and the value
      the counter backend's scaling step reports for it. */
  datatype Slot = Slot(fd: int, scaled: u64)

  /** One event: its resolved symbolic name if it has one, the raw event
      specification it was parsed from, and one slot per CPU. */
  datatype Event = Event(name: Option<string>, spec: string, slots: seq<Slot>)

  /** The event list with its CPU count. */
  datatype EventList = EventList(events: seq<Event>, numCpus: nat)
  {
    /** Every event has exactly one slot per CPU the list covers. */
    predicate Valid() {
      forall e :: e in events ==> |e.slots| == numCpus
    }
  }

  /** One output line: the optional elapsed-time column, the CPU column of
      per-CPU mode, the event label and the (unsigned 64-bit) value. */
  datatype Row = Row(stamp: Option<int>, cpu: Option<nat>, event: string, value: u64)

  /** Naming precedence: the symbolic name when present, else the raw spec. */
  function Label(e: Event): (l: string)
    ensures e.name.Some? ==> l == e.name.value
    ensures e.name.None? ==> l == e.spec
  {
    match e.name
    case Some(n) => n
    case None => e.spec
  }

  /** The elapsed-time column a report carries: present iff asked for. */
  function Stamp(ts: int, printTs: bool): (s: Option<int>)
    ensures s.Some? <==> printTs
    ensures s.Some? ==> s.value == ts
  {
    if printTs then Some(ts) else None
  }

  /** `uint64_t` addition: the sum wraps around at 2^64. */
  function AddU64(a: u64, b: u64): (r: u64)
    ensures r == (a + b) % U64
  {
    if a + b < U64 then a + b else a + b - U64
  }

  /** Mathematical (unbounded) sum, used as the reference for wrapping sums. */
  function Sum(xs: seq<int>): int
  {
    if xs == [] then 0 else Sum(xs[..|xs| - 1]) + xs[|xs| - 1]
  }

  lemma SumSnoc(xs: seq<int>, x: int)
    ensures Sum(xs + [x]) == Sum(xs) + x
  {
    assert (xs + [x])[..|xs|] == xs;
  }

  /** Adding to a value already reduced modulo 2^64 gives the same residue
      as adding to the unreduced value: what makes a `uint64_t +=` loop
      compute the sum modulo 2^64. */
  lemma ModAdd(a: int, b: int)
    ensures (a % U64 + b) % U64 == (a + b) % U64
  {
    var q := a / U64;
    assert a == q * U64 + a % U64;
    ModMultiple(a % U64 + b, q);
  }

  lemma ModMultiple(x: int, q: int)
    ensures (x + q * U64) % U64 == x % U64
  {
    var r := x % U64;
    var d := x / U64;
    assert x + q * U64 == (d + q) * U64 + r;
  }
}
