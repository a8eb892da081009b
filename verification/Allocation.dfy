/** The per-thread allocation counters and the guard that reads them. */
module Allocation {
  const USIZE_MAX := 0xFFFF_FFFF_FFFF_FFFF

  type usize = n: int | 0 <= n <= USIZE_MAX

  function SaturatingAdd(a: usize, b: usize): usize {
    if a + b > USIZE_MAX then USIZE_MAX else a + b
  }

  function SaturatingSub(a: usize, b: usize): usize {
    if a < b then 0 else a - b
  }

  /** One call on the allocator and whether the system allocator granted it. */
  datatype Event =
    | Alloc(size: usize, granted: bool)
    | Dealloc(size: usize)
    | Realloc(oldSize: usize, newSize: usize, granted: bool)

  datatype Counters = Counters(count: usize, bytes: usize)

  function Record(c: Counters, e: Event): Counters {
    match e
    case Alloc(size, granted) =>
      if granted then Counters(SaturatingAdd(c.count, 1), SaturatingAdd(c.bytes, size)) else c
    case Dealloc(_) => c
    case Realloc(oldSize, newSize, granted) =>
      if granted && newSize > oldSize then c.(bytes := SaturatingAdd(c.bytes, newSize - oldSize)) else c
  }

  function RecordAll(c: Counters, trace: seq<Event>): Counters {
    if trace == [] then c else Record(RecordAll(c, trace[..|trace| - 1]), trace[|trace| - 1])
  }

  // ---- what the trace really did ------------------------------------------

  function Allocations(trace: seq<Event>): nat {
    if trace == [] then 0
    else
      var last := trace[|trace| - 1];
      Allocations(trace[..|trace| - 1]) + (if last.Alloc? && last.granted then 1 else 0)
  }

  /** Bytes handed out, by allocation or by growing a block. */
  function BytesHandedOut(trace: seq<Event>): nat {
    if trace == [] then 0
    else BytesHandedOut(trace[..|trace| - 1]) + HandedOut(trace[|trace| - 1])
  }

  function HandedOut(e: Event): nat {
    match e
    case Alloc(size, granted) => if granted then size else 0
    case Dealloc(_) => 0
    case Realloc(oldSize, newSize, granted) => if granted && newSize > oldSize then newSize - oldSize else 0
  }

  /** Change in live heap bytes. */
  function NetGrowth(trace: seq<Event>): int {
    if trace == [] then 0
    else NetGrowth(trace[..|trace| - 1]) + Growth(trace[|trace| - 1])
  }

  function Growth(e: Event): int {
    match e
    case Alloc(size, granted) => if granted then size else 0
    case Dealloc(size) => 0 - size as int
    case Realloc(oldSize, newSize, granted) => if granted then newSize - oldSize else 0
  }

  /** What one call adds: the calls counted, the bytes handed out, the change in live bytes. */
  lemma EventAdds(trace: seq<Event>, size: usize, newSize: usize)
    ensures Allocations(trace + [Alloc(size, true)]) == Allocations(trace) + 1
    ensures BytesHandedOut(trace + [Alloc(size, true)]) == BytesHandedOut(trace) + size
    ensures NetGrowth(trace + [Alloc(size, true)]) == NetGrowth(trace) + size
    ensures Allocations(trace + [Dealloc(size)]) == Allocations(trace)
    ensures BytesHandedOut(trace + [Dealloc(size)]) == BytesHandedOut(trace)
    ensures NetGrowth(trace + [Dealloc(size)]) == NetGrowth(trace) - size
    ensures Allocations(trace + [Realloc(size, newSize, true)]) == Allocations(trace)
    ensures BytesHandedOut(trace + [Realloc(size, newSize, true)])
         == BytesHandedOut(trace) + (if newSize > size then newSize - size else 0)
    ensures NetGrowth(trace + [Realloc(size, newSize, true)]) == NetGrowth(trace) + newSize - size
  {
    LastEvent(trace, Alloc(size, true));
    LastEvent(trace, Dealloc(size));
    LastEvent(trace, Realloc(size, newSize, true));
  }

  /** A refused request adds nothing. */
  lemma RefusedAddsNothing(trace: seq<Event>, e: Event)
    requires !e.Dealloc? && !e.granted
    ensures Allocations(trace + [e]) == Allocations(trace) && BytesHandedOut(trace + [e]) == BytesHandedOut(trace)
    ensures NetGrowth(trace + [e]) == NetGrowth(trace)
  {
    LastEvent(trace, e);
  }

  lemma LastEvent(trace: seq<Event>, e: Event)
    ensures (trace + [e])[..|trace + [e]| - 1] == trace && (trace + [e])[|trace + [e]| - 1] == e
  {
  }

  /** The counters hold 64 bits. */
  lemma CappedMeaning(n: nat)
    ensures Capped(n) as int == if n < 0x1_0000_0000_0000_0000 then n else 0xFFFF_FFFF_FFFF_FFFF
  {
  }

  function Capped(n: nat): usize { if n > USIZE_MAX then USIZE_MAX else n }

  /** Saturating step by step is saturating the exact total once. */
  lemma {:induction false} CountersAreCappedTotals(c: Counters, trace: seq<Event>)
    ensures RecordAll(c, trace)
         == Counters(Capped(c.count + Allocations(trace)), Capped(c.bytes + BytesHandedOut(trace)))
  {
    if trace != [] {
      CountersAreCappedTotals(c, trace[..|trace| - 1]);
    }
  }

  lemma {:induction false} NetGrowthBelowHandedOut(trace: seq<Event>)
    ensures NetGrowth(trace) <= BytesHandedOut(trace)
  {
    if trace != [] {
      NetGrowthBelowHandedOut(trace[..|trace| - 1]);
    }
  }

  /** A guard taken at counters `c`, read after a trace, reports the exact totals precisely
      while they fit; and the byte total bounds the growth of the live heap. */
  lemma GuardIsExactIff(c: Counters, trace: seq<Event>)
    ensures var after := RecordAll(c, trace);
      && (SaturatingSub(after.count, c.count) == Allocations(trace) <==> c.count + Allocations(trace) <= USIZE_MAX)
      && (SaturatingSub(after.bytes, c.bytes) == BytesHandedOut(trace)
          <==> c.bytes + BytesHandedOut(trace) <= USIZE_MAX)
      && (c.bytes + BytesHandedOut(trace) <= USIZE_MAX ==>
            NetGrowth(trace) <= SaturatingSub(after.bytes, c.bytes))
  {
    CountersAreCappedTotals(c, trace);
    NetGrowthBelowHandedOut(trace);
  }

  /** The zero-allocation assertion looks at the count alone. */
  predicate PassesZeroAlloc(c: Counters, trace: seq<Event>) {
    SaturatingSub(RecordAll(c, trace).count, c.count) == 0
  }

  /** It passes exactly when no allocation was granted, or the counter had no room left. */
  lemma ZeroAllocPassesIff(c: Counters, trace: seq<Event>)
    ensures PassesZeroAlloc(c, trace) <==> Allocations(trace) == 0 || c.count == USIZE_MAX
  {
    CountersAreCappedTotals(c, trace);
  }

  /** An event that a counter with room left shows. */
  predicate Counted(e: Event) { e.Alloc? && e.granted }

  /** An event that hands out bytes without being counted. */
  predicate Grows(e: Event) { e.Realloc? && e.granted && e.oldSize < e.newSize }

  lemma {:induction false} AllocationsMeaning(trace: seq<Event>)
    ensures Allocations(trace) > 0 <==> exists e :: e in trace && Counted(e)
  {
    if trace != [] {
      var front, last := trace[..|trace| - 1], trace[|trace| - 1];
      AllocationsMeaning(front);
      assert last in trace && forall e :: e in trace <==> e in front || e == last;
    }
  }

  lemma {:induction false} BytesMeaning(trace: seq<Event>)
    ensures BytesHandedOut(trace) == 0 <==> forall e :: e in trace ==> !Grows(e) && (Counted(e) ==> e.size == 0)
  {
    if trace != [] {
      var front, last := trace[..|trace| - 1], trace[|trace| - 1];
      BytesMeaning(front);
      assert last in trace && forall e :: e in trace <==> e in front || e == last;
    }
  }

  /** When a pass means that no byte was handed out. With room in the counter: exactly for the
      traces that grant an allocation (they do not pass) or grow no block. With none left:
      exactly for those that neither grow a block nor grant a non-empty allocation. */
  lemma PassIsTrustworthyIff(c: Counters, trace: seq<Event>)
    ensures c.count < USIZE_MAX ==>
      ((PassesZeroAlloc(c, trace) ==> BytesHandedOut(trace) == 0) <==>
       (exists e :: e in trace && Counted(e)) || (forall e :: e in trace ==> !Grows(e)))
    ensures c.count == USIZE_MAX ==>
      ((PassesZeroAlloc(c, trace) ==> BytesHandedOut(trace) == 0) <==>
       (forall e :: e in trace ==> !Grows(e) && (Counted(e) ==> e.size == 0)))
  {
    ZeroAllocPassesIff(c, trace);
    AllocationsMeaning(trace);
    BytesMeaning(trace);
  }

  /** So growing a block is not seen as an allocation, however many bytes it hands out. */
  lemma GrowthPassesZeroAlloc(c: Counters, oldSize: usize, newSize: usize)
    requires oldSize < newSize
    ensures PassesZeroAlloc(c, [Realloc(oldSize, newSize, true)])
    ensures BytesHandedOut([Realloc(oldSize, newSize, true)]) == newSize - oldSize > 0
  {
    var trace := [Realloc(oldSize, newSize, true)];
    assert trace[..0] == [];
    ZeroAllocPassesIff(c, trace);
  }

  /** What one guard remembers. */
  datatype AllocationGuard = AllocationGuard(startCount: usize, startBytes: usize)

  /** The thread-local cells. */
  class ThreadCounters {
    var count: usize
    var bytes: usize
    ghost var trace: seq<Event>

    function Now(): Counters
      reads this
    {
      Counters(count, bytes)
    }

    /** The cells are the capped totals of everything since the thread began or was reset. */
    ghost predicate Valid()
      reads this
    {
      Now() == RecordAll(Counters(0, 0), trace)
    }

    constructor ()
      ensures Valid() && trace == []
    {
      count, bytes, trace := 0, 0, [];
    }

    method OnAlloc(size: usize, granted: bool)
      requires Valid()
      modifies this
      ensures Valid() && trace == old(trace) + [Alloc(size, granted)]
    {
      if granted {
        count := SaturatingAdd(count, 1);
        bytes := SaturatingAdd(bytes, size);
      }
      trace := trace + [Alloc(size, granted)];
      assert trace[..|trace| - 1] == old(trace);
    }

    method OnDealloc(size: usize)
      requires Valid()
      modifies this`trace
      ensures Valid() && trace == old(trace) + [Dealloc(size)]
    {
      trace := trace + [Dealloc(size)];
      assert trace[..|trace| - 1] == old(trace);
    }

    method OnRealloc(oldSize: usize, newSize: usize, granted: bool)
      requires Valid()
      modifies this`bytes, this`trace
      ensures Valid() && trace == old(trace) + [Realloc(oldSize, newSize, granted)]
    {
      if granted && newSize > oldSize {
        bytes := SaturatingAdd(bytes, newSize - oldSize);
      }
      trace := trace + [Realloc(oldSize, newSize, granted)];
      assert trace[..|trace| - 1] == old(trace);
    }

    method ResetCounters()
      modifies this
      ensures Valid() && trace == [] && Now() == Counters(0, 0)
    {
      count, bytes, trace := 0, 0, [];
    }

    method NewGuard() returns (g: AllocationGuard)
      ensures g == AllocationGuard(count, bytes)
    {
      g := AllocationGuard(count, bytes);
    }

    /** Both readings of a guard, whatever has happened since it was made. */
    method SinceStart(g: AllocationGuard, ghost before: seq<Event>, ghost later: seq<Event>)
      returns (allocations: usize, bytesAllocated: usize)
      requires Valid()
      ensures allocations == SaturatingSub(count, g.startCount)
      ensures bytesAllocated == SaturatingSub(bytes, g.startBytes)
      ensures Made(g, before) && trace == before + later && Allocations(trace) <= USIZE_MAX ==>
                allocations == Allocations(later)
      ensures Made(g, before) && trace == before + later && BytesHandedOut(trace) <= USIZE_MAX ==>
                bytesAllocated == BytesHandedOut(later) && NetGrowth(later) <= bytesAllocated
    {
      allocations := SaturatingSub(count, g.startCount);
      bytesAllocated := SaturatingSub(bytes, g.startBytes);
      CountersAreCappedTotals(Counters(0, 0), before);
      CountersAreCappedTotals(Counters(0, 0), trace);
      TotalsAppend(before, later);
      NetGrowthBelowHandedOut(later);
    }
  }

  /** A guard made after the trace `before`. */
  predicate Made(g: AllocationGuard, before: seq<Event>) {
    Counters(g.startCount, g.startBytes) == RecordAll(Counters(0, 0), before)
  }

  predicate Fits(trace: seq<Event>) {
    Allocations(trace) <= USIZE_MAX && BytesHandedOut(trace) <= USIZE_MAX
  }

  /** After a reset an older guard subtracts what no longer counts: its readings are exact only
      if one of the two sides is zero. */
  lemma ResetGuardExactIff(g: AllocationGuard, before: seq<Event>, later: seq<Event>)
    requires Made(g, before) && Fits(before) && Fits(later)
    ensures var now := RecordAll(Counters(0, 0), later);
      && (SaturatingSub(now.count, g.startCount) == Allocations(later)
          <==> Allocations(before) == 0 || Allocations(later) == 0)
      && (SaturatingSub(now.bytes, g.startBytes) == BytesHandedOut(later)
          <==> BytesHandedOut(before) == 0 || BytesHandedOut(later) == 0)
  {
    CountersAreCappedTotals(Counters(0, 0), before);
    CountersAreCappedTotals(Counters(0, 0), later);
  }

  lemma {:induction false} TotalsAppend(a: seq<Event>, b: seq<Event>)
    ensures Allocations(a + b) == Allocations(a) + Allocations(b)
    ensures BytesHandedOut(a + b) == BytesHandedOut(a) + BytesHandedOut(b)
    decreases |b|
  {
    if b == [] {
      assert a + b == a;
    } else {
      assert (a + b)[..|a + b| - 1] == a + b[..|b| - 1];
      TotalsAppend(a, b[..|b| - 1]);
    }
  }
}
