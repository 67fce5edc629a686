/** The paging layer's statistics: one static record of eight `unsigned long` counters
    (PF_Stats), zeroed by PFStatsInit and PFStatsReset, copied out by PFStatsGet and bumped
    by the six PFStatsInc* calls. A physical read also counts one input and a physical
    write one output, so those pairs stay equal between resets. */
module PFStatsCounters {

  /** `unsigned long` on the LP64 targets the layer is built for: 64 bits, arithmetic
      modulo 2^64. */
  const ULONG_MODULUS: int := 0x1_0000_0000_0000_0000
  newtype ulong = x: int | 0 <= x < ULONG_MODULUS

  /** The C `++` on an unsigned long: one more, wrapping to 0 past the largest value. */
  function Succ(x: ulong): (r: ulong)
    ensures r as int == (x as int + 1) % ULONG_MODULUS
    ensures x as int < ULONG_MODULUS - 1 ==> r as int == x as int + 1
    ensures x as int == ULONG_MODULUS - 1 ==> r == 0
  {
    if x as int == ULONG_MODULUS - 1 then 0 else x + 1
  }

  /** PF_Stats, field for field. */
  datatype Counters = Counters(
    logicalReads: ulong,
    logicalWrites: ulong,
    physicalReads: ulong,
    physicalWrites: ulong,
    inputCount: ulong,
    outputCount: ulong,
    pageFixes: ulong,
    dirtyMarks: ulong)

  /** The record as memset leaves it. */
  const Zero: Counters := Counters(0, 0, 0, 0, 0, 0, 0, 0)

  /** The names of the eight fields, so that a statement can range over all of them. */
  datatype Counter =
    LogicalReads | LogicalWrites | PhysicalReads | PhysicalWrites
    | InputCount | OutputCount | PageFixes | DirtyMarks

  function Field(c: Counters, k: Counter): ulong {
    match k
    case LogicalReads => c.logicalReads
    case LogicalWrites => c.logicalWrites
    case PhysicalReads => c.physicalReads
    case PhysicalWrites => c.physicalWrites
    case InputCount => c.inputCount
    case OutputCount => c.outputCount
    case PageFixes => c.pageFixes
    case DirtyMarks => c.dirtyMarks
  }

  /** The six events the layer reports, one per PFStatsInc* call. */
  datatype Event = LogicalRead | LogicalWrite | PhysicalRead | PhysicalWrite | PageFix | DirtyMark

  /** Which counters an event bumps: one each, except that a physical read is also an input
      and a physical write also an output. */
  predicate Bumps(e: Event, k: Counter) {
    match e
    case LogicalRead => k == LogicalReads
    case LogicalWrite => k == LogicalWrites
    case PhysicalRead => k == PhysicalReads || k == InputCount
    case PhysicalWrite => k == PhysicalWrites || k == OutputCount
    case PageFix => k == PageFixes
    case DirtyMark => k == DirtyMarks
  }

  /** The effect of one PFStatsInc* call on the record: every counter the event bumps goes
      up by one (modulo 2^64), every other counter keeps its value. */
  function Apply(c: Counters, e: Event): (r: Counters)
    ensures forall k :: Field(r, k) == if Bumps(e, k) then Succ(Field(c, k)) else Field(c, k)
  {
    match e
    case LogicalRead => c.(logicalReads := Succ(c.logicalReads))
    case LogicalWrite => c.(logicalWrites := Succ(c.logicalWrites))
    case PhysicalRead => c.(physicalReads := Succ(c.physicalReads), inputCount := Succ(c.inputCount))
    case PhysicalWrite => c.(physicalWrites := Succ(c.physicalWrites), outputCount := Succ(c.outputCount))
    case PageFix => c.(pageFixes := Succ(c.pageFixes))
    case DirtyMark => c.(dirtyMarks := Succ(c.dirtyMarks))
  }

  /** The record after a reset and then the events `evs`, in order. */
  function Replay(evs: seq<Event>): Counters {
    if evs == [] then Zero else Apply(Replay(evs[..|evs| - 1]), evs[|evs| - 1])
  }

  /** How many of the events bump counter `k`. */
  function Occurrences(evs: seq<Event>, k: Counter): nat {
    if evs == [] then 0
    else Occurrences(evs[..|evs| - 1], k) + if Bumps(evs[|evs| - 1], k) then 1 else 0
  }

  /** Since the last reset, each counter holds the number of events that bump it, modulo 2^64. */
  lemma {:induction false} ReplayCounts(evs: seq<Event>, k: Counter)
    ensures Field(Replay(evs), k) as int == Occurrences(evs, k) % ULONG_MODULUS
  {
    if evs != [] {
      var init := evs[..|evs| - 1];
      ReplayCounts(init, k);
    }
  }

  /** Inputs are counted with physical reads and outputs with physical writes. */
  predicate Paired(c: Counters) {
    c.inputCount == c.physicalReads && c.outputCount == c.physicalWrites
  }

  /** Each event keeps the pairs equal. */
  lemma ApplyKeepsPairing(c: Counters, e: Event)
    requires Paired(c)
    ensures Paired(Apply(c, e))
  {
    assert Field(Apply(c, e), InputCount) == Field(Apply(c, e), PhysicalReads);
    assert Field(Apply(c, e), OutputCount) == Field(Apply(c, e), PhysicalWrites);
  }

  /** From a reset on, inputCount equals physicalReads and outputCount physicalWrites. */
  lemma {:induction false} ReplayKeepsPairing(evs: seq<Event>)
    ensures Paired(Replay(evs))
  {
    if evs != [] {
      ReplayKeepsPairing(evs[..|evs| - 1]);
      ApplyKeepsPairing(Replay(evs[..|evs| - 1]), evs[|evs| - 1]);
    }
  }

  /** More events never bump a counter fewer times. */
  lemma {:induction false} OccurrencesGrow(evs: seq<Event>, more: seq<Event>, k: Counter)
    ensures Occurrences(evs, k) <= Occurrences(evs + more, k)
  {
    if more != [] {
      var m := |more| - 1;
      assert (evs + more)[..|evs + more| - 1] == evs + more[..m];
      OccurrencesGrow(evs, more[..m], k);
    } else {
      assert evs + more == evs;
    }
  }

  /** Between resets no counter goes down, as long as it does not pass 2^64 - 1 and wrap. */
  lemma ReplayMonotone(evs: seq<Event>, more: seq<Event>, k: Counter)
    requires Occurrences(evs + more, k) < ULONG_MODULUS
    ensures Field(Replay(evs), k) <= Field(Replay(evs + more), k)
  {
    OccurrencesGrow(evs, more, k);
    ReplayCounts(evs, k);
    ReplayCounts(evs + more, k);
  }

  /** One more event is one more step of the replay. */
  lemma ReplayStep(evs: seq<Event>, e: Event)
    ensures Replay(evs + [e]) == Apply(Replay(evs), e)
  {
    assert (evs + [e])[..|evs|] == evs;
  }

  /** A PF_Stats record. The layer keeps one, `PFstats`; PFStatsGet copies it into another
      the caller owns. `events` is what has been counted since the last reset. */
  class Stats {
    var logicalReads: ulong
    var logicalWrites: ulong
    var physicalReads: ulong
    var physicalWrites: ulong
    var inputCount: ulong
    var outputCount: ulong
    var pageFixes: ulong
    var dirtyMarks: ulong

    ghost var events: seq<Event>

    function Snapshot(): Counters
      reads this
    {
      Counters(logicalReads, logicalWrites, physicalReads, physicalWrites,
               inputCount, outputCount, pageFixes, dirtyMarks)
    }

    /** The counters are the replay of the events since the last reset. */
    ghost predicate Valid()
      reads this
    {
      Snapshot() == Replay(events)
    }

    /** Static storage starts out zeroed. */
    constructor ()
      ensures Valid() && events == [] && Snapshot() == Zero
    {
      logicalReads, logicalWrites, physicalReads, physicalWrites := 0, 0, 0, 0;
      inputCount, outputCount, pageFixes, dirtyMarks := 0, 0, 0, 0;
      events := [];
    }

    /** PFStatsReset: every counter back to zero. */
    method Reset()
      modifies this
      ensures Valid() && events == [] && Snapshot() == Zero
    {
      logicalReads, logicalWrites, physicalReads, physicalWrites := 0, 0, 0, 0;
      inputCount, outputCount, pageFixes, dirtyMarks := 0, 0, 0, 0;
      events := [];
    }

    /** PFStatsInit: a reset. */
    method Init()
      modifies this
      ensures Valid() && events == [] && Snapshot() == Zero
    {
      Reset();
    }

    /** PFStatsGet: copy every counter into `dest`, or do nothing when it is null. This
        record does not change. */
    method Get(dest: Stats?)
      modifies dest
      ensures dest != null ==> dest.Snapshot() == old(Snapshot())
      ensures dest != this ==> Snapshot() == old(Snapshot())
      ensures dest == null ==> unchanged(this)
    {
      if dest != null {
        var c := Snapshot();
        dest.logicalReads, dest.logicalWrites := c.logicalReads, c.logicalWrites;
        dest.physicalReads, dest.physicalWrites := c.physicalReads, c.physicalWrites;
        dest.inputCount, dest.outputCount := c.inputCount, c.outputCount;
        dest.pageFixes, dest.dirtyMarks := c.pageFixes, c.dirtyMarks;
      }
    }

    /** The six increments, each one event more. */
    method IncLogicalRead()
      requires Valid()
      modifies this
      ensures Valid() && events == old(events) + [LogicalRead]
      ensures Snapshot() == Apply(old(Snapshot()), LogicalRead)
    {
      logicalReads := Succ(logicalReads);
      Record(LogicalRead);
    }

    method IncLogicalWrite()
      requires Valid()
      modifies this
      ensures Valid() && events == old(events) + [LogicalWrite]
      ensures Snapshot() == Apply(old(Snapshot()), LogicalWrite)
    {
      logicalWrites := Succ(logicalWrites);
      Record(LogicalWrite);
    }

    method IncPhysicalRead()
      requires Valid()
      modifies this
      ensures Valid() && events == old(events) + [PhysicalRead]
      ensures Snapshot() == Apply(old(Snapshot()), PhysicalRead)
    {
      physicalReads := Succ(physicalReads);
      inputCount := Succ(inputCount);
      Record(PhysicalRead);
    }

    method IncPhysicalWrite()
      requires Valid()
      modifies this
      ensures Valid() && events == old(events) + [PhysicalWrite]
      ensures Snapshot() == Apply(old(Snapshot()), PhysicalWrite)
    {
      physicalWrites := Succ(physicalWrites);
      outputCount := Succ(outputCount);
      Record(PhysicalWrite);
    }

    method IncPageFix()
      requires Valid()
      modifies this
      ensures Valid() && events == old(events) + [PageFix]
      ensures Snapshot() == Apply(old(Snapshot()), PageFix)
    {
      pageFixes := Succ(pageFixes);
      Record(PageFix);
    }

    method IncDirtyMark()
      requires Valid()
      modifies this
      ensures Valid() && events == old(events) + [DirtyMark]
      ensures Snapshot() == Apply(old(Snapshot()), DirtyMark)
    {
      dirtyMarks := Succ(dirtyMarks);
      Record(DirtyMark);
    }

    /** Books event `e`, whose counters have just been bumped, in the history. */
    ghost method Record(e: Event)
      requires Snapshot() == Apply(Replay(events), e)
      modifies this
      ensures events == old(events) + [e] && Valid()
      ensures Snapshot() == old(Snapshot())
    {
      ReplayStep(events, e);
      events := events + [e];
    }
  }
}
