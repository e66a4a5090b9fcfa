/** Per-CPU telemetry counters: recording, summing and resetting, one call at a time. */
module Telemetry {

  datatype Field = RxPackets | RxDrops | RxBytes | LatencyNs | LatencySamples

  datatype Counters = Counters(rxPackets: nat, rxDrops: nat, rxBytes: nat, latencyNs: nat, latencySamples: nat)
  {
    function Get(f: Field): nat {
      match f
      case RxPackets => rxPackets
      case RxDrops => rxDrops
      case RxBytes => rxBytes
      case LatencyNs => latencyNs
      case LatencySamples => latencySamples
    }

    function Add(f: Field, n: nat): (c: Counters)
      ensures forall g :: c.Get(g) == Get(g) + if g == f then n else 0
    {
      match f
      case RxPackets => this.(rxPackets := rxPackets + n)
      case RxDrops => this.(rxDrops := rxDrops + n)
      case RxBytes => this.(rxBytes := rxBytes + n)
      case LatencyNs => this.(latencyNs := latencyNs + n)
      case LatencySamples => this.(latencySamples := latencySamples + n)
    }
  }

  const ZERO: Counters := Counters(0, 0, 0, 0, 0)

  const ABI_VERSION: nat := 1

  datatype Snapshot = Snapshot(abiVersion: nat, cpuCount: nat, counters: Counters)

  /** One call of `record`, as its caller sees it. */
  datatype Event = Event(dropped: bool, bytes: nat, latencyNs: nat)

  /** What one event is worth to each counter. */
  function Worth(e: Event, f: Field): nat {
    match f
    case RxPackets => 1
    case RxDrops => if e.dropped then 1 else 0
    case RxBytes => e.bytes
    case LatencyNs => e.latencyNs
    case LatencySamples => if e.latencyNs != 0 then 1 else 0
  }

  function Tally(events: seq<Event>, f: Field): nat {
    if events == [] then 0 else Tally(events[..|events| - 1], f) + Worth(events[|events| - 1], f)
  }

  /** The sum of one counter over the first `n` CPUs. */
  function Total(cpus: seq<Counters>, f: Field, n: nat): nat
    requires n <= |cpus|
  {
    if n == 0 then 0 else Total(cpus, f, n - 1) + cpus[n - 1].Get(f)
  }

  lemma {:induction false} TotalAfterChange(cpus: seq<Counters>, cpu: nat, c: Counters, f: Field, n: nat)
    requires cpu < |cpus| && n <= |cpus|
    ensures Total(cpus[cpu := c], f, n) == Total(cpus, f, n) + if cpu < n then c.Get(f) - cpus[cpu].Get(f) else 0
  {
    if n > 0 {
      TotalAfterChange(cpus, cpu, c, f, n - 1);
    }
  }

  lemma {:induction false} TotalSame(left: seq<Counters>, right: seq<Counters>, f: Field, n: nat)
    requires n <= |left| && n <= |right|
    requires forall i :: 0 <= i < n ==> left[i].Get(f) == right[i].Get(f)
    ensures Total(left, f, n) == Total(right, f, n)
  {
    if n > 0 {
      TotalSame(left, right, f, n - 1);
    }
  }

  // ----- events spread over CPUs

  datatype LogEntry = LogEntry(cpu: nat, event: Event)

  function Events(log: seq<LogEntry>): seq<Event> {
    seq(|log|, i requires 0 <= i < |log| => log[i].event)
  }

  function EventsOn(log: seq<LogEntry>, cpu: nat): seq<Event> {
    if log == [] then []
    else EventsOn(log[..|log| - 1], cpu) + if log[|log| - 1].cpu == cpu then [log[|log| - 1].event] else []
  }

  lemma OneMoreEvent(log: seq<LogEntry>, entry: LogEntry, cpu: nat, f: Field)
    ensures Tally(EventsOn(log + [entry], cpu), f) ==
            Tally(EventsOn(log, cpu), f) + if entry.cpu == cpu then Worth(entry.event, f) else 0
  {
    assert (log + [entry])[..|log|] == log;
    var here := EventsOn(log, cpu);
    assert (here + [entry.event])[..|here|] == here;
    assert here + [] == here;
  }

  /** The sum of the tallies of the first `n` CPUs. */
  function TallyByCpu(log: seq<LogEntry>, f: Field, n: nat): nat {
    if n == 0 then 0 else TallyByCpu(log, f, n - 1) + Tally(EventsOn(log, n - 1), f)
  }

  lemma {:induction false} TallyByCpuOneMore(log: seq<LogEntry>, entry: LogEntry, f: Field, n: nat)
    ensures TallyByCpu(log + [entry], f, n) == TallyByCpu(log, f, n) + if entry.cpu < n then Worth(entry.event, f) else 0
  {
    if n > 0 {
      TallyByCpuOneMore(log, entry, f, n - 1);
      OneMoreEvent(log, entry, n - 1, f);
    }
  }

  lemma {:induction false} NothingLogged(f: Field, n: nat)
    ensures TallyByCpu([], f, n) == 0
  {
    if n > 0 {
      NothingLogged(f, n - 1);
    }
  }

  /** However the events were spread over the CPUs, the CPUs' tallies add up to one tally of them all. */
  lemma {:induction false} SpreadDoesNotMatter(log: seq<LogEntry>, f: Field, n: nat)
    requires forall i :: 0 <= i < |log| ==> log[i].cpu < n
    ensures TallyByCpu(log, f, n) == Tally(Events(log), f)
  {
    if log == [] {
      NothingLogged(f, n);
    } else {
      var k := |log| - 1;
      SpreadDoesNotMatter(log[..k], f, n);
      TallyByCpuOneMore(log[..k], log[k], f, n);
      assert log[..k] + [log[k]] == log;
      assert Events(log)[..k] == Events(log[..k]);
    }
  }

  lemma {:induction false} TotalIsTally(cpus: seq<Counters>, log: seq<LogEntry>, f: Field, n: nat)
    requires n <= |cpus|
    requires forall i :: 0 <= i < n ==> cpus[i].Get(f) == Tally(EventsOn(log, i), f)
    ensures Total(cpus, f, n) == TallyByCpu(log, f, n)
  {
    if n > 0 {
      TotalIsTally(cpus, log, f, n - 1);
    }
  }

  // ----- the module's entry points

  class KineplexGeoTelemetry {
    var stats: array?<Counters>
    ghost var log: seq<LogEntry>  // what was recorded since the last reset

    ghost predicate Valid()
      reads this, stats
    {
      stats != null ==>
        && (forall i :: 0 <= i < |log| ==> log[i].cpu < stats.Length)
        && (forall cpu, f :: 0 <= cpu < stats.Length ==> stats[cpu].Get(f) == Tally(EventsOn(log, cpu), f))
    }

    constructor ()
      ensures Valid() && stats == null && log == []
    {
      stats, log := null, [];
    }

    method Init(possibleCpus: nat)
      modifies this
      ensures Valid() && fresh(stats) && stats != null && stats.Length == possibleCpus && log == []
    {
      stats := new Counters[possibleCpus](_ => ZERO);
      log := [];
    }

    method Destroy()
      modifies this
      ensures Valid() && stats == null
    {
      stats := null;
    }

    /** Before `Init` and after `Destroy` nothing is recorded. */
    method Record(cpu: nat, dropped: bool, bytes: nat, latencyNs: nat)
      requires Valid() && (stats != null ==> cpu < stats.Length)
      modifies this, stats
      ensures Valid() && stats == old(stats)
      ensures log == if stats == null then old(log) else old(log) + [LogEntry(cpu, Event(dropped, bytes, latencyNs))]
    {
      if stats == null {
        return;
      }
      ghost var before := stats[cpu];
      stats[cpu] := stats[cpu].Add(RxPackets, 1);
      stats[cpu] := stats[cpu].Add(RxBytes, bytes);
      if dropped {
        stats[cpu] := stats[cpu].Add(RxDrops, 1);
      }
      if latencyNs != 0 {
        stats[cpu] := stats[cpu].Add(Field.LatencyNs, latencyNs);
        stats[cpu] := stats[cpu].Add(LatencySamples, 1);
      }
      ghost var entry := LogEntry(cpu, Event(dropped, bytes, latencyNs));
      assert forall f :: stats[cpu].Get(f) == before.Get(f) + Worth(entry.event, f);
      log := log + [entry];
      forall i, f | 0 <= i < stats.Length ensures stats[i].Get(f) == Tally(EventsOn(log, i), f) {
        OneMoreEvent(old(log), entry, i, f);
      }
    }

    /** With no call in progress, the snapshot is one tally of every event since the last reset. */
    method TakeSnapshot(onlineCpus: nat) returns (snapshot: Snapshot)
      requires Valid()
      ensures snapshot.abiVersion == ABI_VERSION && snapshot.cpuCount == onlineCpus
      ensures forall f :: snapshot.counters.Get(f) == if stats == null then 0 else Tally(Events(log), f)
    {
      snapshot := Snapshot(ABI_VERSION, onlineCpus, ZERO);
      if stats == null {
        return;
      }
      var sum := ZERO;
      for cpu := 0 to stats.Length
        invariant forall f :: sum.Get(f) == Total(stats[..], f, cpu)
      {
        var c := stats[cpu];
        sum := sum.(rxPackets := sum.rxPackets + c.rxPackets);
        sum := sum.(rxDrops := sum.rxDrops + c.rxDrops);
        sum := sum.(rxBytes := sum.rxBytes + c.rxBytes);
        sum := sum.(latencyNs := sum.latencyNs + c.latencyNs);
        sum := sum.(latencySamples := sum.latencySamples + c.latencySamples);
      }
      forall f ensures sum.Get(f) == Tally(Events(log), f) {
        TotalIsTally(stats[..], log, f, stats.Length);
        SpreadDoesNotMatter(log, f, stats.Length);
      }
      snapshot := snapshot.(counters := sum);
    }

    method Reset()
      requires Valid()
      modifies this, stats
      ensures Valid() && stats == old(stats)
      ensures log == if stats == null then old(log) else []
    {
      if stats == null {
        return;
      }
      log := [];
      for cpu := 0 to stats.Length
        invariant stats == old(stats) && log == []
        invariant forall i :: 0 <= i < cpu ==> stats[i] == ZERO
      {
        stats[cpu] := ZERO;
      }
    }
  }
}
