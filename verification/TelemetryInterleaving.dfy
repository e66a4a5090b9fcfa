/** Lock-free writers and one summing reader, interleaved field by field. Each CPU runs its own
    `record` calls one after the other; the reader walks the CPUs and, on each, the five fields. */
module TelemetryInterleaving {
  import opened Telemetry

  datatype Increment = Increment(field: Field, amount: nat)

  /** The increments one event makes, in the order of the code. */
  function Program(e: Event): seq<Increment> {
    [Increment(RxPackets, 1), Increment(RxBytes, e.bytes)]
    + (if e.dropped then [Increment(RxDrops, 1)] else [])
    + (if e.latencyNs != 0 then [Increment(LatencyNs, e.latencyNs), Increment(LatencySamples, 1)] else [])
  }

  datatype Writer = Idle | Busy(event: Event, done: nat)

  datatype Reader = NotStarted | Reading(cpu: nat, next: nat, sum: Counters) | Finished(sum: Counters)

  datatype System = System(cpus: seq<Counters>, writers: seq<Writer>, reader: Reader)

  datatype Action = Begin(cpu: nat, event: Event) | Write(cpu: nat) | StartSnapshot | Read

  /** The order in which the reader takes the fields of one CPU. */
  function FieldAt(i: nat): Field {
    if i == 0 then RxPackets else if i == 1 then RxDrops else if i == 2 then RxBytes
    else if i == 3 then LatencyNs else LatencySamples
  }

  function Position(f: Field): nat {
    match f
    case RxPackets => 0
    case RxDrops => 1
    case RxBytes => 2
    case LatencyNs => 3
    case LatencySamples => 4
  }

  ghost predicate WellFormed(s: System) {
    && |s.writers| == |s.cpus|
    && (forall i :: 0 <= i < |s.writers| && s.writers[i].Busy? ==> s.writers[i].done < |Program(s.writers[i].event)|)
    && (s.reader.Reading? ==> s.reader.cpu < |s.cpus| && s.reader.next < 5)
  }

  function BeginStep(s: System, cpu: nat, e: Event): System
    requires WellFormed(s)
  {
    if cpu < |s.cpus| && s.writers[cpu].Idle? then s.(writers := s.writers[cpu := Busy(e, 0)]) else s
  }

  function WriteStep(s: System, cpu: nat): System
    requires WellFormed(s)
  {
    if cpu < |s.cpus| && s.writers[cpu].Busy? then
      var w := s.writers[cpu];
      var p := Program(w.event);
      var w' := if w.done + 1 == |p| then Idle else Busy(w.event, w.done + 1);
      s.(cpus := s.cpus[cpu := s.cpus[cpu].Add(p[w.done].field, p[w.done].amount)], writers := s.writers[cpu := w'])
    else s
  }

  function StartStep(s: System): System {
    if s.reader.NotStarted? then s.(reader := if |s.cpus| == 0 then Finished(ZERO) else Reading(0, 0, ZERO)) else s
  }

  function ReadStep(s: System): System
    requires WellFormed(s)
  {
    match s.reader
    case Reading(cpu, next, sum) =>
      var sum' := sum.Add(FieldAt(next), s.cpus[cpu].Get(FieldAt(next)));
      s.(reader := if next < 4 then Reading(cpu, next + 1, sum')
                   else if cpu + 1 < |s.cpus| then Reading(cpu + 1, 0, sum') else Finished(sum'))
    case _ => s
  }

  /** An action that is not enabled changes nothing. */
  function Step(s: System, a: Action): (s': System)
    requires WellFormed(s)
    ensures WellFormed(s') && |s'.cpus| == |s.cpus|
  {
    match a
    case Begin(cpu, e) => BeginStep(s, cpu, e)
    case Write(cpu) => WriteStep(s, cpu)
    case StartSnapshot => StartStep(s)
    case Read => ReadStep(s)
  }

  function Run(s: System, actions: seq<Action>): (s': System)
    requires WellFormed(s)
    ensures WellFormed(s') && |s'.cpus| == |s.cpus|
  {
    if actions == [] then s else Step(Run(s, actions[..|actions| - 1]), actions[|actions| - 1])
  }

  // ----- what a snapshot taken while writers run can report

  /** How many CPUs the reader has already taken this field from. */
  function TakenFrom(r: Reader, f: Field, cpus: nat): nat {
    match r
    case NotStarted => 0
    case Reading(cpu, next, _) => cpu + if Position(f) < next then 1 else 0
    case Finished(_) => cpus
  }

  /** Counters only grow from `start`, and what the reader has summed lies between what it would
      have summed at the start and what it would sum now. */
  ghost predicate Bracketed(start: seq<Counters>, s: System) {
    && |start| == |s.cpus|
    && (forall i, f :: 0 <= i < |start| ==> start[i].Get(f) <= s.cpus[i].Get(f))
    && !s.reader.NotStarted?
    && forall f :: BracketedField(start, s.cpus, s.reader, f)
  }

  ghost predicate BracketedField(start: seq<Counters>, now: seq<Counters>, r: Reader, f: Field) {
    !r.NotStarted? ==>
      var n := TakenFrom(r, f, |start|);
      n <= |start| && n <= |now| && Total(start, f, n) <= r.sum.Get(f) <= Total(now, f, n)
  }

  lemma {:induction false} TotalMonotone(left: seq<Counters>, right: seq<Counters>, f: Field, n: nat)
    requires n <= |left| && n <= |right|
    requires forall i :: 0 <= i < n ==> left[i].Get(f) <= right[i].Get(f)
    ensures Total(left, f, n) <= Total(right, f, n)
  {
    if n > 0 {
      TotalMonotone(left, right, f, n - 1);
    }
  }

  lemma WriteKeepsBracket(start: seq<Counters>, s: System, cpu: nat)
    requires WellFormed(s) && Bracketed(start, s)
    ensures Bracketed(start, WriteStep(s, cpu))
  {
    var s' := WriteStep(s, cpu);
    assert forall i, f :: 0 <= i < |s.cpus| ==> s.cpus[i].Get(f) <= s'.cpus[i].Get(f);
    forall f ensures BracketedField(start, s'.cpus, s'.reader, f) {
      assert BracketedField(start, s.cpus, s.reader, f);
      TotalMonotone(s.cpus, s'.cpus, f, TakenFrom(s.reader, f, |start|));
    }
  }

  lemma ReadKeepsBracket(start: seq<Counters>, s: System)
    requires WellFormed(s) && Bracketed(start, s)
    ensures Bracketed(start, ReadStep(s))
  {
    if s.reader.Reading? {
      var s' := ReadStep(s);
      var cpu, g := s.reader.cpu, FieldAt(s.reader.next);
      forall f ensures BracketedField(start, s'.cpus, s'.reader, f) {
        assert BracketedField(start, s.cpus, s.reader, f);
        assert TakenFrom(s'.reader, f, |start|) == TakenFrom(s.reader, f, |start|) + if f == g then 1 else 0;
      }
    }
  }

  lemma {:induction false} RunKeepsBracket(start: seq<Counters>, s: System, actions: seq<Action>)
    requires WellFormed(s) && Bracketed(start, s)
    ensures Bracketed(start, Run(s, actions))
  {
    if actions != [] {
      var n := |actions| - 1;
      RunKeepsBracket(start, s, actions[..n]);
      var now := Run(s, actions[..n]);
      match actions[n]
      case Begin(cpu, e) =>
      case Write(cpu) => WriteKeepsBracket(start, now, cpu);
      case StartSnapshot =>
      case Read => ReadKeepsBracket(start, now);
    }
  }

  /** Whatever the interleaving, every counter a snapshot reports lies between the true total when
      the snapshot started and the true total when it ended. */
  lemma SnapshotBracket(s: System, actions: seq<Action>, f: Field)
    requires WellFormed(s) && s.reader.NotStarted?
    requires Run(Step(s, StartSnapshot), actions).reader.Finished?
    ensures var end := Run(Step(s, StartSnapshot), actions);
            Total(s.cpus, f, |s.cpus|) <= end.reader.sum.Get(f) <= Total(end.cpus, f, |s.cpus|)
  {
    var started := Step(s, StartSnapshot);
    assert Bracketed(s.cpus, started);
    RunKeepsBracket(s.cpus, started, actions);
    assert BracketedField(s.cpus, Run(started, actions).cpus, Run(started, actions).reader, f);
  }

  // ----- what every CPU's counters satisfy at every step

  /** What the first `k` increments of the event add to a counter. */
  function Added(e: Event, k: nat, f: Field): nat
    requires k <= |Program(e)|
  {
    if k == 0 then 0
    else Added(e, k - 1, f) + if Program(e)[k - 1].field == f then Program(e)[k - 1].amount else 0
  }

  lemma AddedInOrder(e: Event, k: nat)
    requires k <= |Program(e)|
    ensures Added(e, k, RxPackets) == if k >= 1 then 1 else 0
    ensures Added(e, k, RxDrops) == if e.dropped && k >= 3 then 1 else 0
    ensures var at := if e.dropped then 4 else 3;
            && Added(e, k, LatencyNs) == (if e.latencyNs != 0 && k >= at then e.latencyNs else 0)
            && Added(e, k, LatencySamples) == (if e.latencyNs != 0 && k >= at + 1 then 1 else 0)
    ensures Added(e, k, RxBytes) == if k >= 2 then e.bytes else 0
  {
    if k > 0 {
      AddedInOrder(e, k - 1);
    }
  }

  predicate Consistent(c: Counters) {
    c.rxDrops <= c.rxPackets && c.latencySamples <= c.rxPackets && c.latencySamples <= c.latencyNs
  }

  /** What the counters were before the event in progress. */
  function Before(c: Counters, w: Writer, f: Field): int
    requires w.Busy? ==> w.done <= |Program(w.event)|
  {
    if w.Idle? then c.Get(f) else c.Get(f) - Added(w.event, w.done, f)
  }

  predicate ConsistentBefore(c: Counters, w: Writer)
    requires w.Busy? ==> w.done <= |Program(w.event)|
  {
    && Before(c, w, RxDrops) <= Before(c, w, RxPackets)
    && Before(c, w, LatencySamples) <= Before(c, w, RxPackets)
    && Before(c, w, LatencySamples) <= Before(c, w, LatencyNs)
  }

  ghost predicate AllConsistent(s: System)
    requires WellFormed(s)
  {
    forall i :: 0 <= i < |s.cpus| ==> Consistent(s.cpus[i]) && ConsistentBefore(s.cpus[i], s.writers[i])
  }

  lemma WriteKeepsConsistent(s: System, cpu: nat)
    requires WellFormed(s) && AllConsistent(s)
    ensures AllConsistent(WriteStep(s, cpu))
  {
    if cpu < |s.cpus| && s.writers[cpu].Busy? {
      var w := s.writers[cpu];
      AddedInOrder(w.event, w.done);
      AddedInOrder(w.event, w.done + 1);
    }
  }

  /** From counters that are consistent and writers at rest, at every step of every interleaving
      every CPU has no more drops than packets, no more latency samples than packets, and no more
      latency samples than nanoseconds: the code counts a packet before anything else about it. */
  lemma {:induction false} ConsistentAlways(s: System, actions: seq<Action>)
    requires WellFormed(s) && AllConsistent(s)
    ensures AllConsistent(Run(s, actions))
  {
    if actions != [] {
      var n := |actions| - 1;
      ConsistentAlways(s, actions[..n]);
      var now := Run(s, actions[..n]);
      match actions[n]
      case Begin(cpu, e) =>
        if cpu < |now.cpus| {
          AddedInOrder(e, 0);
        }
      case Write(cpu) => WriteKeepsConsistent(now, cpu);
      case StartSnapshot =>
      case Read =>
    }
  }

  // ----- nothing is lost

  /** What the event in progress has still to add. */
  function Outstanding(w: Writer, f: Field): int
    requires w.Busy? ==> w.done <= |Program(w.event)|
  {
    if w.Idle? then 0 else Worth(w.event, f) - Added(w.event, w.done, f)
  }

  function OutstandingTotal(s: System, f: Field, n: nat): int
    requires WellFormed(s) && n <= |s.cpus|
  {
    if n == 0 then 0 else OutstandingTotal(s, f, n - 1) + Outstanding(s.writers[n - 1], f)
  }

  /** The events that the run's writers began, in the order in which they began. */
  function Begun(s: System, actions: seq<Action>): seq<Event>
    requires WellFormed(s)
  {
    if actions == [] then []
    else
      var n := |actions| - 1;
      var now, a := Run(s, actions[..n]), actions[n];
      Begun(s, actions[..n]) + if a.Begin? && a.cpu < |now.cpus| && now.writers[a.cpu].Idle? then [a.event] else []
  }

  lemma {:induction false} OutstandingAfterChange(s: System, s': System, cpu: nat, f: Field, n: nat)
    requires WellFormed(s) && WellFormed(s') && |s.cpus| == |s'.cpus| && n <= |s.cpus| && cpu < |s.cpus|
    requires forall i :: 0 <= i < |s.cpus| && i != cpu ==> s'.writers[i] == s.writers[i]
    ensures OutstandingTotal(s', f, n) == OutstandingTotal(s, f, n)
            + if cpu < n then Outstanding(s'.writers[cpu], f) - Outstanding(s.writers[cpu], f) else 0
  {
    if n > 0 {
      OutstandingAfterChange(s, s', cpu, f, n - 1);
    }
  }

  lemma {:induction false} OutstandingSame(s: System, s': System, f: Field, n: nat)
    requires WellFormed(s) && WellFormed(s') && s.writers == s'.writers && |s.cpus| == |s'.cpus| && n <= |s.cpus|
    ensures OutstandingTotal(s', f, n) == OutstandingTotal(s, f, n)
  {
    if n > 0 {
      OutstandingSame(s, s', f, n - 1);
    }
  }

  function Accounted(s: System, f: Field): int
    requires WellFormed(s)
  {
    Total(s.cpus, f, |s.cpus|) + OutstandingTotal(s, f, |s.cpus|)
  }

  lemma OutstandingAfterWrite(e: Event, k: nat, f: Field)
    requires k < |Program(e)|
    ensures var w' := if k + 1 == |Program(e)| then Idle else Busy(e, k + 1);
            var inc := Program(e)[k];
            Outstanding(w', f) == Outstanding(Busy(e, k), f) - if inc.field == f then inc.amount else 0
  {
    ProgramAddsWorth(e, f);
  }

  /** Run to its end, the program adds to each counter what the event is worth to it. */
  lemma ProgramAddsWorth(e: Event, f: Field)
    ensures Added(e, |Program(e)|, f) == Worth(e, f)
  {
    AddedInOrder(e, |Program(e)|);
  }

  lemma WriteMovesNothing(s: System, cpu: nat, f: Field)
    requires WellFormed(s)
    ensures Accounted(WriteStep(s, cpu), f) == Accounted(s, f)
  {
    if cpu < |s.cpus| && s.writers[cpu].Busy? {
      var s', w := WriteStep(s, cpu), s.writers[cpu];
      TotalAfterChange(s.cpus, cpu, s'.cpus[cpu], f, |s.cpus|);
      OutstandingAfterChange(s, s', cpu, f, |s.cpus|);
      OutstandingAfterWrite(w.event, w.done, f);
    }
  }

  lemma BeginAddsWorth(s: System, cpu: nat, e: Event, f: Field)
    requires WellFormed(s) && cpu < |s.cpus| && s.writers[cpu].Idle?
    ensures Accounted(BeginStep(s, cpu, e), f) == Accounted(s, f) + Worth(e, f)
  {
    OutstandingAfterChange(s, BeginStep(s, cpu, e), cpu, f, |s.cpus|);
  }

  /** At every step of every interleaving the counters, plus what the events in progress still owe,
      are what they were at the start plus one tally of all the events begun since. */
  lemma {:induction false} EveryEventAccounted(s: System, actions: seq<Action>, f: Field)
    requires WellFormed(s)
    ensures Accounted(Run(s, actions), f) == Accounted(s, f) + Tally(Begun(s, actions), f)
  {
    if actions != [] {
      var n := |actions| - 1;
      var now, begun := Run(s, actions[..n]), Begun(s, actions[..n]);
      EveryEventAccounted(s, actions[..n], f);
      match actions[n]
      case Begin(cpu, e) =>
        if cpu < |now.cpus| && now.writers[cpu].Idle? {
          BeginAddsWorth(now, cpu, e, f);
          assert (begun + [e])[..|begun|] == begun;
        } else {
          assert begun + [] == begun;
        }
      case Write(cpu) =>
        WriteMovesNothing(now, cpu, f);
        assert begun + [] == begun;
      case StartSnapshot =>
        OutstandingSame(now, Run(s, actions), f, |s.cpus|);
        assert begun + [] == begun;
      case Read =>
        OutstandingSame(now, Run(s, actions), f, |s.cpus|);
        assert begun + [] == begun;
    }
  }

  lemma {:induction false} NothingOutstanding(s: System, f: Field, n: nat)
    requires WellFormed(s) && n <= |s.cpus|
    requires forall i :: 0 <= i < |s.writers| ==> s.writers[i].Idle?
    ensures OutstandingTotal(s, f, n) == 0
  {
    if n > 0 {
      NothingOutstanding(s, f, n - 1);
    }
  }

  ghost predicate AtRest(s: System) {
    forall i :: 0 <= i < |s.writers| ==> s.writers[i].Idle?
  }

  lemma {:induction false} NothingBegun(s: System, actions: seq<Action>)
    requires WellFormed(s) && AtRest(s) && forall a :: a in actions ==> !a.Begin?
    ensures Run(s, actions).cpus == s.cpus && AtRest(Run(s, actions))
  {
    if actions != [] {
      var n := |actions| - 1;
      assert actions[n] in actions;
      NothingBegun(s, actions[..n]);
    }
  }

  /** A snapshot taken with no `record` in progress and none begun meanwhile, after any run from
      zeroed counters, reports exactly one tally of every event recorded on any CPU. */
  lemma QuietSnapshotIsExact(zero: System, before: seq<Action>, actions: seq<Action>, f: Field)
    requires WellFormed(zero) && AtRest(zero) && Total(zero.cpus, f, |zero.cpus|) == 0
    requires var s := Run(zero, before); s.reader.NotStarted? && AtRest(s)
    requires forall a :: a in actions ==> !a.Begin?
    requires Run(Step(Run(zero, before), StartSnapshot), actions).reader.Finished?
    ensures Run(Step(Run(zero, before), StartSnapshot), actions).reader.sum.Get(f) == Tally(Begun(zero, before), f)
  {
    var s := Run(zero, before);
    EveryEventAccounted(zero, before, f);
    NothingOutstanding(zero, f, |zero.cpus|);
    NothingOutstanding(s, f, |s.cpus|);
    NothingBegun(Step(s, StartSnapshot), actions);
    SnapshotBracket(s, actions, f);
  }

  // ----- what a snapshot does not promise while writers run

  lemma {:induction false} RunConcat(s: System, a: seq<Action>, b: seq<Action>)
    requires WellFormed(s)
    ensures Run(s, a + b) == Run(Run(s, a), b)
  {
    if b == [] {
      assert a + b == a;
    } else {
      var n := |b| - 1;
      assert (a + b)[..|a + b| - 1] == a + b[..n];
      RunConcat(s, a, b[..n]);
    }
  }

  lemma RunOne(s: System, a: Action)
    requires WellFormed(s)
    ensures Run(s, [a]) == Step(s, a)
  {
    assert [a][..|[a]| - 1] == [];
  }

  lemma RunFour(s: System, a: Action, b: Action, c: Action, d: Action)
    requires WellFormed(s)
    ensures Run(s, [a] + [b] + [c] + [d]) == Step(Step(Step(Step(s, a), b), c), d)
  {
    RunOne(s, a);
    RunConcat(s, [a], [b]);
    RunOne(Step(s, a), b);
    RunConcat(s, [a] + [b], [c]);
    RunOne(Step(Step(s, a), b), c);
    RunConcat(s, [a] + [b] + [c], [d]);
    RunOne(Step(Step(Step(s, a), b), c), d);
  }

  lemma WriteOne(c: Counters, e: Event, k: nat, r: Reader)
    requires k < |Program(e)| && (r.Reading? ==> r.cpu == 0 && r.next < 5)
    ensures WriteStep(System([c], [Busy(e, k)], r), 0)
            == System([c.Add(Program(e)[k].field, Program(e)[k].amount)],
                      [if k + 1 == |Program(e)| then Idle else Busy(e, k + 1)], r)
  {
  }

  lemma DropRecorded(r: Reader) returns (c: Counters, actions: seq<Action>)
    requires r.Reading? ==> r.cpu == 0 && r.next < 5
    ensures Run(System([ZERO], [Idle], r), actions) == System([c], [Idle], r) && c.Get(RxDrops) == 1
  {
    var e := Event(true, 0, 0);
    assert Program(e) == [Increment(RxPackets, 1), Increment(RxBytes, 0), Increment(RxDrops, 1)];
    var c1 := ZERO.Add(RxPackets, 1);
    var c2 := c1.Add(RxBytes, 0);
    c := c2.Add(RxDrops, 1);
    assert BeginStep(System([ZERO], [Idle], r), 0, e) == System([ZERO], [Busy(e, 0)], r);
    WriteOne(ZERO, e, 0, r);
    WriteOne(c1, e, 1, r);
    WriteOne(c2, e, 2, r);
    actions := [Begin(0, e)] + [Write(0)] + [Write(0)] + [Write(0)];
    RunFour(System([ZERO], [Idle], r), Begin(0, e), Write(0), Write(0), Write(0));
  }

  lemma RestRead(c: Counters) returns (actions: seq<Action>)
    ensures var end := Run(System([c], [Idle], Reading(0, 1, ZERO)), actions).reader;
            end.Finished? && end.sum.rxPackets == 0 && end.sum.rxDrops == c.rxDrops
  {
    actions := [Read] + [Read] + [Read] + [Read];
    RunFour(System([c], [Idle], Reading(0, 1, ZERO)), Read, Read, Read, Read);
  }

  /** A snapshot may report more drops than packets: a dropped packet recorded between the reads
      of the two counters shows in one and not in the other. */
  lemma SnapshotCanShowMoreDropsThanPackets() returns (s: System, actions: seq<Action>)
    ensures WellFormed(s) && AtRest(s) && AllConsistent(s) && s.reader.NotStarted?
    ensures var r := Run(s, actions).reader; r.Finished? && r.sum.rxDrops > r.sum.rxPackets
  {
    s := System([ZERO], [Idle], NotStarted);
    var c, record := DropRecorded(Reading(0, 1, ZERO));
    var rest := RestRead(c);
    RunOne(s, StartSnapshot);
    var started := Step(s, StartSnapshot);
    RunConcat(s, [StartSnapshot], [Read]);
    RunOne(started, Read);
    assert ReadStep(started) == System([ZERO], [Idle], Reading(0, 1, ZERO));
    var taken := [StartSnapshot] + [Read];
    RunConcat(s, taken, record);
    RunConcat(s, taken + record, rest);
    actions := taken + record + rest;
  }

  /** With no `record` in progress and none begun meanwhile, what it reports is consistent. */
  lemma QuietSnapshotIsConsistent(s: System, actions: seq<Action>)
    requires WellFormed(s) && AllConsistent(s) && AtRest(s) && s.reader.NotStarted?
    requires forall a :: a in actions ==> !a.Begin?
    requires Run(Step(s, StartSnapshot), actions).reader.Finished?
    ensures Consistent(Run(Step(s, StartSnapshot), actions).reader.sum)
  {
    NothingBegun(Step(s, StartSnapshot), actions);
    SnapshotBracket(s, actions, RxPackets);
    SnapshotBracket(s, actions, RxDrops);
    SnapshotBracket(s, actions, LatencyNs);
    SnapshotBracket(s, actions, LatencySamples);
    TotalsConsistent(s.cpus, |s.cpus|);
  }

  lemma {:induction false} TotalsConsistent(cpus: seq<Counters>, n: nat)
    requires n <= |cpus| && forall i :: 0 <= i < n ==> Consistent(cpus[i])
    ensures Total(cpus, RxDrops, n) <= Total(cpus, RxPackets, n)
    ensures Total(cpus, LatencySamples, n) <= Total(cpus, RxPackets, n)
    ensures Total(cpus, LatencySamples, n) <= Total(cpus, LatencyNs, n)
  {
    if n > 0 {
      TotalsConsistent(cpus, n - 1);
    }
  }

  // ----- exactly when a snapshot is consistent

  /** The reader is on some CPU past its read of `big` and not yet past its read of `small`. */
  predicate Between(r: Reader, big: Field, small: Field) {
    r.Reading? && Position(big) < r.next <= Position(small)
  }

  /** By how much `big` exceeds `small` on the CPU being read, when the action reads `big`. */
  function Lead(now: System, a: Action, big: Field, small: Field): int
    requires WellFormed(now)
  {
    if a.Read? && now.reader.Reading? && FieldAt(now.reader.next) == big then
      now.cpus[now.reader.cpu].Get(big) - now.cpus[now.reader.cpu].Get(small)
    else 0
  }

  /** What the action adds to `small` on the CPU being read, between the reads of the two. */
  function WrittenBetween(now: System, a: Action, big: Field, small: Field): nat
    requires WellFormed(now)
  {
    if a.Write? && Between(now.reader, big, small) && a.cpu == now.reader.cpu && now.writers[a.cpu].Busy? then
      var w := now.writers[a.cpu];
      if Program(w.event)[w.done].field == small then Program(w.event)[w.done].amount else 0
    else 0
  }

  /** The leads over a whole run, CPU by CPU as the reader passes them. */
  function Slack(s: System, actions: seq<Action>, big: Field, small: Field): int
    requires WellFormed(s)
  {
    if actions == [] then 0
    else
      var n := |actions| - 1;
      Slack(s, actions[..n], big, small) + Lead(Run(s, actions[..n]), actions[n], big, small)
  }

  /** All that a run writes to `small` between the two reads of one CPU. */
  function Skew(s: System, actions: seq<Action>, big: Field, small: Field): nat
    requires WellFormed(s)
  {
    if actions == [] then 0
    else
      var n := |actions| - 1;
      Skew(s, actions[..n], big, small) + WrittenBetween(Run(s, actions[..n]), actions[n], big, small)
  }

  /** What `small` holds on the CPU being read, while the reader has only `big` of the two. */
  function Awaited(s: System, big: Field, small: Field): nat
    requires WellFormed(s)
  {
    if Between(s.reader, big, small) then s.cpus[s.reader.cpu].Get(small) else 0
  }

  function Gap(r: Reader, big: Field, small: Field): int {
    if r.NotStarted? then 0 else r.sum.Get(big) - r.sum.Get(small)
  }

  lemma WriteMovesAwaited(s: System, cpu: nat, big: Field, small: Field)
    requires WellFormed(s)
    ensures Awaited(WriteStep(s, cpu), big, small)
            == Awaited(s, big, small) + WrittenBetween(s, Write(cpu), big, small)
  {
  }

  lemma ReadMovesGap(s: System, big: Field, small: Field)
    requires WellFormed(s) && Position(big) < Position(small)
    ensures Gap(ReadStep(s).reader, big, small) - Awaited(ReadStep(s), big, small)
            == Gap(s.reader, big, small) - Awaited(s, big, small) + Lead(s, Read, big, small)
  {
    if s.reader.Reading? {
      var g := FieldAt(s.reader.next);
      assert Position(g) == s.reader.next;
      assert s.reader.sum.Add(g, s.cpus[s.reader.cpu].Get(g)) == ReadStep(s).reader.sum;
      assert Between(ReadStep(s).reader, big, small) <==> (g == big || Between(s.reader, big, small)) && g != small;
    }
  }

  lemma StepMovesGap(s: System, a: Action, big: Field, small: Field)
    requires WellFormed(s) && Position(big) < Position(small)
    ensures Gap(Step(s, a).reader, big, small) - Awaited(Step(s, a), big, small)
            == Gap(s.reader, big, small) - Awaited(s, big, small) + Lead(s, a, big, small) - WrittenBetween(s, a, big, small)
  {
    match a
    case Begin(cpu, e) =>
    case Write(cpu) => WriteMovesAwaited(s, cpu, big, small);
    case StartSnapshot =>
    case Read => ReadMovesGap(s, big, small);
  }

  lemma {:induction false} GapOverRun(s: System, actions: seq<Action>, big: Field, small: Field)
    requires WellFormed(s) && s.reader.NotStarted? && Position(big) < Position(small)
    ensures var end := Run(s, actions);
            Gap(end.reader, big, small) - Awaited(end, big, small)
            == Slack(s, actions, big, small) - Skew(s, actions, big, small)
  {
    if actions != [] {
      var n := |actions| - 1;
      GapOverRun(s, actions[..n], big, small);
      StepMovesGap(Run(s, actions[..n]), actions[n], big, small);
    }
  }

  /** Of two counters the one read first is reported at least as large as the other exactly when
      what was written to the second between the two reads does not exceed the lead that the first
      had when it was read; the lead less what was written is the difference reported. */
  lemma ReportedInOrderIff(s: System, actions: seq<Action>, big: Field, small: Field)
    requires WellFormed(s) && s.reader.NotStarted? && Position(big) < Position(small)
    requires Run(s, actions).reader.Finished?
    ensures var sum := Run(s, actions).reader.sum;
            && (sum.Get(small) <= sum.Get(big) <==> Skew(s, actions, big, small) <= Slack(s, actions, big, small))
            && sum.Get(big) - sum.Get(small) == Slack(s, actions, big, small) - Skew(s, actions, big, small)
  {
    GapOverRun(s, actions, big, small);
  }

  /** A snapshot is consistent exactly when this holds of drops and packets, of latency samples and
      packets, and of latency samples and nanoseconds. */
  lemma SnapshotConsistentIff(s: System, actions: seq<Action>)
    requires WellFormed(s) && s.reader.NotStarted? && Run(s, actions).reader.Finished?
    ensures Consistent(Run(s, actions).reader.sum) <==>
            && Skew(s, actions, RxPackets, RxDrops) <= Slack(s, actions, RxPackets, RxDrops)
            && Skew(s, actions, RxPackets, LatencySamples) <= Slack(s, actions, RxPackets, LatencySamples)
            && Skew(s, actions, LatencyNs, LatencySamples) <= Slack(s, actions, LatencyNs, LatencySamples)
  {
    ReportedInOrderIff(s, actions, RxPackets, RxDrops);
    ReportedInOrderIff(s, actions, RxPackets, LatencySamples);
    ReportedInOrderIff(s, actions, LatencyNs, LatencySamples);
  }

  /** The three pairs that the code keeps in order on every CPU. */
  predicate Ordered(big: Field, small: Field) {
    || (big == RxPackets && (small == RxDrops || small == LatencySamples))
    || (big == LatencyNs && small == LatencySamples)
  }

  lemma {:induction false} SlackIsNotNegative(s: System, actions: seq<Action>, big: Field, small: Field)
    requires WellFormed(s) && AllConsistent(s) && Ordered(big, small)
    ensures Slack(s, actions, big, small) >= 0
  {
    if actions != [] {
      var n := |actions| - 1;
      SlackIsNotNegative(s, actions[..n], big, small);
      ConsistentAlways(s, actions[..n]);
    }
  }

  /** However many writers run, a snapshot shows at most as many drops beyond its packets (and so
      for the other pairs) as were written between the two reads of one CPU: none, when none were. */
  lemma ExcessIsWrittenBetween(s: System, actions: seq<Action>, big: Field, small: Field)
    requires WellFormed(s) && AllConsistent(s) && s.reader.NotStarted? && Ordered(big, small)
    requires Run(s, actions).reader.Finished?
    ensures var sum := Run(s, actions).reader.sum;
            sum.Get(small) <= sum.Get(big) + Skew(s, actions, big, small)
  {
    SlackIsNotNegative(s, actions, big, small);
    ReportedInOrderIff(s, actions, big, small);
  }
}
