/** Request outcomes, and the 95th percentile of the last thousand latencies. */
module SloTrackers {
  import opened Sequences

  const WINDOW: nat := 1000

  // ----- sorting and counting

  predicate Ascending(s: seq<nat>) {
    forall i, j :: 0 <= i < j < |s| ==> s[i] <= s[j]
  }

  /** Puts `x` into an ascending sequence. */
  function Insert(s: seq<nat>, x: nat): (r: seq<nat>)
    requires Ascending(s)
    ensures |r| == |s| + 1 && Ascending(r)
    ensures r[|s|] == if s == [] || s[|s| - 1] <= x then x else s[|s| - 1]
  {
    var n := |s|;
    if n == 0 || s[n - 1] <= x then s + [x] else Insert(s[..n - 1], x) + [s[n - 1]]
  }

  function Sorted(s: seq<nat>): (r: seq<nat>)
    ensures |r| == |s| && Ascending(r)
  {
    if s == [] then [] else Insert(Sorted(s[..|s| - 1]), s[|s| - 1])
  }

  /** How many samples lie below `v`. */
  function CountBelow(s: seq<nat>, v: nat): nat {
    if s == [] then 0 else CountBelow(s[..|s| - 1], v) + if s[|s| - 1] < v then 1 else 0
  }

  lemma CountAppend(s: seq<nat>, x: nat, v: nat)
    ensures CountBelow(s + [x], v) == CountBelow(s, v) + if x < v then 1 else 0
  {
    assert (s + [x])[..|s|] == s;
  }

  lemma {:induction false} InsertCounts(s: seq<nat>, x: nat, v: nat)
    requires Ascending(s)
    ensures CountBelow(Insert(s, x), v) == CountBelow(s, v) + if x < v then 1 else 0
  {
    var n := |s|;
    if n == 0 || s[n - 1] <= x {
      CountAppend(s, x, v);
    } else {
      InsertCounts(s[..n - 1], x, v);
      CountAppend(Insert(s[..n - 1], x), s[n - 1], v);
    }
  }

  lemma {:induction false} SortedCounts(s: seq<nat>, v: nat)
    ensures CountBelow(Sorted(s), v) == CountBelow(s, v)
  {
    if s != [] {
      var n := |s| - 1;
      SortedCounts(s[..n], v);
      InsertCounts(Sorted(s[..n]), s[n], v);
    }
  }

  /** In an ascending sequence, element i has at most i elements below it, and one more than it
      has at least i + 1. */
  lemma {:induction false} RankInAscending(s: seq<nat>, i: nat)
    requires Ascending(s) && i < |s|
    ensures CountBelow(s, s[i]) <= i < CountBelow(s, s[i] + 1)
  {
    var n := |s| - 1;
    if i < n {
      RankInAscending(s[..n], i);
    } else {
      CountBounds(s[..n], s[i]);
    }
  }

  lemma {:induction false} CountBounds(s: seq<nat>, v: nat)
    ensures CountBelow(s, v) <= |s|
    ensures (forall i :: 0 <= i < |s| ==> s[i] <= v) ==> CountBelow(s, v + 1) == |s|
  {
    if s != [] {
      CountBounds(s[..|s| - 1], v);
    }
  }

  lemma {:induction false} CountGrows(s: seq<nat>, v: nat, w: nat)
    requires v <= w
    ensures CountBelow(s, v) <= CountBelow(s, w)
  {
    if s != [] {
      CountGrows(s[..|s| - 1], v, w);
    }
  }

  lemma {:induction false} InsertKeeps(s: seq<nat>, x: nat)
    requires Ascending(s)
    ensures multiset(Insert(s, x)) == multiset(s) + multiset{x}
  {
    var n := |s|;
    if !(n == 0 || s[n - 1] <= x) {
      InsertKeeps(s[..n - 1], x);
      assert s == s[..n - 1] + [s[n - 1]];
    }
  }

  lemma {:induction false} SortedKeeps(s: seq<nat>)
    ensures multiset(Sorted(s)) == multiset(s)
  {
    if s != [] {
      var n := |s| - 1;
      SortedKeeps(s[..n]);
      InsertKeeps(Sorted(s[..n]), s[n]);
      assert s == s[..n] + [s[n]];
    }
  }

  // ----- the percentile

  /** The position that is read off the sorted window. */
  function Index(n: nat): nat
    requires n > 0
  {
    var idx := 95 * n / 100;
    if idx < n - 1 then idx else n - 1
  }

  function P95(s: seq<nat>): nat {
    if s == [] then 0 else Sorted(s)[Index(|s|)]
  }

  /** At most 95 * n / 100 samples lie below the value, and at least one more do not lie above it. */
  ghost predicate HasRank(s: seq<nat>, v: nat) {
    CountBelow(s, v) <= 95 * |s| / 100 < CountBelow(s, v + 1)
  }

  lemma IndexIsFloor(n: nat)
    requires n > 0
    ensures Index(n) == 95 * n / 100
  {
  }

  lemma RankInSorted(s: seq<nat>, sorted: seq<nat>, i: nat)
    requires Ascending(sorted) && i < |sorted| && forall v: nat :: CountBelow(sorted, v) == CountBelow(s, v)
    ensures CountBelow(s, sorted[i]) <= i < CountBelow(s, sorted[i] + 1)
  {
    RankInAscending(sorted, i);
  }

  lemma P95HasRank(s: seq<nat>)
    requires s != []
    ensures HasRank(s, P95(s))
  {
    forall v: nat ensures CountBelow(Sorted(s), v) == CountBelow(s, v) {
      SortedCounts(s, v);
    }
    IndexIsFloor(|s|);
    RankInSorted(s, Sorted(s), Index(|s|));
  }

  lemma RankIsUnique(s: seq<nat>, v: nat, w: nat)
    requires HasRank(s, v) && HasRank(s, w)
    ensures v == w
  {
    if v < w { CountGrows(s, v + 1, w); }
    if w < v { CountGrows(s, w + 1, v); }
  }

  /** The reported percentile is a sample of the window with that rank, and the only number with it. */
  lemma P95Iff(s: seq<nat>, v: nat)
    requires s != []
    ensures P95(s) in s
    ensures v == P95(s) <==> HasRank(s, v)
  {
    P95HasRank(s);
    if HasRank(s, v) {
      RankIsUnique(s, v, P95(s));
    }
    SortedKeeps(s);
    assert P95(s) in multiset(Sorted(s));
  }

  lemma {:induction false} CountDrop(s: seq<nat>, j: nat, v: nat)
    requires j < |s|
    ensures CountBelow(s, v) == CountBelow(s[..j] + s[j + 1..], v) + if s[j] < v then 1 else 0
  {
    var n := |s| - 1;
    var rest := s[..j] + s[j + 1..];
    if j < n {
      CountDrop(s[..n], j, v);
      assert rest[..|rest| - 1] == s[..n][..j] + s[..n][j + 1..];
    } else {
      assert rest == s[..n];
    }
  }

  lemma DropFromBag(s: seq<nat>, j: nat)
    requires j < |s|
    ensures multiset(s[..j] + s[j + 1..]) == multiset(s) - multiset{s[j]}
  {
    assert s == s[..j] + [s[j]] + s[j + 1..];
  }

  lemma {:induction false} CountIgnoresOrder(s: seq<nat>, t: seq<nat>, v: nat)
    requires multiset(s) == multiset(t)
    ensures CountBelow(s, v) == CountBelow(t, v)
  {
    if s == [] {
      assert |multiset(t)| == 0;
    } else {
      var n := |s| - 1;
      assert s[n] in multiset(t);
      var j: nat :| j < |t| && t[j] == s[n];
      var rest := t[..j] + t[j + 1..];
      DropFromBag(t, j);
      DropFromBag(s, n);
      assert s[..n] + s[n + 1..] == s[..n];
      CountIgnoresOrder(s[..n], rest, v);
      CountDrop(t, j, v);
    }
  }

  /** The percentile does not depend on the order in which the samples arrived. */
  lemma P95IgnoresOrder(s: seq<nat>, t: seq<nat>)
    requires multiset(s) == multiset(t)
    ensures P95(s) == P95(t)
  {
    assert |multiset(s)| == |s| && |multiset(t)| == |t|;
    if s != [] {
      P95Iff(s, P95(s));
      P95Iff(t, P95(s));
      CountIgnoresOrder(s, t, P95(s));
      CountIgnoresOrder(s, t, P95(s) + 1);
    }
  }

  // ----- the tracker

  class SloTracker {
    var totalRequests: nat
    var successfulRequests: nat
    var latencySamples: seq<nat>
    ghost var outcomes: seq<bool>  // every request ever recorded
    ghost var latencies: seq<nat>

    ghost predicate Valid()
      reads this
    {
      && latencySamples == LastN(latencies, WINDOW)
      && totalRequests == |outcomes| == |latencies|
      && successfulRequests == multiset(outcomes)[true]
    }

    constructor ()
      ensures Valid() && outcomes == [] && latencies == []
    {
      totalRequests, successfulRequests, latencySamples := 0, 0, [];
      outcomes, latencies := [], [];
    }

    method RecordRequest(success: bool, latencyMs: nat)
      requires Valid()
      modifies this
      ensures Valid() && outcomes == old(outcomes) + [success] && latencies == old(latencies) + [latencyMs]
    {
      LastNAppend(latencies, latencyMs, WINDOW);
      totalRequests := totalRequests + 1;
      if success {
        successfulRequests := successfulRequests + 1;
      }
      latencySamples := latencySamples + [latencyMs];
      if |latencySamples| > 1000 {
        latencySamples := latencySamples[1..];
      }
      outcomes, latencies := outcomes + [success], latencies + [latencyMs];
    }

    /** The percentile of the last thousand latencies recorded, or of all of them if fewer. */
    method P95Latency() returns (p: nat)
      requires Valid()
      ensures p == P95(LastN(latencies, WINDOW))
      ensures if latencies == [] then p == 0 else HasRank(LastN(latencies, WINDOW), p)
    {
      if latencySamples == [] {
        return 0;
      }
      var sorted := Sorted(latencySamples);
      var idx := |sorted| * 95 / 100;
      p := sorted[if idx < |sorted| - 1 then idx else |sorted| - 1];
      assert p == P95(latencySamples);
      P95HasRank(latencySamples);
    }
  }
}
