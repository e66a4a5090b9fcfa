/** The warm-up loop: synthetic spikes until the metric settles, the spikes run out, or one fails. */
module GeometricWarmups {
  import opened Sequences
  import opened Statistics

  datatype WarmupError = Timeout(ms: nat) | ConvergenceFailed

  datatype WarmupResult = WarmupResult(spikesUsed: nat, warmupTimeMs: nat, converged: bool)

  datatype Outcome = Ok(result: WarmupResult) | Err(error: WarmupError)

  const WINDOW: nat := 10
  const HISTORY_CAP: nat := 20

  /** The convergence test: ten readings at least, the last ten of variance below the threshold. */
  predicate Settled(history: seq<real>, threshold: real) {
    if |history| < WINDOW then false else Variance(history[|history| - WINDOW..]) < threshold
  }

  /** Trimming the history never changes the test, as long as the trim keeps a full window;
      with a shorter history the test could never pass. */
  lemma TrimKeepsTest(history: seq<real>, cap: nat, threshold: real)
    ensures cap >= WINDOW ==> (Settled(LastN(history, cap), threshold) <==> Settled(history, threshold))
    ensures cap < WINDOW ==> !Settled(LastN(history, cap), threshold)
  {
    if cap >= WINDOW && |history| >= WINDOW {
      var trimmed := LastN(history, cap);
      assert trimmed[|trimmed| - WINDOW..] == history[|history| - WINDOW..];
    }
  }

  /** The least number of readings, from `k` on, at which the test passes; one more than there
      are readings when it never does. */
  function FirstSettled(readings: seq<real>, k: nat, threshold: real): (h: nat)
    requires k <= |readings|
    ensures k <= h <= |readings| + 1
    ensures h <= |readings| ==> Settled(readings[..h], threshold)
    ensures forall j :: k <= j < h && j <= |readings| ==> !Settled(readings[..j], threshold)
    decreases |readings| - k
  {
    if Settled(readings[..k], threshold) then k
    else if k == |readings| then k + 1
    else FirstSettled(readings, k + 1, threshold)
  }

  /** The metric system answers the spikes with `readings`; if there are fewer of those than
      spikes, it fails the next spike with `error`. `clock[i]` is the elapsed time after spike i,
      then at the timeout check, then at the end. */
  function Warmup(spikes: nat, threshold: real, maxMs: nat, readings: seq<real>, error: WarmupError, clock: seq<nat>): Outcome
    requires |readings| <= spikes && |clock| == spikes + 2
  {
    var h := FirstSettled(readings, 0, threshold);
    if h <= |readings| then Ok(WarmupResult(h, clock[if h == 0 then 0 else h - 1], true))
    else if |readings| < spikes then Err(error)
    else if clock[spikes] > maxMs then Err(Timeout(clock[spikes]))
    else Ok(WarmupResult(spikes, clock[spikes + 1], true))
  }

  class GeometricWarmup {
    const numWarmupSpikes: nat
    const convergenceThreshold: real
    const maxWarmupTimeMs: nat
    var isWarmedUp: bool
    var metricHistory: seq<real>

    constructor (spikes: nat, threshold: real, timeoutMs: nat)
      ensures numWarmupSpikes == spikes && convergenceThreshold == threshold && maxWarmupTimeMs == timeoutMs
      ensures !isWarmedUp && metricHistory == []
    {
      numWarmupSpikes, convergenceThreshold, maxWarmupTimeMs := spikes, threshold, timeoutMs;
      isWarmedUp, metricHistory := false, [];
    }

    predicate CheckConvergence()
      reads this
    {
      Settled(metricHistory, convergenceThreshold)
    }

    /** Records one reading, trims the history, and tests for convergence. */
    method Observe(reading: real, ghost seen: seq<real>) returns (converged: bool)
      requires metricHistory == LastN(seen, HISTORY_CAP)
      modifies `metricHistory
      ensures metricHistory == LastN(seen + [reading], HISTORY_CAP)
      ensures converged <==> Settled(seen + [reading], convergenceThreshold)
    {
      LastNAppend(seen, reading, HISTORY_CAP);
      metricHistory := metricHistory + [reading];
      if |metricHistory| > 20 {
        metricHistory := metricHistory[1..];
      }
      TrimKeepsTest(seen + [reading], HISTORY_CAP, convergenceThreshold);
      converged := CheckConvergence();
    }

    method RunWarmup(readings: seq<real>, error: WarmupError, clock: seq<nat>) returns (outcome: Outcome)
      requires |readings| <= numWarmupSpikes && |clock| == numWarmupSpikes + 2
      modifies this
      ensures outcome == Warmup(numWarmupSpikes, convergenceThreshold, maxWarmupTimeMs, readings, error, clock)
      ensures isWarmedUp == (old(isWarmedUp) || outcome.Ok?)
      ensures metricHistory == LastN(readings[..if outcome.Ok? then outcome.result.spikesUsed else |readings|], HISTORY_CAP)
    {
      ghost var h := FirstSettled(readings, 0, convergenceThreshold);
      metricHistory := [];
      for i := 0 to numWarmupSpikes
        invariant i <= |readings| && metricHistory == LastN(readings[..i], HISTORY_CAP)
        invariant isWarmedUp == old(isWarmedUp) && h > i
      {
        if i == |readings| {
          return Err(error);
        }
        var converged := Observe(readings[i], readings[..i]);
        assert readings[..i + 1] == readings[..i] + [readings[i]];
        if converged {
          assert h == i + 1;
          isWarmedUp := true;
          return Ok(WarmupResult(i + 1, clock[i], true));
        }
      }
      if clock[numWarmupSpikes] > maxWarmupTimeMs {
        return Err(Timeout(clock[numWarmupSpikes]));
      }
      isWarmedUp := true;
      return Ok(WarmupResult(numWarmupSpikes, clock[numWarmupSpikes + 1], true));
    }
  }

  /** The ten readings that end with reading number k are settled. */
  predicate SettledAt(readings: seq<real>, k: nat, threshold: real) {
    10 <= k <= |readings| && Variance(readings[k - 10..k]) < threshold
  }

  /** The readings first settle with reading number k. */
  ghost predicate FirstSettledAt(readings: seq<real>, k: nat, threshold: real) {
    SettledAt(readings, k, threshold) && forall j :: 0 <= j < k ==> !SettledAt(readings, j, threshold)
  }

  lemma SettledPrefixes(readings: seq<real>, threshold: real)
    ensures forall j :: 0 <= j <= |readings| ==> (Settled(readings[..j], threshold) <==> SettledAt(readings, j, threshold))
  {
    forall j | 0 <= j <= |readings| ensures Settled(readings[..j], threshold) <==> SettledAt(readings, j, threshold) {
      if j >= 10 {
        assert readings[..j][j - WINDOW..] == readings[j - 10..j];
      }
    }
  }

  /** A warm-up reports k spikes exactly when the readings first settle with reading k, or k is all
      the spikes, none failed, the readings never settled and time is not up. */
  lemma SpikesUsedIff(spikes: nat, threshold: real, maxMs: nat, readings: seq<real>, error: WarmupError, clock: seq<nat>, k: nat)
    requires |readings| <= spikes && |clock| == spikes + 2
    ensures var out := Warmup(spikes, threshold, maxMs, readings, error, clock);
            (out.Ok? && out.result.spikesUsed == k) <==>
            || FirstSettledAt(readings, k, threshold)
            || (k == spikes == |readings| && clock[spikes] <= maxMs
                && forall j :: 0 <= j <= |readings| ==> !SettledAt(readings, j, threshold))
  {
    SettledPrefixes(readings, threshold);
  }

  /** Readings that first settle with reading k, the last spike's included, end the warm-up there,
      whatever the clock says at the end. */
  lemma EarlyExit(spikes: nat, threshold: real, maxMs: nat, readings: seq<real>, error: WarmupError, clock: seq<nat>, k: nat)
    requires |readings| <= spikes && |clock| == spikes + 2 && FirstSettledAt(readings, k, threshold)
    ensures Warmup(spikes, threshold, maxMs, readings, error, clock) == Ok(WarmupResult(k, clock[k - 1], true))
  {
    SettledPrefixes(readings, threshold);
  }

  /** Readings that never settle end the warm-up in one of three ways: with the error of the spike
      that fails, if one does; with a timeout that carries the time at the check, if time is up by
      then; and else as a success timed at the end. */
  lemma UnsettledEnds(spikes: nat, threshold: real, maxMs: nat, readings: seq<real>, error: WarmupError, clock: seq<nat>)
    requires |readings| <= spikes && |clock| == spikes + 2
    ensures var out := Warmup(spikes, threshold, maxMs, readings, error, clock);
            !HasSettled(readings, threshold) ==>
              && (|readings| < spikes ==> out == Err(error))
              && (|readings| == spikes && clock[spikes] > maxMs ==> out == Err(Timeout(clock[spikes])))
              && (|readings| == spikes && clock[spikes] <= maxMs ==> out == Ok(WarmupResult(spikes, clock[spikes + 1], true)))
    ensures Warmup(spikes, threshold, maxMs, readings, error, clock).Err? ==> !HasSettled(readings, threshold)
  {
    SettledPrefixes(readings, threshold);
  }

  /** What the flag, set on every success, is worth: with fewer spikes reported than configured it
      is true; with all of them it is true exactly when the last ten readings are settled; and with
      fewer than ten spikes configured it is never true. */
  lemma ConvergedFlagMeaning(spikes: nat, threshold: real, maxMs: nat, readings: seq<real>, error: WarmupError, clock: seq<nat>)
    requires |readings| <= spikes && |clock| == spikes + 2
    requires Warmup(spikes, threshold, maxMs, readings, error, clock).Ok?
    ensures var result := Warmup(spikes, threshold, maxMs, readings, error, clock).result;
            && result.converged
            && (result.spikesUsed < spikes ==> SettledAt(readings, result.spikesUsed, threshold))
            && (result.spikesUsed == spikes ==> (HasSettled(readings, threshold) <==> SettledAt(readings, spikes, threshold)))
            && (spikes < 10 ==> !HasSettled(readings, threshold))
  {
    SettledPrefixes(readings, threshold);
  }

  /** Some ten readings in a row were settled. */
  ghost predicate HasSettled(readings: seq<real>, threshold: real) {
    exists k :: 0 <= k <= |readings| && SettledAt(readings, k, threshold)
  }

  /** Five spikes, never settled, reported as converged. */
  lemma ReportedButNotConverged(readings: seq<real>, threshold: real, error: WarmupError, clock: seq<nat>)
    requires |readings| == 5 && clock == [0, 0, 0, 0, 0, 0, 0]
    ensures Warmup(5, threshold, 5000, readings, error, clock) == Ok(WarmupResult(5, 0, true))
    ensures !HasSettled(readings, threshold)
  {
  }
}
