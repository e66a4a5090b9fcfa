/** The bounded window of epsilon values from which oscillation is judged. */
module EpsilonHistories {
  import opened Sequences
  import opened Statistics
  import opened StepController

  class EpsilonHistory {
    var samples: seq<real>
    const maxSamples: nat
    ghost var pushed: seq<real>  // every value ever pushed

    ghost predicate Valid()
      reads this
    {
      samples == LastN(pushed, maxSamples)
    }

    constructor (maxSamples: nat)
      ensures Valid() && pushed == [] && this.maxSamples == maxSamples
    {
      this.maxSamples := maxSamples;
      samples, pushed := [], [];
    }

    /** With room for no sample at all the first push fails in the source: it removes the front
        of an empty vector. */
    method Push(epsilon: real)
      requires Valid() && maxSamples >= 1
      modifies this
      ensures Valid() && pushed == old(pushed) + [epsilon]
    {
      LastNAppend(pushed, epsilon, maxSamples);
      if |samples| >= maxSamples {
        assert samples[1..] + [epsilon] == (samples + [epsilon])[1..];
        samples := samples[1..];
      }
      samples := samples + [epsilon];
      pushed := pushed + [epsilon];
    }

    /** The variance of the last values pushed, never negative, and 0 exactly when they are equal. */
    function GetVariance(): (v: real)
      requires Valid()
      reads this
      ensures v == Variance(LastN(pushed, maxSamples)) >= 0.0
      ensures v == 0.0 <==> AllEqual(samples)
      ensures var w := LastN(pushed, maxSamples);
              IsVariance(|w| as real, Sum(w), SumOfSquares(w), v)
    {
      VarianceVanishIff(samples);
      VarianceValue(samples);
      Variance(samples)
    }
  }

  lemma WindowVarianceBound(all: seq<real>, maxSamples: nat, lo: real, hi: real)
    requires forall i :: 0 <= i < |all| ==> lo <= all[i] <= hi
    ensures 0.0 <= Variance(LastN(all, maxSamples)) <= MaxVariance(lo, hi)
  {
    VarianceBound(LastN(all, maxSamples), lo, hi);
  }

  /** A window over the outputs of one controller, from any starting state and under any inputs:
      its variance never exceeds a quarter of the squared range of epsilon. */
  lemma ControlledVarianceBound(s: State, changes: seq<real>, maxSamples: nat)
    requires s.epsilonMin <= s.epsilonMax
    ensures 0.0 <= Variance(LastN(Outputs(s, changes), maxSamples))
                <= MaxVariance(s.epsilonMin, s.epsilonMax)
  {
    WindowVarianceBound(Outputs(s, changes), maxSamples, s.epsilonMin, s.epsilonMax);
  }

  /** Once a constant change has pinned epsilon, a window of pinned values shows no variance. */
  lemma PinnedWindowIsStill(s: State, change: real, span: real, pace: real, from: nat, window: seq<real>)
    requires span == s.epsilonMax - s.epsilonMin >= 0.0 && pace == s.kp * change > 0.0
    requires s.ki >= 0.0 && change > 0.0 && -WINDUP_LIMIT <= s.integral <= WINDUP_LIMIT
    requires from >= CallsToLimit(span, change, pace)
    requires forall i :: 0 <= i < |window| ==> window[i] == Feed(s, change, from + i).epsilon
    ensures Variance(window) == 0.0
  {
    forall i | 0 <= i < |window| ensures window[i] == s.epsilonMin {
      RisePinsToMinimum(s, change, span, pace, from + i);
    }
    VarianceVanishIff(window);
  }
}
