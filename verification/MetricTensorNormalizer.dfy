/** Rescaling the weights of the metric tensor to a target volume, in place, over the reals. */
module MetricTensorNormalizers {
  import opened Statistics

  const MAX_TENSOR_VALUE: real := 4294967295.0  // the largest unsigned 32-bit value
  const EPSILON: real := 1.0 / 4503599627370496.0  // 2^-52, the spacing of doubles at one

  datatype Outcome = Normalized | ZeroVolume | Overflow(value: real) | Underflow(value: real)

  function Abs(x: real): real {
    if x < 0.0 then -x else x
  }

  predicate Bad(x: real) {
    x > MAX_TENSOR_VALUE || 0.0 < x < EPSILON
  }

  function Scale(x: real, factor: real): real {
    x * factor
  }

  function Scaled(ws: seq<real>, factor: real): seq<real> {
    seq(|ws|, i requires 0 <= i < |ws| => Scale(ws[i], factor))
  }

  /** The first position holding a value out of range, or the length when there is none. */
  function FirstBad(ws: seq<real>, from: nat): (k: nat)
    requires from <= |ws|
    ensures from <= k <= |ws|
    ensures forall i :: from <= i < k ==> !Bad(ws[i])
    ensures k < |ws| ==> Bad(ws[k])
    decreases |ws| - from
  {
    if from == |ws| || Bad(ws[from]) then from else FirstBad(ws, from + 1)
  }

  /** Scaling weight by weight, up to and including the first result that is out of range. */
  function Rescale(ws: seq<real>, factor: real): (seq<real>, Outcome) {
    var all := Scaled(ws, factor);
    var k := FirstBad(all, 0);
    if k == |ws| then (all, Normalized)
    else (all[..k + 1] + ws[k + 1..], if all[k] > MAX_TENSOR_VALUE then Overflow(all[k]) else Underflow(all[k]))
  }

  /** What `normalize` leaves in the array, and what it reports. */
  function Normalize(target: real, ws: seq<real>): (seq<real>, Outcome) {
    if Abs(Sum(ws)) < EPSILON then (ws, ZeroVolume) else Rescale(ws, target / Sum(ws))
  }

  function Clamp(x: real): real {
    if x < 0.0 then 0.0 else if x > MAX_TENSOR_VALUE then MAX_TENSOR_VALUE else x
  }

  function Clamped(ws: seq<real>): seq<real> {
    seq(|ws|, i requires 0 <= i < |ws| => Clamp(ws[i]))
  }

  /** What `normalize_with_clamp` leaves in the array: a vanishing volume is left alone. */
  function ClampNormalize(target: real, ws: seq<real>): seq<real> {
    if Abs(Sum(ws)) < EPSILON then ws else Clamped(Scaled(ws, target / Sum(ws)))
  }

  // ----- what the calls promise, weight by weight

  /** The weight's share of the target, in a volume that counts. */
  function Share(target: real, volume: real, w: real): real
    requires volume != 0.0
  {
    target * w / volume
  }

  /** What clamping leaves of a weight: its share of the target, or the end of the range that the
      share passes. */
  predicate ClampedShare(target: real, volume: real, was: real, now: real)
    requires volume != 0.0
  {
    var share := Share(target, volume, was);
    if share < 0.0 then now == 0.0
    else if share > MAX_TENSOR_VALUE then now == MAX_TENSOR_VALUE
    else now * volume == target * was
  }

  /** The first `k` shares are in range; if there is a next one it is not, and is reported; up to
      there every weight is its share, and from there on it is what it was. */
  ghost predicate NormalizedUpTo(target: real, was: seq<real>, now: seq<real>, outcome: Outcome, k: nat)
    requires Sum(was) != 0.0
  {
    var v := Sum(was);
    && |now| == |was| && k <= |was|
    && (forall i :: 0 <= i < k ==> Share(target, v, was[i]) <= 0.0 || EPSILON <= Share(target, v, was[i]) <= MAX_TENSOR_VALUE)
    && (forall i :: 0 <= i < |was| && i <= k ==> now[i] == Share(target, v, was[i]))
    && (forall i :: k < i < |was| ==> now[i] == was[i])
    && (k == |was| ==> outcome == Normalized)
    && (k < |was| ==>
          var share := Share(target, v, was[k]);
          || (share > MAX_TENSOR_VALUE && outcome == Overflow(share))
          || (0.0 < share < EPSILON && outcome == Underflow(share)))
  }

  lemma ScaleIsShare(target: real, volume: real, w: real)
    requires volume != 0.0
    ensures Scale(w, target / volume) == Share(target, volume, w)
    ensures Share(target, volume, w) * volume == target * w
  {
    var f := target / volume;
    assert f * volume == target;
    assert w * f * volume == target * w;
    assert Share(target, volume, w) * volume == target * w;
  }

  /** Every weight by itself, after a call on a volume that counts; otherwise nothing moves. */
  lemma ClampWeightByWeight(target: real, ws: seq<real>)
    ensures |ClampNormalize(target, ws)| == |ws|
    ensures -EPSILON < Sum(ws) < EPSILON ==> ClampNormalize(target, ws) == ws
    ensures Sum(ws) <= -EPSILON || Sum(ws) >= EPSILON ==>
              forall i :: 0 <= i < |ws| ==> ClampedShare(target, Sum(ws), ws[i], ClampNormalize(target, ws)[i])
  {
    if Sum(ws) <= -EPSILON || Sum(ws) >= EPSILON {
      forall i | 0 <= i < |ws| ensures ClampedShare(target, Sum(ws), ws[i], ClampNormalize(target, ws)[i]) {
        ScaleIsShare(target, Sum(ws), ws[i]);
      }
    }
  }

  lemma NormalizeWeightByWeight(target: real, ws: seq<real>) returns (k: nat)
    ensures -EPSILON < Sum(ws) < EPSILON ==> Normalize(target, ws) == (ws, ZeroVolume)
    ensures Sum(ws) <= -EPSILON || Sum(ws) >= EPSILON ==>
              NormalizedUpTo(target, ws, Normalize(target, ws).0, Normalize(target, ws).1, k)
  {
    k := 0;
    if Sum(ws) <= -EPSILON || Sum(ws) >= EPSILON {
      k := FirstBad(Scaled(ws, target / Sum(ws)), 0);
      forall i | 0 <= i < |ws| ensures Scaled(ws, target / Sum(ws))[i] == Share(target, Sum(ws), ws[i]) {
        ScaleIsShare(target, Sum(ws), ws[i]);
      }
    }
  }

  class MetricTensorNormalizer {
    const targetVolume: real
    const tolerance: real

    constructor (targetVolume: real)
      ensures this.targetVolume == targetVolume && tolerance == 0.001
    {
      this.targetVolume, this.tolerance := targetVolume, 0.001;
    }

    constructor WithTolerance(targetVolume: real, tolerance: real)
      ensures this.targetVolume == targetVolume && this.tolerance == tolerance
    {
      this.targetVolume, this.tolerance := targetVolume, tolerance;
    }

    method NormalizeWeights(weights: array<real>) returns (outcome: Outcome)
      modifies weights
      ensures (weights[..], outcome) == Normalize(targetVolume, old(weights[..]))
      ensures var was := old(weights[..]);
              if -EPSILON < Sum(was) < EPSILON then weights[..] == was && outcome == ZeroVolume
              else exists k :: NormalizedUpTo(targetVolume, was, weights[..], outcome, k)
    {
      ghost var k := NormalizeWeightByWeight(targetVolume, weights[..]);
      var volume := Sum(weights[..]);
      if Abs(volume) < EPSILON {
        return ZeroVolume;
      }
      var factor := targetVolume / volume;
      outcome := RescaleInPlace(weights, factor);
    }

    /** The loop of `normalize`. */
    method RescaleInPlace(weights: array<real>, factor: real) returns (outcome: Outcome)
      modifies weights
      ensures (weights[..], outcome) == Rescale(old(weights[..]), factor)
    {
      ghost var was := weights[..];
      ghost var all := Scaled(was, factor);
      for i := 0 to weights.Length
        invariant forall j :: 0 <= j < i ==> weights[j] == all[j] && !Bad(all[j])
        invariant forall j :: i <= j < weights.Length ==> weights[j] == was[j]
      {
        weights[i] := Scale(weights[i], factor);
        if weights[i] > MAX_TENSOR_VALUE {
          assert Bad(all[i]) && FirstBad(all, 0) == i;
          assert weights[..] == all[..i + 1] + was[i + 1..];
          return Overflow(weights[i]);
        }
        if weights[i] < EPSILON && weights[i] > 0.0 {
          assert Bad(all[i]) && FirstBad(all, 0) == i;
          assert weights[..] == all[..i + 1] + was[i + 1..];
          return Underflow(weights[i]);
        }
      }
      assert FirstBad(all, 0) == |was|;
      assert weights[..] == all;
      return Normalized;
    }

    method NormalizeWithClamp(weights: array<real>) returns (maxWeight: real)
      modifies weights
      ensures weights[..] == ClampNormalize(targetVolume, old(weights[..]))
      ensures var was := old(weights[..]);
              if -EPSILON < Sum(was) < EPSILON then weights[..] == was
              else forall i :: 0 <= i < weights.Length ==> ClampedShare(targetVolume, Sum(was), was[i], weights[i])
      ensures Abs(Sum(old(weights[..]))) < EPSILON ==> maxWeight == 0.0
      ensures Abs(Sum(old(weights[..]))) >= EPSILON ==>
                && (forall i :: 0 <= i < weights.Length ==> weights[i] <= maxWeight)
                && (maxWeight == 0.0 || exists i :: 0 <= i < weights.Length && weights[i] == maxWeight)
    {
      ghost var was := weights[..];
      ClampWeightByWeight(targetVolume, was);
      var volume := Sum(weights[..]);
      if Abs(volume) < EPSILON {
        return 0.0;
      }
      var factor := targetVolume / volume;
      maxWeight := 0.0;
      ghost var all := Clamped(Scaled(was, factor));
      for i := 0 to weights.Length
        invariant forall j :: 0 <= j < i ==> weights[j] == all[j] <= maxWeight
        invariant forall j :: i <= j < weights.Length ==> weights[j] == was[j]
        invariant maxWeight == 0.0 || exists j :: 0 <= j < i && weights[j] == maxWeight
      {
        weights[i] := Scale(weights[i], factor);
        weights[i] := Clamp(weights[i]);
        maxWeight := if maxWeight < weights[i] then weights[i] else maxWeight;
      }
      assert weights[..] == all;
    }
  }

  // ----- what a successful call achieves

  lemma {:induction false} SumScaled(ws: seq<real>, factor: real)
    ensures Sum(Scaled(ws, factor)) == Sum(ws) * factor
  {
    if ws != [] {
      var n := |ws| - 1;
      SumScaled(ws[..n], factor);
      assert Scaled(ws, factor)[..n] == Scaled(ws[..n], factor);
      assert Scaled(ws, factor)[n] == Scale(ws[n], factor);
      Distribute(Sum(ws[..n]), ws[n], factor);
    }
  }

  lemma Distribute(x: real, y: real, factor: real)
    ensures (x + y) * factor == x * factor + Scale(y, factor)
  {
  }

  lemma QuotientTimes(target: real, volume: real)
    requires volume != 0.0
    ensures volume * (target / volume) == target
  {
  }

  /** On success the weights are one multiple of what they were, sum exactly to the target, and
      none is too large, or positive and too small. Success is exactly that no scaled weight is. */
  lemma NormalizedMeaning(target: real, ws: seq<real>)
    requires Abs(Sum(ws)) >= EPSILON
    ensures var all := Scaled(ws, target / Sum(ws));
            Normalize(target, ws).1 == Normalized <==> forall i :: 0 <= i < |all| ==> !Bad(all[i])
    ensures Normalize(target, ws).1 == Normalized ==>
              Normalize(target, ws).0 == Scaled(ws, target / Sum(ws)) && Sum(Normalize(target, ws).0) == target
  {
    SumScaled(ws, target / Sum(ws));
    QuotientTimes(target, Sum(ws));
  }

  /** On failure at position k exactly the weights up to k have been scaled; k is the first
      position whose scaled weight is out of range, and its value is the one reported. */
  lemma FailureMeaning(target: real, ws: seq<real>) returns (k: nat)
    requires Normalize(target, ws).1.Overflow? || Normalize(target, ws).1.Underflow?
    ensures k < |ws| && var (out, outcome) := Normalize(target, ws);
            var factor := target / Sum(ws);
            && |out| == |ws| && out[k] == outcome.value
            && (forall i :: 0 <= i <= k ==> out[i] == Scale(ws[i], factor))
            && (forall i :: k < i < |ws| ==> out[i] == ws[i])
            && (forall i :: 0 <= i < k ==> !Bad(out[i]))
            && (outcome.Overflow? <==> out[k] > MAX_TENSOR_VALUE)
            && (outcome.Underflow? <==> 0.0 < out[k] < EPSILON)
  {
    k := FirstBad(Scaled(ws, target / Sum(ws)), 0);
  }

  /** Normalizing again never moves a weight. It reports success exactly when the target is not
      itself too close to zero to count as a volume. */
  lemma NormalizeTwice(target: real, ws: seq<real>)
    requires Normalize(target, ws).1 == Normalized
    ensures var out := Normalize(target, ws).0;
            Normalize(target, out) == (out, if Abs(target) < EPSILON then ZeroVolume else Normalized)
  {
    var out := Normalize(target, ws).0;
    NormalizedMeaning(target, ws);
    if Abs(target) >= EPSILON {
      assert target / Sum(out) == 1.0;
      assert Scaled(out, 1.0) == out;
    }
  }

  // ----- clamping

  function Excess(ws: seq<real>): real {
    if ws == [] then 0.0
    else var x := ws[|ws| - 1];
         Excess(ws[..|ws| - 1]) + if x > MAX_TENSOR_VALUE then x - MAX_TENSOR_VALUE else 0.0
  }

  function Shortfall(ws: seq<real>): real {
    if ws == [] then 0.0
    else var x := ws[|ws| - 1];
         Shortfall(ws[..|ws| - 1]) + if x < 0.0 then -x else 0.0
  }

  lemma {:induction false} ClampedSum(ws: seq<real>)
    ensures Sum(Clamped(ws)) == Sum(ws) - Excess(ws) + Shortfall(ws)
    ensures Excess(ws) >= 0.0 && Shortfall(ws) >= 0.0
    ensures Excess(ws) == 0.0 <==> forall i :: 0 <= i < |ws| ==> ws[i] <= MAX_TENSOR_VALUE
    ensures Shortfall(ws) == 0.0 <==> forall i :: 0 <= i < |ws| ==> ws[i] >= 0.0
  {
    if ws != [] {
      var n := |ws| - 1;
      ClampedSum(ws[..n]);
      assert Clamped(ws)[..n] == Clamped(ws[..n]);
      assert forall i :: 0 <= i < n ==> ws[..n][i] == ws[i];
    }
  }

  lemma ScaledVolume(target: real, ws: seq<real>, factor: real)
    requires Sum(ws) != 0.0 && factor == target / Sum(ws)
    ensures Sum(Scaled(ws, factor)) == target
  {
    SumScaled(ws, factor);
    QuotientTimes(target, Sum(ws));
  }

  lemma ClampedSumAt(target: real, ws: seq<real>, factor: real)
    requires Sum(ws) != 0.0 && factor == target / Sum(ws)
    ensures var all := Scaled(ws, factor); Sum(Clamped(all)) == target - Excess(all) + Shortfall(all)
  {
    ScaledVolume(target, ws, factor);
    ClampedSum(Scaled(ws, factor));
  }

  /** Whatever the signs, a call on a volume that counts misses the target by exactly what it cut
      off above the limit and what it raised to zero. */
  lemma ClampedVolume(target: real, ws: seq<real>)
    requires Abs(Sum(ws)) >= EPSILON
    ensures var all := Scaled(ws, target / Sum(ws));
            Sum(ClampNormalize(target, ws)) == target - Excess(all) + Shortfall(all)
  {
    ClampedSumAt(target, ws, target / Sum(ws));
  }

  /** For any signs and any target, what a call leaves is within the target exactly when a volume too
      small to count already was, or, of one that counts, at least as much was cut off above as was
      raised to zero. */
  lemma WithinTargetIff(target: real, ws: seq<real>)
    ensures Sum(ClampNormalize(target, ws)) <= target <==>
            if Abs(Sum(ws)) < EPSILON then Sum(ws) <= target
            else var all := Scaled(ws, target / Sum(ws)); Shortfall(all) <= Excess(all)
  {
    if Abs(Sum(ws)) >= EPSILON {
      ClampedVolume(target, ws);
    }
  }

  ghost predicate NonNegative(ws: seq<real>) {
    forall i :: 0 <= i < |ws| ==> ws[i] >= 0.0
  }

  ghost predicate NothingClipped(ws: seq<real>) {
    forall i :: 0 <= i < |ws| ==> ws[i] <= MAX_TENSOR_VALUE
  }

  lemma {:induction false} SumNonNegative(ws: seq<real>)
    requires NonNegative(ws)
    ensures Sum(ws) >= 0.0
  {
    if ws != [] {
      SumNonNegative(ws[..|ws| - 1]);
    }
  }

  lemma ScaledClampBound(target: real, ws: seq<real>, factor: real)
    requires target >= 0.0 && NonNegative(ws) && Sum(ws) > 0.0 && factor == target / Sum(ws)
    ensures var all := Scaled(ws, factor);
            Sum(Clamped(all)) <= target && (Sum(Clamped(all)) == target <==> NothingClipped(all))
  {
    var all := Scaled(ws, factor);
    QuotientSign(target, Sum(ws));
    forall i | 0 <= i < |all| ensures all[i] >= 0.0 {
      ProductSign(ws[i], factor);
    }
    ClampedSumAt(target, ws, factor);
    ClampedSum(all);
  }

  /** For non-negative weights and target, what a call leaves exceeds the target exactly when the
      volume was too small to count and already above the target; and a volume that counts ends on
      the target exactly when nothing is clipped. */
  lemma ClampExceedsIff(target: real, ws: seq<real>)
    requires target >= 0.0 && NonNegative(ws)
    ensures Sum(ClampNormalize(target, ws)) <= target <==> Sum(ws) >= EPSILON || Sum(ws) <= target
    ensures Sum(ws) >= EPSILON ==>
              (Sum(ClampNormalize(target, ws)) == target <==> NothingClipped(Scaled(ws, target / Sum(ws))))
  {
    SumNonNegative(ws);
    if Sum(ws) >= EPSILON {
      ScaledClampBound(target, ws, target / Sum(ws));
    }
  }

  /** A volume below EPSILON is left above a target of zero. */
  lemma TinyVolumeExceeds(ws: seq<real>)
    requires ws == [EPSILON / 2.0]
    ensures ClampNormalize(0.0, ws) == ws && Sum(ws) > 0.0
  {
    assert ws[..|ws| - 1] == [];
    assert Sum(ws) == EPSILON / 2.0;
  }

  /** With a negative weight the clamped volume can exceed the target: the unit volume of
      [2, -1] becomes 2. */
  lemma NegativeWeightExceeds(ws: seq<real>)
    requires ws == [2.0, -1.0]
    ensures Sum(ws) == 1.0 && Sum(ClampNormalize(1.0, ws)) == 2.0
  {
    assert ws[..1] == [2.0];
    assert Sum(ws[..1]) == 2.0;
    assert 1.0 / Sum(ws) == 1.0;
    assert Scaled(ws, 1.0) == ws;
    assert Clamped(ws) == [2.0, 0.0];
    assert [2.0, 0.0][..1] == [2.0];
  }

  // ----- the stability test

  /** A zero target divides by zero in the source and never compares below the tolerance. */
  predicate IsVolumeStable(target: real, tolerance: real, ws: seq<real>) {
    target != 0.0 && Abs(Sum(ws) - target) / target < tolerance
  }

  /** The test means "within the tolerated fraction of the target" for positive targets; for a
      negative target it accepts every volume, and for a target of zero none. */
  lemma StabilityMeaning(target: real, tolerance: real, ws: seq<real>)
    requires tolerance > 0.0
    ensures target > 0.0 ==> (IsVolumeStable(target, tolerance, ws) <==> Abs(Sum(ws) - target) < tolerance * target)
    ensures target < 0.0 ==> IsVolumeStable(target, tolerance, ws)
    ensures target == 0.0 ==> !IsVolumeStable(target, tolerance, ws)
  {
    if target > 0.0 {
      QuotientBelow(Abs(Sum(ws) - target), target, tolerance);
    } else if target < 0.0 {
      NegativeQuotient(Abs(Sum(ws) - target), target);
    }
  }

  lemma QuotientBelow(x: real, y: real, bound: real)
    requires y > 0.0
    ensures x / y < bound <==> x < bound * y
  {
    var q := x / y;
    assert q * y == x;
    if q < bound {
      ProductPositive(bound - q, y);
    } else {
      ProductSign(q - bound, y);
    }
  }

  lemma NegativeQuotient(x: real, y: real)
    requires x >= 0.0 && y < 0.0
    ensures x / y <= 0.0
  {
    var q := x / y;
    assert q * y == x;
    if q > 0.0 {
      ProductPositive(q, -y);
    }
  }
}
