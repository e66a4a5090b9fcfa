/** The PID controller that adapts the step size epsilon, over the reals. */
module StepController {
  import opened Statistics

  datatype State = State(kp: real, ki: real, kd: real, prevError: real, integral: real,
                         epsilon: real, epsilonMin: real, epsilonMax: real)

  const WINDUP_LIMIT: real := 100.0

  function Clamp(x: real, lo: real, hi: real): (r: real)
    requires lo <= hi
    ensures lo <= r <= hi
    ensures lo <= x <= hi ==> r == x
  {
    if x < lo then lo else if x > hi then hi else x
  }

  function NextIntegral(integral: real, change: real): real {
    Clamp(integral - change, -WINDUP_LIMIT, WINDUP_LIMIT)
  }

  /** One call of `compute` on the observed change of curvature. */
  function Step(s: State, change: real): State
    requires s.epsilonMin <= s.epsilonMax
  {
    var error := -change;
    var integral := NextIntegral(s.integral, change);
    var raw := s.epsilon + s.kp * error + s.ki * integral + s.kd * (error - s.prevError);
    s.(integral := integral, prevError := error, epsilon := Clamp(raw, s.epsilonMin, s.epsilonMax))
  }

  /** Saturating the clamp needs ordered limits; `with_limits` does not check that they are. */
  class AdaptiveStepController {
    var kp: real
    var ki: real
    var kd: real
    var prevError: real
    var integral: real
    var epsilon: real
    var epsilonMin: real
    var epsilonMax: real

    ghost function View(): State
      reads this
    {
      State(kp, ki, kd, prevError, integral, epsilon, epsilonMin, epsilonMax)
    }

    constructor (initialEpsilon: real)
      ensures View() == State(0.5, 0.1, 0.3, 0.0, 0.0, initialEpsilon, 0.001, 1.0)
    {
      kp, ki, kd := 0.5, 0.1, 0.3;
      prevError, integral := 0.0, 0.0;
      epsilon, epsilonMin, epsilonMax := initialEpsilon, 0.001, 1.0;
    }

    method WithLimits(min: real, max: real)
      modifies this
      ensures View() == old(View()).(epsilonMin := min, epsilonMax := max)
    {
      epsilonMin, epsilonMax := min, max;
    }

    method WithPidGains(p: real, i: real, d: real)
      modifies this
      ensures View() == old(View()).(kp := p, ki := i, kd := d)
    {
      kp, ki, kd := p, i, d;
    }

    method Compute(change: real) returns (next: real)
      requires epsilonMin <= epsilonMax
      modifies this
      ensures View() == Step(old(View()), change) && next == epsilon
      ensures epsilonMin <= next <= epsilonMax && -WINDUP_LIMIT <= integral <= WINDUP_LIMIT
    {
      var error := 0.0 - change;
      var pTerm := kp * error;
      integral := integral + error;
      integral := Clamp(integral, -100.0, 100.0);
      var iTerm := ki * integral;
      var dTerm := kd * (error - prevError);
      prevError := error;
      var newEpsilon := epsilon + pTerm + iTerm + dTerm;
      epsilon := Clamp(newEpsilon, epsilonMin, epsilonMax);
      next := epsilon;
    }

    method Reset()
      modifies this
      ensures View() == old(View()).(prevError := 0.0, integral := 0.0)
    {
      prevError, integral := 0.0, 0.0;
    }
  }

  // ----- every run

  function Run(s: State, changes: seq<real>): State
    requires s.epsilonMin <= s.epsilonMax
    ensures var r := Run(s, changes);
            r.(prevError := s.prevError, integral := s.integral, epsilon := s.epsilon) == s
    ensures changes != [] ==> s.epsilonMin <= Run(s, changes).epsilon <= s.epsilonMax
    ensures changes != [] ==> -WINDUP_LIMIT <= Run(s, changes).integral <= WINDUP_LIMIT
  {
    if changes == [] then s else Step(Run(s, changes[..|changes| - 1]), changes[|changes| - 1])
  }

  /** The values that a run of `compute` returns, in order. */
  function Outputs(s: State, changes: seq<real>): (out: seq<real>)
    requires s.epsilonMin <= s.epsilonMax
    ensures |out| == |changes|
    ensures forall i :: 0 <= i < |out| ==> s.epsilonMin <= out[i] <= s.epsilonMax
  {
    if changes == [] then [] else Outputs(s, changes[..|changes| - 1]) + [Run(s, changes).epsilon]
  }

  // ----- what a run adds up to

  /** The integral when nothing has been cut off: what it was, less all changes. */
  function FreeIntegral(s: State, changes: seq<real>): real {
    s.integral - Sum(changes)
  }

  /** The integrals after each call, added up. */
  function IntegralSum(s: State, changes: seq<real>): real {
    if changes == [] then 0.0 else IntegralSum(s, changes[..|changes| - 1]) + FreeIntegral(s, changes)
  }

  /** Epsilon when nothing has been cut off: kp weighs the sum of the changes, ki the sum of the
      integrals, and kd the last change and the error from before the run, the rest cancelling. */
  function FreeEpsilon(s: State, changes: seq<real>): real {
    if changes == [] then s.epsilon
    else
      s.epsilon - s.kp * Sum(changes) + s.ki * IntegralSum(s, changes) - s.kd * (changes[|changes| - 1] + s.prevError)
  }

  /** Up to this call neither the integral nor epsilon would pass its limits. */
  predicate WithinAt(s: State, changes: seq<real>) {
    -WINDUP_LIMIT <= FreeIntegral(s, changes) <= WINDUP_LIMIT && s.epsilonMin <= FreeEpsilon(s, changes) <= s.epsilonMax
  }

  ghost predicate Within(s: State, changes: seq<real>) {
    forall k :: 1 <= k <= |changes| ==> WithinAt(s, changes[..k])
  }

  function LastError(s: State, changes: seq<real>): real {
    if changes == [] then s.prevError else -changes[|changes| - 1]
  }

  /** The state in which a run ends that never passes a limit. */
  function FreeState(s: State, changes: seq<real>): State {
    s.(integral := FreeIntegral(s, changes), prevError := LastError(s, changes), epsilon := FreeEpsilon(s, changes))
  }

  lemma Distributes(x: real, y: real, z: real)
    ensures x * (y + z) == x * y + x * z
  {
  }

  /** What one more call adds to the free epsilon. */
  lemma FreeEpsilonStep(s: State, changes: seq<real>)
    requires changes != []
    ensures var n := |changes| - 1;
            var change, error := changes[n], LastError(s, changes[..n]);
            FreeEpsilon(s, changes) == FreeEpsilon(s, changes[..n])
              + s.kp * -change + s.ki * FreeIntegral(s, changes) + s.kd * (-change - error)
  {
    var n := |changes| - 1;
    var before, change := changes[..n], changes[n];
    Distributes(s.kp, Sum(before), change);
    Distributes(s.ki, IntegralSum(s, before), FreeIntegral(s, changes));
    Distributes(s.kd, change, s.prevError);
    Distributes(s.kd, -change, -LastError(s, before));
    assert s.kp * -change == -(s.kp * change) && s.kd * -change == -(s.kd * change);
    if before == [] {
      assert s.kp * Sum(before) == 0.0 && s.ki * IntegralSum(s, before) == 0.0;
      assert s.kd * -s.prevError == -(s.kd * s.prevError);
    } else {
      Distributes(s.kd, before[n - 1], s.prevError);
    }
  }

  /** `r` is `x`, or the limit that `x` passes. */
  predicate CutTo(x: real, lo: real, hi: real, r: real) {
    if x < lo then r == lo else if x > hi then r == hi else r == x
  }

  lemma StepFrom(s: State, change: real, integral: real, raw: real)
    requires s.epsilonMin <= s.epsilonMax && CutTo(s.integral - change, -WINDUP_LIMIT, WINDUP_LIMIT, integral)
    requires raw == s.epsilon + s.kp * -change + s.ki * integral + s.kd * (-change - s.prevError)
    ensures Step(s, change) == s.(integral := integral, prevError := -change, epsilon := Step(s, change).epsilon)
    ensures CutTo(raw, s.epsilonMin, s.epsilonMax, Step(s, change).epsilon)
  {
    assert NextIntegral(s.integral, change) == integral;
  }

  /** One more call from a free state ends in the free state, but for the limits of epsilon. */
  lemma FreeStep(s: State, changes: seq<real>)
    requires s.epsilonMin <= s.epsilonMax && changes != [] && -WINDUP_LIMIT <= FreeIntegral(s, changes) <= WINDUP_LIMIT
    ensures var end := Step(FreeState(s, changes[..|changes| - 1]), changes[|changes| - 1]);
            && end == FreeState(s, changes).(epsilon := end.epsilon)
            && CutTo(FreeEpsilon(s, changes), s.epsilonMin, s.epsilonMax, end.epsilon)
  {
    FreeEpsilonStep(s, changes);
    StepFrom(FreeState(s, changes[..|changes| - 1]), changes[|changes| - 1], FreeIntegral(s, changes), FreeEpsilon(s, changes));
  }

  /** A run in which no limit is passed ends where the sums say. */
  lemma {:induction false} RunIsFree(s: State, changes: seq<real>)
    requires s.epsilonMin <= s.epsilonMax && Within(s, changes)
    ensures Run(s, changes) == FreeState(s, changes)
  {
    if changes != [] {
      var n := |changes| - 1;
      assert forall k :: 1 <= k <= n ==> changes[..n][..k] == changes[..k];
      RunIsFree(s, changes[..n]);
      assert changes[..n + 1] == changes && WithinAt(s, changes[..n + 1]);
      FreeStep(s, changes);
    }
  }

  lemma CutStep(s: State, changes: seq<real>, integral: real, missing: real)
    requires s.epsilonMin <= s.epsilonMax && changes != [] && CutTo(FreeIntegral(s, changes), -WINDUP_LIMIT, WINDUP_LIMIT, integral)
    requires missing == s.ki * FreeIntegral(s, changes) - s.ki * integral
    ensures var end := Step(FreeState(s, changes[..|changes| - 1]), changes[|changes| - 1]);
            && end.integral == integral && end.prevError == -changes[|changes| - 1]
            && CutTo(FreeEpsilon(s, changes) - missing, s.epsilonMin, s.epsilonMax, end.epsilon)
  {
    FreeEpsilonStep(s, changes);
    StepFrom(FreeState(s, changes[..|changes| - 1]), changes[|changes| - 1], integral, FreeEpsilon(s, changes) - missing);
  }

  lemma DifferenceTimes(x: real, y: real, z: real)
    ensures x * (y - z) == x * y - x * z
  {
  }

  /** The same with a last call that passes limits: each value ends at the limit it passes, and what
      is cut off the integral is missing from epsilon ki times, and nothing else is. */
  lemma LastCallIsCut(s: State, changes: seq<real>, integral: real, missing: real)
    requires s.epsilonMin <= s.epsilonMax && changes != [] && Within(s, changes[..|changes| - 1])
    requires CutTo(FreeIntegral(s, changes), -WINDUP_LIMIT, WINDUP_LIMIT, integral)
    requires missing == s.ki * (FreeIntegral(s, changes) - integral)
    ensures var end := Run(s, changes);
            && end.integral == integral && end.prevError == -changes[|changes| - 1]
            && CutTo(FreeEpsilon(s, changes) - missing, s.epsilonMin, s.epsilonMax, end.epsilon)
  {
    DifferenceTimes(s.ki, FreeIntegral(s, changes), integral);
    RunIsFree(s, changes[..|changes| - 1]);
    CutStep(s, changes, integral, missing);
  }

  predicate StrictlyInside(s: State) {
    -WINDUP_LIMIT < s.integral < WINDUP_LIMIT && s.epsilonMin < s.epsilon < s.epsilonMax
  }

  /** Seen from its results: a run none of whose values is at a limit ends where the sums say. */
  lemma {:induction false} StrictRunIsFree(s: State, changes: seq<real>)
    requires s.epsilonMin <= s.epsilonMax
    requires forall k :: 1 <= k <= |changes| ==> StrictlyInside(Run(s, changes[..k]))
    ensures Run(s, changes) == FreeState(s, changes)
  {
    if changes != [] {
      var n := |changes| - 1;
      assert forall k :: 1 <= k <= n ==> changes[..n][..k] == changes[..k];
      StrictRunIsFree(s, changes[..n]);
      assert changes[..n + 1] == changes && StrictlyInside(Run(s, changes[..n + 1]));
      FreeStep(s, changes);
    }
  }

  // ----- a constant change drives epsilon to a limit

  /** `n` calls with the same change. */
  function Feed(s: State, change: real, n: nat): (r: State)
    requires s.epsilonMin <= s.epsilonMax
    ensures r.(prevError := s.prevError, integral := s.integral, epsilon := s.epsilon) == s
    ensures n > 0 ==> r.prevError == -change && s.epsilonMin <= r.epsilon <= s.epsilonMax
  {
    if n == 0 then s else Step(Feed(s, change, n - 1), change)
  }

  lemma {:induction false} TimesMonotone(m: nat, n: nat, x: real)
    requires m <= n && x >= 0.0
    ensures Times(m, x) <= Times(n, x)
  {
    if m < n {
      TimesMonotone(m, n - 1, x);
    }
  }

  function IntegralFeed(integral: real, change: real, n: nat): real {
    if n == 0 then integral else NextIntegral(IntegralFeed(integral, change, n - 1), change)
  }

  lemma {:induction false} FeedIntegral(s: State, change: real, n: nat)
    requires s.epsilonMin <= s.epsilonMax
    ensures Feed(s, change, n).integral == IntegralFeed(s.integral, change, n)
  {
    if n > 0 {
      FeedIntegral(s, change, n - 1);
    }
  }

  /** Anti-windup does not slow the unwinding: the integral falls on a straight ramp. */
  lemma {:induction false} IntegralFalls(integral: real, change: real, n: nat)
    requires change > 0.0 && -WINDUP_LIMIT <= integral <= WINDUP_LIMIT
    ensures var ramp := integral - Times(n, change);
            IntegralFeed(integral, change, n) == if ramp < -WINDUP_LIMIT then -WINDUP_LIMIT else ramp
  {
    if n > 0 {
      IntegralFalls(integral, change, n - 1);
    }
  }

  /** With the change steady and the integral unwound, a call lowers epsilon by kp times the
      change or more, unless it reaches the limit. */
  lemma StepDown(s: State, change: real)
    requires s.epsilonMin <= s.epsilonMax && s.ki >= 0.0
    requires s.prevError == -change && NextIntegral(s.integral, change) <= 0.0
    ensures var e := Step(s, change).epsilon; e == s.epsilonMin || e <= s.epsilon - s.kp * change
  {
    var integral := NextIntegral(s.integral, change);
    NotPositive(s.ki, integral);
    assert s.kp * -change == -(s.kp * change);
    assert s.kd * (-change - s.prevError) == 0.0;
  }

  lemma NotPositive(x: real, y: real)
    requires x >= 0.0 && y <= 0.0
    ensures x * y <= 0.0
  {
  }

  lemma EpsilonFalls(s: State, change: real, n: nat)
    requires s.epsilonMin <= s.epsilonMax && s.ki >= 0.0
    requires n >= 1 && IntegralFeed(s.integral, change, n + 1) <= 0.0
    ensures var e := Feed(s, change, n + 1).epsilon;
            e == s.epsilonMin || e <= Feed(s, change, n).epsilon - s.kp * change
  {
    FeedIntegral(s, change, n);
    StepDown(Feed(s, change, n), change);
  }

  /** `e` is at the lower limit, or at least `k` paces below the upper one. */
  predicate Descended(e: real, lo: real, hi: real, pace: real, k: nat) {
    e == lo || e <= hi - Times(k, pace)
  }

  lemma DescendOnce(e: real, next: real, lo: real, hi: real, pace: real, k: nat)
    requires pace > 0.0 && lo <= next && Descended(e, lo, hi, pace, k)
    requires next == lo || next <= e - pace
    ensures Descended(next, lo, hi, pace, k + 1)
  {
  }

  lemma {:induction false} EpsilonSweeps(s: State, change: real, pace: real, u: nat, k: nat)
    requires s.epsilonMin <= s.epsilonMax && s.ki >= 0.0 && change > 0.0 && pace == s.kp * change > 0.0
    requires -WINDUP_LIMIT <= s.integral <= WINDUP_LIMIT
    requires u >= 1 && s.integral <= Times(u + 1, change)
    ensures Descended(Feed(s, change, u + k).epsilon, s.epsilonMin, s.epsilonMax, pace, k)
  {
    if k > 0 {
      EpsilonSweeps(s, change, pace, u, k - 1);
      assert IntegralFeed(s.integral, change, u + k) <= 0.0 by {
        IntegralFalls(s.integral, change, u + k);
        TimesMonotone(u + 1, u + k, change);
      }
      EpsilonFalls(s, change, u + k - 1);
      DescendOnce(Feed(s, change, u + k - 1).epsilon, Feed(s, change, u + k).epsilon,
                  s.epsilonMin, s.epsilonMax, pace, k - 1);
    }
  }

  /** A constant rise of curvature unwinds the integral in `u + 1` calls, then sweeps epsilon down
      in `m` more, and keeps it at its lower limit for good. */
  lemma RisePins(s: State, change: real, pace: real, u: nat, m: nat, n: nat)
    requires s.epsilonMin <= s.epsilonMax && s.ki >= 0.0 && change > 0.0 && pace == s.kp * change > 0.0
    requires -WINDUP_LIMIT <= s.integral <= WINDUP_LIMIT
    requires u >= 1 && s.integral <= Times(u + 1, change)
    requires s.epsilonMax - s.epsilonMin <= Times(m, pace) && n >= u + m
    ensures Feed(s, change, n).epsilon == s.epsilonMin
  {
    EpsilonSweeps(s, change, pace, u, n - u);
    TimesMonotone(m, n - u, pace);
  }

  // ----- the number of calls

  function Quotient(span: real, pace: real): int
    requires pace > 0.0
  {
    (span / pace).Floor
  }

  lemma QuotientIs(x: real, q: real, y: real)
    requires y > 0.0 && x == q * y
    ensures x / y == q
  {
  }

  lemma QuotientFalls(span: real, pace: real)
    requires pace > 0.0
    ensures Quotient(span - pace, pace) == Quotient(span, pace) - 1
    ensures span > 0.0 ==> Quotient(span, pace) >= 0
  {
    var q := span / pace;
    assert span == q * pace;
    QuotientIs(span - pace, q - 1.0, pace);
    if span > 0.0 {
      assert span / pace > 0.0;
    }
  }

  /** The least number of calls that cover `span` at `pace` a call: their quotient, rounded up. */
  function CallsToCover(span: real, pace: real): (n: nat)
    requires pace > 0.0
    ensures span <= Times(n, pace)
    ensures n > 0 ==> Times(n - 1, pace) < span
    decreases span > 0.0, Quotient(span, pace)
  {
    if span <= 0.0 then 0
    else
      QuotientFalls(span, pace);
      1 + CallsToCover(span - pace, pace)
  }

  /** One call to settle the derivative term, one full unwinding and one full sweep of epsilon
      over `span`, for a change of the given size whose proportional term is `pace`. */
  function CallsToLimit(span: real, size: real, pace: real): nat
    requires size > 0.0 && pace > 0.0
  {
    1 + CallsToCover(WINDUP_LIMIT, size) + CallsToCover(span, pace)
  }

  lemma RisePinsToMinimum(s: State, change: real, span: real, pace: real, n: nat)
    requires span == s.epsilonMax - s.epsilonMin >= 0.0 && pace == s.kp * change > 0.0
    requires s.ki >= 0.0 && change > 0.0 && -WINDUP_LIMIT <= s.integral <= WINDUP_LIMIT
    requires n >= CallsToLimit(span, change, pace)
    ensures Feed(s, change, n).epsilon == s.epsilonMin
  {
    var unwind, sweep := CallsToCover(WINDUP_LIMIT, change), CallsToCover(span, pace);
    TimesMonotone(unwind, unwind + 2, change);
    RisePins(s, change, pace, unwind + 1, sweep, n);
  }

  /** The same controller seen with every sign turned. */
  function Mirror(s: State): State {
    s.(prevError := -s.prevError, integral := -s.integral, epsilon := -s.epsilon,
       epsilonMin := -s.epsilonMax, epsilonMax := -s.epsilonMin)
  }

  lemma MirrorStep(s: State, change: real)
    requires s.epsilonMin <= s.epsilonMax
    ensures Step(Mirror(s), -change) == Mirror(Step(s, change))
  {
    var a, b := Step(s, change), Step(Mirror(s), -change);
    assert b.integral == -a.integral;
    assert s.kp * change == -(s.kp * -change);
    assert s.ki * b.integral == -(s.ki * a.integral);
    assert s.kd * (change + s.prevError) == -(s.kd * (-change - s.prevError));
  }

  lemma {:induction false} MirrorFeed(s: State, change: real, n: nat)
    requires s.epsilonMin <= s.epsilonMax
    ensures Feed(Mirror(s), -change, n) == Mirror(Feed(s, change, n))
  {
    if n > 0 {
      MirrorFeed(s, change, n - 1);
      MirrorStep(Feed(s, change, n - 1), change);
    }
  }

  lemma MirrorLimit(s: State, change: real, n: nat)
    requires s.epsilonMin <= s.epsilonMax
    requires Feed(Mirror(s), -change, n).epsilon == Mirror(s).epsilonMin
    ensures Feed(s, change, n).epsilon == s.epsilonMax
  {
    MirrorFeed(s, change, n);
  }

  /** A constant fall of curvature pins epsilon to its upper limit, within the same number of calls. */
  lemma FallPinsToMaximum(s: State, change: real, span: real, pace: real, n: nat)
    requires span == s.epsilonMax - s.epsilonMin >= 0.0 && pace == s.kp * -change > 0.0
    requires s.ki >= 0.0 && change < 0.0 && -WINDUP_LIMIT <= s.integral <= WINDUP_LIMIT
    requires n >= CallsToLimit(span, -change, pace)
    ensures Feed(s, change, n).epsilon == s.epsilonMax
  {
    RisePinsToMinimum(Mirror(s), -change, span, pace, n);
    MirrorLimit(s, change, n);
  }

  // ----- what `is_stable` does and does not say

  predicate IsStable(s: State) {
    -0.01 < s.integral < 0.01 && -0.001 < s.prevError < 0.001
  }

  /** After a run that passes no limit the controller calls itself stable exactly when the last
      change was below a thousandth and the changes cancel the integral to within a hundredth. */
  lemma StableAfterRunIff(s: State, changes: seq<real>)
    requires s.epsilonMin <= s.epsilonMax && changes != [] && Within(s, changes)
    ensures IsStable(Run(s, changes)) <==>
            -0.001 < changes[|changes| - 1] < 0.001 && -0.01 < s.integral - Sum(changes) < 0.01
  {
    RunIsFree(s, changes);
  }

  /** A push of this sign leaves epsilon where it is. */
  predicate Held(s: State, push: real) {
    push == 0.0 || (push > 0.0 && s.epsilon == s.epsilonMax) || (push < 0.0 && s.epsilon == s.epsilonMin)
  }

  /** What moves epsilon on the first call without a change: the integral term, and the derivative
      term that takes back the last error. */
  function FirstPush(s: State): real {
    s.ki * NextIntegral(s.integral, 0.0) - s.kd * s.prevError
  }

  /** What moves it on every later call: the integral term alone. */
  function LaterPush(s: State): real {
    s.ki * NextIntegral(s.integral, 0.0)
  }

  /** One call without a change leaves epsilon where it is exactly when epsilon is within its limits
      and the push vanishes or presses against the limit on its side. */
  lemma AtRestIff(s: State)
    requires s.epsilonMin <= s.epsilonMax
    ensures Step(s, 0.0).epsilon == s.epsilon <==> s.epsilonMin <= s.epsilon <= s.epsilonMax && Held(s, FirstPush(s))
    ensures FirstPush(Step(s, 0.0)) == LaterPush(s) == LaterPush(Step(s, 0.0))
  {
    assert s.kp * -0.0 == 0.0;
    assert s.kd * (-0.0 - s.prevError) == -(s.kd * s.prevError);
    assert s.kd * -0.0 == 0.0;
  }

  ghost predicate NeverMoves(s: State)
    requires s.epsilonMin <= s.epsilonMax
  {
    forall n: nat :: Feed(s, 0.0, n).epsilon == s.epsilon
  }

  predicate HeldForGood(s: State) {
    s.epsilonMin <= s.epsilon <= s.epsilonMax && Held(s, FirstPush(s)) && Held(s, LaterPush(s))
  }

  /** Left alone, epsilon stays put for good exactly when neither push moves it: the first call's,
      with what is left of the last error, and the integral's ever after. */
  lemma AtRestForGoodIff(s: State)
    requires s.epsilonMin <= s.epsilonMax
    ensures NeverMoves(s) <==> HeldForGood(s)
  {
    if HeldForGood(s) {
      forall n: nat ensures Feed(s, 0.0, n).epsilon == s.epsilon {
        StaysPut(s, n);
      }
    } else if NeverMoves(s) {
      TwoCallsDecide(s);
    }
  }

  lemma TwoCallsDecide(s: State)
    requires s.epsilonMin <= s.epsilonMax
    requires Feed(s, 0.0, 1).epsilon == s.epsilon && Feed(s, 0.0, 2).epsilon == s.epsilon
    ensures HeldForGood(s)
  {
    var next := Step(s, 0.0);
    assert Feed(s, 0.0, 1) == Step(Feed(s, 0.0, 0), 0.0) == next;
    assert Feed(s, 0.0, 2) == Step(Feed(s, 0.0, 1), 0.0) == Step(next, 0.0);
    AtRestIff(s);
    AtRestIff(next);
  }

  lemma {:induction false} StaysPut(s: State, n: nat)
    requires HeldForGood(s)
    ensures Feed(s, 0.0, n).epsilon == s.epsilon && LaterPush(Feed(s, 0.0, n)) == LaterPush(s)
    ensures n > 0 ==> FirstPush(Feed(s, 0.0, n)) == LaterPush(s)
  {
    if n > 0 {
      StaysPut(s, n - 1);
      AtRestIff(Feed(s, 0.0, n - 1));
    }
  }

  /** Without changes and with no error left to take back, epsilon climbs by the integral term on
      every call until it reaches its limit. */
  lemma {:induction false} Climbs(s: State, push: real, n: nat)
    requires s.epsilonMin <= s.epsilon <= s.epsilonMax && s.prevError == 0.0 && push == LaterPush(s) >= 0.0
    ensures var climbed := s.epsilon + Times(n, push);
            Feed(s, 0.0, n).epsilon == if climbed > s.epsilonMax then s.epsilonMax else climbed
    ensures LaterPush(Feed(s, 0.0, n)) == push && FirstPush(Feed(s, 0.0, n)) == push
  {
    assert s.kd * s.prevError == 0.0;
    if n > 0 {
      Climbs(s, push, n - 1);
      OneClimb(Feed(s, 0.0, n - 1), push);
    }
  }

  lemma OneClimb(s: State, push: real)
    requires s.epsilonMin <= s.epsilon <= s.epsilonMax && FirstPush(s) == push && LaterPush(s) == push >= 0.0
    ensures Step(s, 0.0).epsilon == if s.epsilon + push > s.epsilonMax then s.epsilonMax else s.epsilon + push
    ensures LaterPush(Step(s, 0.0)) == push && FirstPush(Step(s, 0.0)) == push
  {
    AtRestIff(s);
    assert s.kd * (-0.0 - s.prevError) == -(s.kd * s.prevError);
  }

  /** States that `is_stable` accepts: one that climbs call after call to its upper limit, and one
      that only the derivative term moves. */
  lemma StableCanDrift(n: nat)
    ensures var s := State(0.5, 0.1, 0.3, 0.0, 0.005, 0.5, 0.001, 1.0);
            IsStable(s) && Feed(s, 0.0, n).epsilon == if n <= 1000 then 0.5 + n as real * 0.0005 else 1.0
    ensures var s := State(0.5, 0.0, 0.3, 0.0005, 0.0, 0.5, 0.001, 1.0);
            IsStable(s) && LaterPush(s) == 0.0 && Step(s, 0.0).epsilon < s.epsilon
  {
    var s := State(0.5, 0.1, 0.3, 0.0, 0.005, 0.5, 0.001, 1.0);
    Climbs(s, 0.0005, n);
    TimesIsProduct(n, 0.0005);
  }
}
