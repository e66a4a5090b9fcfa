/** Sums, means and variances of sequences of readings, over the reals. */
module Statistics {

  function Sum(s: seq<real>): real {
    if s == [] then 0.0 else Sum(s[..|s| - 1]) + s[|s| - 1]
  }

  /** `x` added up `n` times. */
  function Times(n: nat, x: real): real {
    if n == 0 then 0.0 else Times(n - 1, x) + x
  }

  function Product(x: real, y: real): (r: real)
    ensures x > 0.0 && y > 0.0 ==> r > 0.0
    ensures x < 0.0 && y < 0.0 ==> r > 0.0
  {
    if x < 0.0 && y < 0.0 then ProductPositive(-x, -y); x * y else x * y
  }

  function Square(x: real): (r: real)
    ensures x == 0.0 ==> r == 0.0
    ensures x != 0.0 ==> r > 0.0
  {
    Product(x, x)
  }

  lemma ProductPositive(x: real, y: real)
    requires x > 0.0 && y > 0.0
    ensures x * y > 0.0
  {
  }

  lemma ProductSign(x: real, y: real)
    requires x >= 0.0 && y >= 0.0
    ensures x * y >= 0.0
  {
  }

  function SquaredDeviations(s: seq<real>, m: real): real {
    if s == [] then 0.0 else SquaredDeviations(s[..|s| - 1], m) + Square(s[|s| - 1] - m)
  }

  function Mean(s: seq<real>): real
    requires s != []
  {
    Sum(s) / |s| as real
  }

  /** The population variance; a single reading, or none, has none. */
  function Variance(s: seq<real>): real {
    if |s| < 2 then 0.0 else SquaredDeviations(s, Mean(s)) / |s| as real
  }

  lemma {:induction false} DeviationsVanishIff(s: seq<real>, m: real)
    ensures SquaredDeviations(s, m) >= 0.0
    ensures SquaredDeviations(s, m) == 0.0 <==> forall i :: 0 <= i < |s| ==> s[i] == m
  {
    if s != [] {
      var n := |s| - 1;
      DeviationsVanishIff(s[..n], m);
      assert forall i :: 0 <= i < n ==> s[..n][i] == s[i];
    }
  }

  lemma {:induction false} SumOfEqual(s: seq<real>, v: real)
    requires forall i :: 0 <= i < |s| ==> s[i] == v
    ensures Sum(s) == |s| as real * v
  {
    if s != [] {
      SumOfEqual(s[..|s| - 1], v);
    }
  }

  ghost predicate AllEqual(s: seq<real>) {
    forall i, j :: 0 <= i < |s| && 0 <= j < |s| ==> s[i] == s[j]
  }

  /** The variance is never negative, and vanishes exactly when the readings agree. */
  lemma VarianceVanishIff(s: seq<real>)
    ensures Variance(s) >= 0.0
    ensures Variance(s) == 0.0 <==> AllEqual(s)
  {
    if |s| >= 2 {
      var m := Mean(s);
      DeviationsVanishIff(s, m);
      QuotientSign(SquaredDeviations(s, m), |s| as real);
      if AllEqual(s) {
        SumOfEqual(s, s[0]);
        assert m == s[0];
      }
    } else if |s| == 1 {
      assert s == [s[0]];
    }
  }

  lemma QuotientSign(x: real, n: real)
    requires x >= 0.0 && n > 0.0
    ensures x / n >= 0.0
    ensures x / n == 0.0 <==> x == 0.0
  {
  }

  // ----- readings within an interval

  function SumOfDeviations(s: seq<real>, m: real): real {
    if s == [] then 0.0 else SumOfDeviations(s[..|s| - 1], m) + (s[|s| - 1] - m)
  }

  lemma {:induction false} DeviationsCancel(s: seq<real>, m: real)
    ensures SumOfDeviations(s, m) == Sum(s) - |s| as real * m
  {
    if s != [] {
      DeviationsCancel(s[..|s| - 1], m);
    }
  }

  lemma ShiftSquare(x: real, m: real, d: real)
    ensures Square(x - (m - d)) == Square(x - m) + 2.0 * d * (x - m) + Square(d)
  {
  }

  function CrossTerms(s: seq<real>, m: real, d: real): real {
    if s == [] then 0.0 else CrossTerms(s[..|s| - 1], m, d) + 2.0 * d * (s[|s| - 1] - m)
  }

  lemma {:induction false} CrossTermsFactor(s: seq<real>, m: real, d: real)
    ensures CrossTerms(s, m, d) == 2.0 * d * SumOfDeviations(s, m)
  {
    if s != [] {
      var n := |s| - 1;
      CrossTermsFactor(s[..n], m, d);
      assert 2.0 * d * (SumOfDeviations(s[..n], m) + (s[n] - m)) == 2.0 * d * SumOfDeviations(s[..n], m) + 2.0 * d * (s[n] - m);
    }
  }

  /** Moving the centre from m to m - d. */
  lemma {:induction false} ShiftCentre(s: seq<real>, m: real, d: real)
    ensures SquaredDeviations(s, m - d) == SquaredDeviations(s, m) + CrossTerms(s, m, d) + Times(|s|, Square(d))
  {
    if s != [] {
      var n := |s| - 1;
      ShiftCentre(s[..n], m, d);
      ShiftSquare(s[n], m, d);
    }
  }

  /** The mean is the centre with the least squared deviations. */
  lemma MeanIsBestCentre(s: seq<real>, m: real, c: real)
    requires SumOfDeviations(s, m) == 0.0
    ensures SquaredDeviations(s, m) <= SquaredDeviations(s, c)
  {
    ShiftCentre(s, m, m - c);
    CrossTermsFactor(s, m, m - c);
    TimesSign(|s|, Square(m - c));
    assert m - (m - c) == c;
  }

  lemma {:induction false} TimesSign(n: nat, x: real)
    requires x >= 0.0
    ensures Times(n, x) >= 0.0
  {
    if n > 0 {
      TimesSign(n - 1, x);
    }
  }

  lemma {:induction false} DeviationsFromMiddle(s: seq<real>, c: real, h: real)
    requires forall i :: 0 <= i < |s| ==> c - h <= s[i] <= c + h
    ensures SquaredDeviations(s, c) <= Times(|s|, Square(h))
  {
    if s != [] {
      var n := |s| - 1;
      DeviationsFromMiddle(s[..n], c, h);
      SmallerSquare(s[n] - c, h);
    }
  }

  lemma SmallerSquare(x: real, h: real)
    requires -h <= x <= h
    ensures Square(x) <= Square(h)
  {
    ProductSign(h - x, h + x);
    assert (h - x) * (h + x) == h * h - x * x;
  }

  lemma {:induction false} TimesOverCount(n: nat, x: real)
    requires n > 0
    ensures Times(n, x) / n as real == x
  {
    TimesIsProduct(n, x);
  }

  lemma {:induction false} TimesIsProduct(n: nat, x: real)
    ensures Times(n, x) == n as real * x
  {
    if n > 0 {
      TimesIsProduct(n - 1, x);
      assert n as real * x == (n - 1) as real * x + x;
    }
  }

  lemma QuotientMonotone(x: real, y: real, n: real)
    requires n > 0.0 && x <= y
    ensures x / n <= y / n
  {
  }

  /** The square of half the spread, that is, a quarter of the squared spread. */
  function MaxVariance(lo: real, hi: real): real {
    Square((hi - lo) / 2.0)
  }

  lemma MaxVarianceIsQuarter(lo: real, hi: real)
    ensures MaxVariance(lo, hi) == (hi - lo) * (hi - lo) / 4.0
  {
  }

  lemma MeanCancels(s: seq<real>)
    requires s != []
    ensures SumOfDeviations(s, Mean(s)) == 0.0
  {
    DeviationsCancel(s, Mean(s));
    SumIsMean(Sum(s), |s| as real);
  }

  lemma SumIsMean(sum: real, n: real)
    requires n > 0.0
    ensures sum == n * (sum / n)
  {
  }

  /** Readings within [lo, hi] have variance at most a quarter of the squared spread. */
  lemma VarianceBound(s: seq<real>, lo: real, hi: real)
    requires forall i :: 0 <= i < |s| ==> lo <= s[i] <= hi
    ensures 0.0 <= Variance(s) <= MaxVariance(lo, hi)
  {
    VarianceVanishIff(s);
    if |s| >= 2 {
      var c, h := (lo + hi) / 2.0, (hi - lo) / 2.0;
      MeanCancels(s);
      MeanIsBestCentre(s, Mean(s), c);
      DeviationsFromMiddle(s, c, h);
      TimesOverCount(|s|, Square(h));
      QuotientMonotone(SquaredDeviations(s, Mean(s)), Times(|s|, Square(h)), |s| as real);
    }
  }

  // ----- the value of the variance

  function SumOfSquares(s: seq<real>): real {
    if s == [] then 0.0 else SumOfSquares(s[..|s| - 1]) + s[|s| - 1] * s[|s| - 1]
  }

  lemma SquareOfDifference(x: real, m: real)
    ensures Square(x - m) == x * x - 2.0 * m * x + m * m
  {
  }

  lemma {:induction false} DeviationsExpand(s: seq<real>, m: real)
    ensures SquaredDeviations(s, m) == SumOfSquares(s) - 2.0 * m * Sum(s) + Times(|s|, m * m)
  {
    if s != [] {
      var n := |s| - 1;
      DeviationsExpand(s[..n], m);
      SquareOfDifference(s[n], m);
      assert 2.0 * m * (Sum(s[..n]) + s[n]) == 2.0 * m * Sum(s[..n]) + 2.0 * m * s[n];
    }
  }

  /** `v` is the variance of `n` readings with this sum and this sum of squares. */
  predicate IsVariance(n: real, sum: real, squares: real, v: real) {
    n * n * v == n * squares - sum * sum
  }

  /** The squared deviations from `m` of `n` readings with this sum and this sum of squares. */
  function Expanded(n: real, m: real, sum: real, squares: real): real {
    squares - 2.0 * m * sum + n * (m * m)
  }

  lemma DeviationsAt(s: seq<real>, n: real, m: real)
    requires n == |s| as real
    ensures SquaredDeviations(s, m) == Expanded(n, m, Sum(s), SumOfSquares(s))
  {
    DeviationsExpand(s, m);
    TimesIsProduct(|s|, m * m);
  }

  lemma CentreOut(n: real, m: real, sum: real, squares: real)
    requires sum == n * m
    ensures n * Expanded(n, m, sum, squares) == n * squares - sum * sum
  {
    var deviations := Expanded(n, m, sum, squares);
    assert n * (m * sum) == sum * sum;
    assert n * (n * (m * m)) == sum * sum;
    assert n * deviations == n * squares - 2.0 * (n * (m * sum)) + n * (n * (m * m));
  }

  lemma VarianceAtMean(n: real, m: real, sum: real, squares: real, v: real)
    requires sum == n * m && n * v == Expanded(n, m, sum, squares)
    ensures IsVariance(n, sum, squares, v)
  {
    CentreOut(n, m, sum, squares);
    assert n * n * v == n * (n * v);
  }

  lemma VarianceOfMany(s: seq<real>, n: real, m: real, v: real)
    requires n == |s| as real && Sum(s) == n * m && n * v == SquaredDeviations(s, m)
    ensures IsVariance(n, Sum(s), SumOfSquares(s), v)
  {
    DeviationsAt(s, n, m);
    VarianceAtMean(n, m, Sum(s), SumOfSquares(s), v);
  }

  lemma VarianceOfFew(s: seq<real>)
    requires |s| < 2
    ensures IsVariance(|s| as real, Sum(s), SumOfSquares(s), 0.0)
  {
    if |s| == 1 {
      assert s[..0] == [];
    }
  }

  lemma VarianceParts(s: seq<real>) returns (n: real, m: real, v: real)
    requires |s| >= 2
    ensures n == |s| as real && v == Variance(s) && Sum(s) == n * m && n * v == SquaredDeviations(s, m)
  {
    n, m, v := |s| as real, Mean(s), Variance(s);
    SumIsMean(Sum(s), n);
    SumIsMean(SquaredDeviations(s, m), n);
  }

  /** What the variance is: the number of readings times the sum of their squares, less the square
      of their sum, divided by the number squared. */
  lemma VarianceValue(s: seq<real>)
    ensures IsVariance(|s| as real, Sum(s), SumOfSquares(s), Variance(s))
  {
    if |s| < 2 {
      VarianceOfFew(s);
    } else {
      var n, m, v := VarianceParts(s);
      VarianceOfMany(s, n, m, v);
    }
  }

  lemma SumsOfTwo(x: real, y: real)
    ensures Sum([x, y]) == x + y && SumOfSquares([x, y]) == x * x + y * y
  {
    assert [x, y][..1] == [x] && [x][..0] == [];
    assert Sum([x]) == x && SumOfSquares([x]) == x * x;
  }

  lemma VarianceOfTwo(x: real, y: real, v: real)
    requires IsVariance(2.0, x + y, x * x + y * y, v)
    ensures v == (y - x) * (y - x) / 4.0
  {
    assert (x + y) * (x + y) == x * x + 2.0 * (x * y) + y * y;
    assert (y - x) * (y - x) == x * x - 2.0 * (x * y) + y * y;
  }

  /** The bound is attained by two readings at the two ends. */
  lemma BoundIsAttained(lo: real, hi: real)
    ensures Variance([lo, hi]) == MaxVariance(lo, hi)
  {
    VarianceValue([lo, hi]);
    SumsOfTwo(lo, hi);
    VarianceOfTwo(lo, hi, Variance([lo, hi]));
    MaxVarianceIsQuarter(lo, hi);
  }
}
