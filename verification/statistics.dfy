/** Per-bin statistics over the frames' magnitude spectra, the feature vector they
    form, and its normalisation (lib/au-file-processing/src/AUFile.cpp, lines 70-71,
    146-162 and 250-254).

    Values are exact reals. The source's parallel reductions are sums of doubles in
    an unspecified order; here they are one sequential sum. */
module Statistics {
  import opened Framing

  /** Left-to-right sum. */
  function Sum(xs: seq<real>): real
  {
    if |xs| == 0 then 0.0 else Sum(xs[..|xs| - 1]) + xs[|xs| - 1]
  }

  /** Line 151: the sum divided by the number of values. */
  function Mean(xs: seq<real>): real
    requires |xs| > 0
  {
    Sum(xs) / (|xs| as real)
  }

  /** Each value's squared distance from avg (the lambda of line 159). */
  function SquaredDeviations(xs: seq<real>, avg: real): (d: seq<real>)
    ensures |d| == |xs|
  {
    seq(|xs|, i requires 0 <= i < |xs| => (xs[i] - avg) * (xs[i] - avg))
  }

  /** Each value's signed distance from avg. */
  function Deviations(xs: seq<real>, avg: real): (d: seq<real>)
    ensures |d| == |xs|
  {
    seq(|xs|, i requires 0 <= i < |xs| => xs[i] - avg)
  }

  /** Lines 154-161 before the square root: the squared deviations from the mean
      summed and divided by n - 1. */
  function Variance(xs: seq<real>): real
    requires |xs| >= 2
  {
    Sum(SquaredDeviations(xs, Mean(xs))) / ((|xs| - 1) as real)
  }

  /** Lines 147-150: one bin's magnitude in every frame. */
  function Column(rows: seq<seq<real>>, bin: nat): (col: seq<real>)
    requires forall r :: 0 <= r < |rows| ==> bin < |rows[r]|
    ensures |col| == |rows|
    ensures forall r :: 0 <= r < |rows| ==> col[r] == rows[r][bin]
  {
    seq(|rows|, r requires 0 <= r < |rows| => rows[r][bin])
  }

  /** The magnitudes of at least two frames, each with at least FFT_SIZE / 2 bins. */
  predicate ValidMagnitudes(mags: seq<seq<real>>)
  {
    |mags| >= 2 && forall r :: 0 <= r < |mags| ==> |mags[r]| >= HalfFft
  }

  /** Lines 146-162 and 70-71: the FFT_SIZE / 2 bin means followed by the FFT_SIZE / 2
      bin deviations; `root` stands for `std::sqrt`. */
  function FeatureVector(mags: seq<seq<real>>, root: real -> real): (features: seq<real>)
    requires ValidMagnitudes(mags)
    ensures |features| == FftSize
    ensures forall b :: 0 <= b < HalfFft ==> features[b] == Mean(Column(mags, b))
    ensures forall b :: 0 <= b < HalfFft ==> features[HalfFft + b] == root(Variance(Column(mags, b)))
  {
    var means := seq(HalfFft, b requires 0 <= b < HalfFft => Mean(Column(mags, b)));
    var deviations := seq(HalfFft, b requires 0 <= b < HalfFft => root(Variance(Column(mags, b))));
    means + deviations
  }

  // ---------------------------------------------------------------------------
  // Properties of the statistics

  lemma {:induction false} SumBounds(xs: seq<real>, lo: real, hi: real)
    requires forall i :: 0 <= i < |xs| ==> lo <= xs[i] <= hi
    ensures (|xs| as real) * lo <= Sum(xs) <= (|xs| as real) * hi
    decreases |xs|
  {
    if |xs| > 0 {
      var init := xs[..|xs| - 1];
      assert forall i :: 0 <= i < |init| ==> init[i] == xs[i];
      SumBounds(init, lo, hi);
      var n := |init| as real;
      assert Sum(xs) == Sum(init) + xs[|xs| - 1] && |xs| as real == n + 1.0;
      assert (|xs| as real) * lo == n * lo + lo;
      assert (|xs| as real) * hi == n * hi + hi;
    }
  }

  /** The mean lies between any lower and upper bound of the values. */
  lemma MeanBounds(xs: seq<real>, lo: real, hi: real)
    requires |xs| > 0
    requires forall i :: 0 <= i < |xs| ==> lo <= xs[i] <= hi
    ensures lo <= Mean(xs) <= hi
  {
    SumBounds(xs, lo, hi);
    var n := |xs| as real;
    assert Mean(xs) * n == Sum(xs);
  }

  lemma {:induction false} SumOfDeviations(xs: seq<real>, c: real)
    ensures Sum(Deviations(xs, c)) == Sum(xs) - (|xs| as real) * c
    decreases |xs|
  {
    if |xs| > 0 {
      var init := xs[..|xs| - 1];
      assert Deviations(xs, c)[..|xs| - 1] == Deviations(init, c);
      SumOfDeviations(init, c);
    }
  }

  /** The deviations from the mean cancel out. */
  lemma DeviationsFromMeanCancel(xs: seq<real>)
    requires |xs| > 0
    ensures Sum(Deviations(xs, Mean(xs))) == 0.0
  {
    SumOfDeviations(xs, Mean(xs));
    var n := |xs| as real;
    assert Mean(xs) * n == Sum(xs);
  }

  lemma {:induction false} SumOfNonNegatives(xs: seq<real>)
    requires forall i :: 0 <= i < |xs| ==> xs[i] >= 0.0
    ensures Sum(xs) >= 0.0
    ensures Sum(xs) == 0.0 <==> forall i :: 0 <= i < |xs| ==> xs[i] == 0.0
    decreases |xs|
  {
    if |xs| > 0 {
      SumOfNonNegatives(xs[..|xs| - 1]);
      if Sum(xs) == 0.0 {
        forall i | 0 <= i < |xs|
          ensures xs[i] == 0.0
        {
          if i < |xs| - 1 {
            assert xs[..|xs| - 1][i] == xs[i];
          }
        }
      }
    }
  }

  /** The variance is never negative, and it is zero exactly when every value equals
      the mean. */
  lemma VarianceZeroIffConstant(xs: seq<real>)
    requires |xs| >= 2
    ensures Variance(xs) >= 0.0
    ensures Variance(xs) == 0.0 <==> forall i :: 0 <= i < |xs| ==> xs[i] == Mean(xs)
  {
    var m := Mean(xs);
    var d := SquaredDeviations(xs, m);
    forall i | 0 <= i < |xs|
      ensures d[i] >= 0.0 && (d[i] == 0.0 <==> xs[i] == m)
    {
      var e := xs[i] - m;
      SquareSign(e);
      if e == 0.0 {
        calc { d[i]; == e * e; == 0.0 * 0.0; == 0.0; }
      } else {
        calc { d[i]; == e * e; > 0.0; }
      }
    }
    SumOfNonNegatives(d);
  }

  lemma SquareSign(e: real)
    ensures e * e >= 0.0
    ensures e != 0.0 ==> e * e > 0.0
  {
    if e > 0.0 {
      assert e * e > 0.0;
    } else if e < 0.0 {
      assert (-e) * (-e) > 0.0;
      calc { e * e; == (-e) * (-e); > 0.0; }
    }
  }

  /** A bin whose magnitude is c in every frame has mean c and deviation root(0). */
  lemma ConstantBin(xs: seq<real>, c: real)
    requires |xs| >= 2
    requires forall i :: 0 <= i < |xs| ==> xs[i] == c
    ensures Mean(xs) == c
    ensures Variance(xs) == 0.0
  {
    MeanBounds(xs, c, c);
    VarianceZeroIffConstant(xs);
  }

  // ---------------------------------------------------------------------------
  // Normalisation

  /** `featuresNormalize`, lines 250-254: every feature i becomes
      (f[i] - avg[i]) / stddev[i]. The source indexes avg and stddev without checking
      their length, and divides without checking for zero. */
  function Normalize(features: seq<real>, avg: seq<real>, stddev: seq<real>): (r: seq<real>)
    requires |avg| >= |features| && |stddev| >= |features|
    requires forall i :: 0 <= i < |features| ==> stddev[i] != 0.0
    ensures |r| == |features|
    ensures forall i :: 0 <= i < |features| ==> r[i] * stddev[i] + avg[i] == features[i]
  {
    seq(|features|, i requires 0 <= i < |features| => (features[i] - avg[i]) / stddev[i])
  }

  /** The inverse map: scale by stddev and shift by avg. */
  function Denormalize(g: seq<real>, avg: seq<real>, stddev: seq<real>): (r: seq<real>)
    requires |avg| >= |g| && |stddev| >= |g|
    ensures |r| == |g|
  {
    seq(|g|, i requires 0 <= i < |g| => g[i] * stddev[i] + avg[i])
  }

  /** Normalising is invertible: each direction undoes the other. */
  lemma NormalizeRoundTrip(f: seq<real>, g: seq<real>, avg: seq<real>, stddev: seq<real>)
    requires |g| == |f| && |avg| >= |f| && |stddev| >= |f|
    requires forall i :: 0 <= i < |f| ==> stddev[i] != 0.0
    ensures Denormalize(Normalize(f, avg, stddev), avg, stddev) == f
    ensures Normalize(Denormalize(g, avg, stddev), avg, stddev) == g
  {
    var back := Denormalize(Normalize(f, avg, stddev), avg, stddev);
    assert forall i :: 0 <= i < |f| ==> back[i] == f[i];
    var d := Denormalize(g, avg, stddev);
    var n := Normalize(d, avg, stddev);
    forall i | 0 <= i < |g|
      ensures n[i] == g[i]
    {
      assert n[i] * stddev[i] == g[i] * stddev[i];
    }
  }
}
