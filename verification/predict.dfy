/** The class selection of the predictor (predicting/src/main.cpp, lines 107-125):
    each class scores the normalised features linearly, every score is appended to
    the ranking, and a running maximum seeded with the pair (-1, -5000) picks the
    predicted class.

    Scores are exact reals. `std::transform_reduce` may sum in any order; here the sum
    runs left to right, which over the reals is the same value. */
module Predict {

  /** The value the running maximum starts at, and which it treats as "unset". */
  const Sentinel: real := -5000.0

  /** A class index with its score, as `std::pair<int, double>`. */
  datatype Choice = Choice(index: int, score: real)

  /** The running maximum before any class is scored (line 109). */
  const Unset: Choice := Choice(-1, Sentinel)

  /** Lines 113-114: the sum of coef[i] * feat[i] over the class's coefficients. */
  function Dot(coef: seq<real>, feat: seq<real>): real
    requires |coef| <= |feat|
  {
    if |coef| == 0 then 0.0
    else Dot(coef[..|coef| - 1], feat) + coef[|coef| - 1] * feat[|coef| - 1]
  }

  /** Lines 113-115: the class's score, its dot product less its intercept. */
  function Score(coef: seq<real>, intercept: real, feat: seq<real>): real
    requires |coef| <= |feat|
  {
    Dot(coef, feat) - intercept
  }

  /** Lines 116-120, once: a maximum still at the sentinel is replaced outright, and
      then a strictly greater score replaces it. */
  function Step(best: Choice, index: nat, score: real): (r: Choice)
    ensures r == best || r == Choice(index, score)
    ensures best.score != Sentinel ==> r == (if score > best.score then Choice(index, score) else best)
    ensures best.score == Sentinel ==> r == Choice(index, score)
  {
    var seeded := if best.score == Sentinel then Choice(index, score) else best;
    if score > seeded.score then Choice(index, score) else seeded
  }

  /** The running maximum after the first k scores. */
  function SelectUpTo(scores: seq<real>, k: nat): (r: Choice)
    requires k <= |scores|
    ensures r == Unset || 0 <= r.index < k
    ensures 0 <= r.index ==> r.score == scores[r.index]
  {
    if k == 0 then Unset else Step(SelectUpTo(scores, k - 1), k - 1, scores[k - 1])
  }

  /** The class the loop selects. */
  function Select(scores: seq<real>): Choice
  {
    SelectUpTo(scores, |scores|)
  }

  /** The first index with the largest score: the reference the selection is checked
      against. */
  predicate IsFirstMax(scores: seq<real>, i: int)
  {
    && 0 <= i < |scores|
    && (forall j :: 0 <= j < |scores| ==> scores[j] <= scores[i])
    && (forall j :: 0 <= j < i ==> scores[j] < scores[i])
  }

  /** Lines 107-125: score every class in index order, record each in the ranking and
      keep the running maximum. The source reads intercepts[c] and the first |coef[c]|
      features without checking their number. */
  method Predict(coeffs: seq<seq<real>>, intercepts: seq<real>, feat: seq<real>)
    returns (ranking: seq<Choice>, best: Choice)
    requires |intercepts| >= |coeffs|
    requires forall c :: 0 <= c < |coeffs| ==> |coeffs[c]| <= |feat|
    ensures |ranking| == |coeffs|
    ensures forall c :: 0 <= c < |coeffs| ==> ranking[c] == Choice(c, Score(coeffs[c], intercepts[c], feat))
    ensures best == Select(seq(|coeffs|, c requires 0 <= c < |coeffs| => ranking[c].score))
  {
    ranking := [];
    best := Unset;
    var c := 0;
    ghost var scores: seq<real> := [];
    while c < |coeffs|
      invariant c <= |coeffs| && |ranking| == c && |scores| == c
      invariant forall i :: 0 <= i < c ==> ranking[i] == Choice(i, Score(coeffs[i], intercepts[i], feat))
      invariant forall i :: 0 <= i < c ==> scores[i] == ranking[i].score
      invariant best == SelectUpTo(scores, c)
    {
      var proba := Score(coeffs[c], intercepts[c], feat);
      if best.score == Sentinel {
        best := Choice(c, proba);
      }
      if proba > best.score {
        best := Choice(c, proba);
      }
      ranking := ranking + [Choice(c, proba)];
      assert SelectUpTo(scores + [proba], c) == SelectUpTo(scores, c) by {
        PrefixSelect(scores, scores + [proba], c);
      }
      scores := scores + [proba];
      c := c + 1;
    }
    assert scores == seq(|coeffs|, i requires 0 <= i < |coeffs| => ranking[i].score);
  }

  // ---------------------------------------------------------------------------
  // Properties

  /** The selection over the first k scores reads nothing beyond them. */
  lemma {:induction false} PrefixSelect(a: seq<real>, b: seq<real>, k: nat)
    requires k <= |a| && k <= |b| && a[..k] == b[..k]
    ensures SelectUpTo(a, k) == SelectUpTo(b, k)
    decreases k
  {
    if k > 0 {
      assert a[k - 1] == a[..k][k - 1] == b[..k][k - 1] == b[k - 1];
      assert a[..k - 1] == a[..k][..k - 1] == b[..k][..k - 1] == b[..k - 1];
      PrefixSelect(a, b, k - 1);
    }
  }

  /** A score reads only as many features as the class has coefficients: features
      beyond them do not change it. */
  lemma {:induction false} DotReadsPrefix(coef: seq<real>, feat: seq<real>, other: seq<real>)
    requires |coef| <= |feat| && |coef| <= |other| && feat[..|coef|] == other[..|coef|]
    ensures Dot(coef, feat) == Dot(coef, other)
    decreases |coef|
  {
    if |coef| > 0 {
      var n := |coef| - 1;
      assert feat[n] == feat[..|coef|][n] == other[..|coef|][n] == other[n];
      assert feat[..n] == feat[..|coef|][..n] == other[..|coef|][..n] == other[..n];
      DotReadsPrefix(coef[..n], feat, other);
    }
  }

  /** With no classes the result stays at (-1, -5000). */
  lemma NoClasses()
    ensures Select([]) == Unset
  {
  }

  /** The first class always replaces the sentinel, whatever its score. */
  lemma FirstClassSeeds(scores: seq<real>)
    requires |scores| >= 1
    ensures SelectUpTo(scores, 1) == Choice(0, scores[0])
  {
  }

  /** When no score is exactly -5000, the loop selects the first class with the
      largest score: ties go to the lowest index because the comparison is strict. */
  lemma {:induction false} SelectIsFirstMax(scores: seq<real>, k: nat)
    requires 1 <= k <= |scores|
    requires forall j :: 0 <= j < |scores| ==> scores[j] != Sentinel
    ensures IsFirstMax(scores[..k], SelectUpTo(scores, k).index)
    decreases k
  {
    if k > 1 {
      SelectIsFirstMax(scores, k - 1);
      var prev := SelectUpTo(scores, k - 1);
      assert prev.score == scores[prev.index] != Sentinel;
      assert forall j :: 0 <= j < k - 1 ==> scores[..k][j] == scores[..k - 1][j];
    }
  }

  /** Hence, on the whole ranking, the selected class is the first maximum; the
      converse direction holds too, as the first maximum is unique. */
  lemma SelectChoosesFirstMax(scores: seq<real>, i: int)
    requires |scores| >= 1
    requires forall j :: 0 <= j < |scores| ==> scores[j] != Sentinel
    ensures Select(scores).index == i <==> IsFirstMax(scores, i)
  {
    SelectIsFirstMax(scores, |scores|);
    assert scores[..|scores|] == scores;
  }

  /** A running maximum of exactly -5000 counts as unset: a class scoring -5000 is
      overwritten by the next class even when that one scores lower. */
  lemma SentinelOverwritten()
    ensures Select([Sentinel, -6000.0]) == Choice(1, -6000.0)
    ensures !IsFirstMax([Sentinel, -6000.0], 1)
  {
    var s := [Sentinel, -6000.0];
    assert SelectUpTo(s, 1) == Choice(0, Sentinel);
  }
}
