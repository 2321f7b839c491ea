/** The score drift detector (src/analysis/drift_detector.py): a bounded FIFO
    window of past scores and a z-score test of each new score against the
    window as it was before the score arrived.

    The detector's state is passed explicitly: `UpdateAndCheck` returns the
    next detector with the verdict. Reals stand for Python floats, and the
    square root `np.std` takes is a parameter. */
module DriftDetector {

  /** `window_size` and `threshold_std` defaults. */
  const DefaultWindowSize: int := 10
  const DefaultThresholdStd: real := 2.0

  /** Samples needed before the z-score is computed. */
  const MinSamples: nat := 5

  /** Added to the standard deviation so the division is defined. */
  const Epsilon: real := 0.000000001

  datatype Detector = Detector(history: seq<real>, windowSize: int, thresholdStd: real)

  /** `DriftDetector(window_size, threshold_std)`: an empty window. */
  function NewDetector(windowSize: int, thresholdStd: real): (d: Detector)
    ensures d.history == [] && d.windowSize == windowSize && d.thresholdStd == thresholdStd
  {
    Detector([], windowSize, thresholdStd)
  }

  /** The window never holds more than `window_size` scores (none when that
      is not positive). */
  predicate Bounded(d: Detector) {
    |d.history| <= if d.windowSize < 0 then 0 else d.windowSize
  }

  function Sum(xs: seq<real>): real {
    if |xs| == 0 then 0.0 else xs[0] + Sum(xs[1..])
  }

  /** `np.mean`. */
  function Mean(xs: seq<real>): real
    requires |xs| > 0
  {
    Sum(xs) / (|xs| as real)
  }

  lemma SquareNonNegative(x: real)
    ensures x * x >= 0.0
  {
    if x < 0.0 {
      assert x * x == (-x) * (-x);
    }
  }

  function SquaredDeviations(xs: seq<real>, m: real): (r: real)
    ensures r >= 0.0
  {
    if |xs| == 0 then 0.0
    else
      SquareNonNegative(xs[0] - m);
      (xs[0] - m) * (xs[0] - m) + SquaredDeviations(xs[1..], m)
  }

  /** The population variance `np.std` takes the root of (`ddof=0`). */
  function Variance(xs: seq<real>): (v: real)
    requires |xs| > 0
    ensures v >= 0.0
  {
    SquaredDeviations(xs, Mean(xs)) / (|xs| as real)
  }

  /** `sqrt` is the non-negative square root on non-negative reals; in
      particular the root of zero is zero. */
  ghost predicate IsSquareRoot(sqrt: real -> real) {
    sqrt(0.0) == 0.0
    && forall x :: x >= 0.0 ==> sqrt(x) >= 0.0 && sqrt(x) * sqrt(x) == x
  }

  /** `np.std(history) + 1e-9`: always positive. */
  function Spread(xs: seq<real>, sqrt: real -> real): (s: real)
    requires |xs| > 0 && IsSquareRoot(sqrt)
    ensures s >= Epsilon
    ensures (s - Epsilon) * (s - Epsilon) == Variance(xs)
  {
    sqrt(Variance(xs)) + Epsilon
  }

  /** What one call returns, with the detector it leaves behind. */
  datatype Step = Step(next: Detector, isAnomaly: bool, driftScore: real)

  /** `update_and_check(new_score)`. */
  function UpdateAndCheck(d: Detector, score: real, sqrt: real -> real): (r: Step)
    requires IsSquareRoot(sqrt)
    ensures |d.history| < MinSamples ==> !r.isAnomaly && r.driftScore == 0.0
    ensures |d.history| >= MinSamples
            ==> r.driftScore * Spread(d.history, sqrt) == score - Mean(d.history)
    ensures r.isAnomaly <==> |d.history| >= MinSamples && Abs(r.driftScore) > d.thresholdStd
    ensures r.next.windowSize == d.windowSize && r.next.thresholdStd == d.thresholdStd
    ensures r.next.history == Slide(d.history, score, d.windowSize)
  {
    var drift := if |d.history| >= MinSamples
                 then (score - Mean(d.history)) / Spread(d.history, sqrt)
                 else 0.0;
    var anomaly := |d.history| >= MinSamples && Abs(drift) > d.thresholdStd;
    Step(d.(history := Slide(d.history, score, d.windowSize)), anomaly, drift)
  }

  /** The window after a score arrives: always appended, and the oldest score
      dropped only when the window is then longer than `window_size`. */
  function Slide(history: seq<real>, score: real, windowSize: int): seq<real>
  {
    var full := history + [score];
    if |full| > windowSize then full[1..] else full
  }

  /** FIFO for one arrival: the oldest score is dropped exactly when the
      window would otherwise exceed its size, and for a positive size the new
      score is last. */
  lemma SlideIsFifo(history: seq<real>, score: real, windowSize: int)
    ensures var r := Slide(history, score, windowSize);
            var full := history + [score];
            (windowSize > 0 ==> |r| > 0 && r[|r| - 1] == score)
            && (|full| <= windowSize ==> r == full)
            && (|full| > windowSize ==> r == full[1..])
  {
  }

  /** The window after a stream of scores, oldest first. */
  function Window(history: seq<real>, scores: seq<real>, windowSize: int): seq<real>
    decreases |scores|
  {
    if |scores| == 0 then history
    else Window(Slide(history, scores[0], windowSize), scores[1..], windowSize)
  }

  function Abs(x: real): (r: real)
    ensures r >= 0.0 && (r == x || r == -x)
  {
    if x < 0.0 then -x else x
  }

  /** The detector after a stream of scores, one call per score. */
  function Feed(d: Detector, scores: seq<real>, sqrt: real -> real): (r: Detector)
    requires IsSquareRoot(sqrt)
    ensures r.windowSize == d.windowSize && r.thresholdStd == d.thresholdStd
    ensures r.history == Window(d.history, scores, d.windowSize)
    decreases |scores|
  {
    if |scores| == 0 then d
    else Feed(UpdateAndCheck(d, scores[0], sqrt).next, scores[1..], sqrt)
  }

  /** One arrival keeps the window within `window_size`. */
  lemma SlideKeepsBounded(history: seq<real>, score: real, windowSize: int)
    requires |history| <= if windowSize < 0 then 0 else windowSize
    ensures |Slide(history, score, windowSize)| <= if windowSize < 0 then 0 else windowSize
  {
  }

  /** Starting from an empty window, the window stays within `window_size`
      after every call. */
  lemma {:induction false} FeedKeepsBounded(d: Detector, scores: seq<real>, sqrt: real -> real)
    requires IsSquareRoot(sqrt) && Bounded(d)
    ensures Bounded(Feed(d, scores, sqrt))
  {
    WindowKeepsBounded(d.history, scores, d.windowSize);
  }

  lemma {:induction false} WindowKeepsBounded(history: seq<real>, scores: seq<real>, windowSize: int)
    requires |history| <= if windowSize < 0 then 0 else windowSize
    ensures |Window(history, scores, windowSize)| <= if windowSize < 0 then 0 else windowSize
    decreases |scores|
  {
    if |scores| > 0 {
      SlideKeepsBounded(history, scores[0], windowSize);
      WindowKeepsBounded(Slide(history, scores[0], windowSize), scores[1..], windowSize);
    }
  }

  /** FIFO: for a bounded window of positive size, after any stream of scores
      the window holds the most recent `window_size` of the old window
      followed by the stream, oldest first; from an empty window, the last
      `window_size` scores of the stream. */
  lemma {:induction false} WindowIsRecentScores(history: seq<real>, scores: seq<real>, windowSize: int)
    requires 0 < windowSize && |history| <= windowSize
    ensures var all := history + scores;
            Window(history, scores, windowSize) == all[|all| - Keep(|all|, windowSize)..]
    decreases |scores|
  {
    if |scores| == 0 {
      EmptyStream(history, windowSize);
    } else {
      var h' := Slide(history, scores[0], windowSize);
      SlideKeepsBounded(history, scores[0], windowSize);
      WindowIsRecentScores(h', scores[1..], windowSize);
      WindowStep(history, scores, windowSize);
    }
  }

  lemma EmptyStream(history: seq<real>, windowSize: int)
    requires 0 < windowSize && |history| <= windowSize
    ensures var all := history + [];
            Window(history, [], windowSize) == all[|all| - Keep(|all|, windowSize)..]
  {
    assert history + [] == history;
  }

  /** The induction step of `WindowIsRecentScores`: the claim for the window
      after the first score gives the claim for the whole stream. */
  lemma WindowStep(history: seq<real>, scores: seq<real>, windowSize: int)
    requires 0 < windowSize && |history| <= windowSize && |scores| > 0
    requires var h' := Slide(history, scores[0], windowSize);
             var tail := h' + scores[1..];
             Window(h', scores[1..], windowSize) == tail[|tail| - Keep(|tail|, windowSize)..]
    ensures var all := history + scores;
            Window(history, scores, windowSize) == all[|all| - Keep(|all|, windowSize)..]
  {
    SlideSuffix(history, scores, windowSize);
    assert Window(history, scores, windowSize)
           == Window(Slide(history, scores[0], windowSize), scores[1..], windowSize);
  }

  /** After one arrival, the most recent scores of the window followed by the
      rest of the stream are the most recent scores of the whole stream. */
  lemma SlideSuffix(history: seq<real>, scores: seq<real>, windowSize: int)
    requires 0 < windowSize && |history| <= windowSize && |scores| > 0
    ensures var all := history + scores;
            var tail := Slide(history, scores[0], windowSize) + scores[1..];
            tail[|tail| - Keep(|tail|, windowSize)..] == all[|all| - Keep(|all|, windowSize)..]
  {
    var all := history + scores;
    var tail := Slide(history, scores[0], windowSize) + scores[1..];
    assert all == history + [scores[0]] + scores[1..] by {
      assert scores == [scores[0]] + scores[1..];
    }
    SlideStep(history, scores[0], scores[1..], windowSize);
    SuffixOfSuffix(all, tail, Keep(|all|, windowSize));
  }

  /** How many of `n` scores a window of `windowSize` keeps. */
  function Keep(n: nat, windowSize: int): (k: nat)
    requires 0 < windowSize
    ensures k <= n
  {
    if n < windowSize then n else windowSize
  }

  /** One arrival: what the window holds followed by the rest of the stream
      is a suffix of the whole stream, and keeps as many scores of it. */
  lemma SlideStep(history: seq<real>, x: real, rest: seq<real>, windowSize: int)
    requires 0 < windowSize && |history| <= windowSize
    ensures var all := history + [x] + rest;
            var tail := Slide(history, x, windowSize) + rest;
            |tail| <= |all| && tail == all[|all| - |tail|..]
            && Keep(|tail|, windowSize) == Keep(|all|, windowSize)
  {
    var first := history + [x];
    var h' := Slide(history, x, windowSize);
    if |first| > windowSize {
      assert h' == first[1..];
      assert h' + rest == (first + rest)[1..];
    }
  }

  /** The last `k` elements of a suffix of `a` are the last `k` of `a`. */
  lemma SuffixOfSuffix(a: seq<real>, t: seq<real>, k: nat)
    requires |t| <= |a| && t == a[|a| - |t|..] && k <= |t|
    ensures t[|t| - k..] == a[|a| - k..]
  {
  }

  /** When the new score equals the window's mean, its z-score is zero and
      it is never an anomaly. */
  lemma ScoreAtMeanIsNormal(d: Detector, sqrt: real -> real)
    requires IsSquareRoot(sqrt) && |d.history| >= MinSamples && d.thresholdStd >= 0.0
    ensures var r := UpdateAndCheck(d, Mean(d.history), sqrt);
            r.driftScore == 0.0 && !r.isAnomaly
  {
  }

  /** With a constant window the spread is just `1e-9`, so any deviation
      beyond `threshold_std * 1e-9` is reported. */
  lemma ConstantWindow(d: Detector, c: real, score: real, sqrt: real -> real)
    requires IsSquareRoot(sqrt) && |d.history| >= MinSamples
    requires forall i :: 0 <= i < |d.history| ==> d.history[i] == c
    ensures UpdateAndCheck(d, score, sqrt).isAnomaly
            <==> Abs(score - c) > d.thresholdStd * Epsilon
  {
    var h := d.history;
    ConstantMean(h, c);
    ConstantDeviations(h, c);
    var s := Spread(h, sqrt);
    var r := UpdateAndCheck(d, score, sqrt);
    assert r.driftScore * Epsilon == score - c;
    assert Abs(r.driftScore) * Epsilon == Abs(score - c);
  }

  lemma {:induction false} ConstantSum(xs: seq<real>, c: real)
    requires forall i :: 0 <= i < |xs| ==> xs[i] == c
    ensures Sum(xs) == (|xs| as real) * c
  {
    if |xs| > 0 {
      ConstantSum(xs[1..], c);
    }
  }

  lemma ConstantMean(xs: seq<real>, c: real)
    requires |xs| > 0 && forall i :: 0 <= i < |xs| ==> xs[i] == c
    ensures Mean(xs) == c
  {
    ConstantSum(xs, c);
  }

  lemma {:induction false} ConstantDeviations(xs: seq<real>, c: real)
    requires forall i :: 0 <= i < |xs| ==> xs[i] == c
    ensures SquaredDeviations(xs, c) == 0.0
  {
    if |xs| > 0 {
      ConstantDeviations(xs[1..], c);
    }
  }

  /** Five scores of 0.1 and then 0.9, with the default threshold: the window
      has no spread, the drift is 0.8 / 1e-9, far above 2.0. */
  lemma SpikeAfterFlatWindowIsAnomaly(sqrt: real -> real)
    requires IsSquareRoot(sqrt)
    ensures UpdateAndCheck(Detector([0.1, 0.1, 0.1, 0.1, 0.1], DefaultWindowSize, DefaultThresholdStd),
                           0.9, sqrt).isAnomaly
  {
    var d := Detector([0.1, 0.1, 0.1, 0.1, 0.1], DefaultWindowSize, DefaultThresholdStd);
    ConstantWindow(d, 0.1, 0.9, sqrt);
  }
}
