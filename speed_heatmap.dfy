/**
 * The speed heatmap of a motion script, as values: what FunscriptHeatmap::Update
 * computes, stated bucket by bucket. The imperative method that fills the two
 * buffers in place lives in module FunscriptHeatmap and is proved against the
 * functions here.
 */
module SpeedHeatmap {

  /** Number of buckets of the speed texture. */
  const SpeedTextureResolution: nat := 2048

  /** Largest value a 16-bit unsigned sample counter holds. */
  const MaxSampleCount: nat := 0xFFFF

  /** One point of a motion script: a time in seconds and a position. */
  datatype Action = Action(atS: real, pos: int)

  function Abs(x: int): (r: nat)
    ensures r == x || r == -x
  {
    if x < 0 then -x else x
  }

  /**
   * What the resampler assumes of its input without checking it: timestamps are
   * non-negative and strictly increasing, so every stroke has a positive duration.
   */
  predicate ValidActions(actions: seq<Action>)
  {
    (forall i :: 0 <= i < |actions| ==> actions[i].atS >= 0.0) &&
    (forall i, j :: 0 <= i < j < |actions| ==> actions[i].atS < actions[j].atS)
  }

  /** Width in seconds of one bucket. */
  function TimeStep(totalDuration: real, resolution: nat): (timeStep: real)
    requires totalDuration > 0.0 && resolution > 0
    ensures timeStep > 0.0
    ensures timeStep * resolution as real == totalDuration
  {
    totalDuration / resolution as real
  }

  /**
   * The bucket a timestamp falls in: the float-to-unsigned conversion of
   * atS / timeStep, which truncates, and for a non-negative quotient that is
   * the floor. Bucket idx is the time interval [idx * timeStep, (idx + 1) * timeStep).
   */
  function SampleIndex(atS: real, timeStep: real): (idx: nat)
    requires atS >= 0.0 && timeStep > 0.0
    ensures idx as real <= atS / timeStep < idx as real + 1.0
  {
    (atS / timeStep).Floor
  }

  lemma DivMonotone(a: real, b: real, c: real)
    requires a <= b && c > 0.0
    ensures a / c <= b / c
  {
  }

  /** Average speed of the stroke from prev to next: distance over duration. */
  function StrokeSpeed(prev: Action, next: Action): (speed: real)
    requires prev.atS < next.atS
    ensures speed >= 0.0
    ensures speed * (next.atS - prev.atS) == Abs(prev.pos - next.pos) as real
  {
    Abs(prev.pos - next.pos) as real / (next.atS - prev.atS)
  }

  /** Speed of the stroke ending at action j. */
  function StrokeSpeedAt(actions: seq<Action>, j: nat): (speed: real)
    requires ValidActions(actions) && 0 < j < |actions|
    ensures speed >= 0.0
  {
    StrokeSpeed(actions[j - 1], actions[j])
  }

  /**
   * The attribution rule: does a stroke whose endpoints fall in buckets prevIdx
   * and nextIdx contribute to bucket k? A stroke inside one bucket counts there
   * when that bucket exists; a stroke across buckets counts in every bucket of
   * the half-open range [prevIdx, nextIdx), and in none at all unless both of
   * its endpoint buckets exist.
   */
  predicate Covers(prevIdx: nat, nextIdx: nat, resolution: nat, k: nat)
    ensures Covers(prevIdx, nextIdx, resolution, k) ==> prevIdx <= k <= nextIdx && k < resolution
    ensures Covers(prevIdx, nextIdx, resolution, k) ==> prevIdx < resolution && nextIdx < resolution
  {
    if prevIdx == nextIdx then prevIdx < resolution && k == prevIdx
    else prevIdx < resolution && nextIdx < resolution && prevIdx <= k < nextIdx
  }

  /** Does the stroke ending at action j contribute to bucket k? */
  predicate StrokeCovers(actions: seq<Action>, timeStep: real, resolution: nat, j: nat, k: nat)
    requires ValidActions(actions) && timeStep > 0.0 && 0 < j < |actions|
  {
    Covers(SampleIndex(actions[j - 1].atS, timeStep), SampleIndex(actions[j].atS, timeStep), resolution, k)
  }

  /** Whether a stroke covers a bucket does not depend on the actions after it. */
  lemma StrokeCoversPrefix(actions: seq<Action>, timeStep: real, resolution: nat, j: nat, k: nat, n: nat)
    requires ValidActions(actions) && timeStep > 0.0 && 0 < j < n <= |actions|
    ensures ValidActions(actions[..n])
    ensures StrokeCovers(actions[..n], timeStep, resolution, j, k) == StrokeCovers(actions, timeStep, resolution, j, k)
  {
    assert actions[..n][j - 1] == actions[j - 1];
  }

  /** Number of strokes of the script that contribute to bucket k. */
  function Count(actions: seq<Action>, timeStep: real, resolution: nat, k: nat): (c: nat)
    requires ValidActions(actions) && timeStep > 0.0
    ensures k >= resolution ==> c == 0
    decreases |actions|
  {
    if |actions| < 2 then 0
    else
      var n := |actions| - 1;
      Count(actions[..n], timeStep, resolution, k)
        + (if StrokeCovers(actions, timeStep, resolution, n, k) then 1 else 0)
  }

  /** Sum of the speeds of the strokes that contribute to bucket k. */
  function Sum(actions: seq<Action>, timeStep: real, resolution: nat, k: nat): (s: real)
    requires ValidActions(actions) && timeStep > 0.0
    ensures s >= 0.0
    decreases |actions|
  {
    if |actions| < 2 then 0.0
    else
      var n := |actions| - 1;
      Sum(actions[..n], timeStep, resolution, k)
        + (if StrokeCovers(actions, timeStep, resolution, n, k) then StrokeSpeedAt(actions, n) else 0.0)
  }

  function Clamp(x: real, lo: real, hi: real): (r: real)
    requires lo <= hi
    ensures lo <= r <= hi
    ensures lo <= x <= hi ==> r == x
    ensures x < lo ==> r == lo
    ensures hi < x ==> r == hi
  {
    if x < lo then lo else if hi < x then hi else x
  }

  /**
   * The mean of a bucket's contributions (an empty bucket is divided by one),
   * relative to the speed that maps to full intensity, clamped to [0, 1].
   */
  function Normalized(sum: real, count: nat, maxSpeedPerSecond: real): (v: real)
    requires maxSpeedPerSecond > 0.0
    ensures 0.0 <= v <= 1.0
    ensures count == 0 && sum == 0.0 ==> v == 0.0
  {
    Clamp(sum / (if count > 0 then count as real else 1.0) / maxSpeedPerSecond, 0.0, 1.0)
  }

  /** The final value of bucket k. */
  function BucketValue(actions: seq<Action>, totalDuration: real, maxSpeedPerSecond: real, resolution: nat, k: nat): real
    requires ValidActions(actions) && totalDuration > 0.0 && maxSpeedPerSecond > 0.0 && resolution > 0
  {
    var timeStep := TimeStep(totalDuration, resolution);
    Normalized(Sum(actions, timeStep, resolution, k), Count(actions, timeStep, resolution, k), maxSpeedPerSecond)
  }

  /** The whole heatmap: one normalised average speed per bucket. */
  function Heatmap(actions: seq<Action>, totalDuration: real, maxSpeedPerSecond: real, resolution: nat): (h: seq<real>)
    requires ValidActions(actions) && totalDuration > 0.0 && maxSpeedPerSecond > 0.0 && resolution > 0
    ensures |h| == resolution
    ensures forall k :: 0 <= k < resolution ==> 0.0 <= h[k] <= 1.0
  {
    seq(resolution, k requires 0 <= k < resolution => BucketValue(actions, totalDuration, maxSpeedPerSecond, resolution, k))
  }

  // ---------------------------------------------------------------------------
  // Properties of bucket indices

  /** A later timestamp never falls in an earlier bucket, so prevIdx <= nextIdx. */
  lemma SampleIndexMonotone(a: real, b: real, timeStep: real)
    requires 0.0 <= a <= b && timeStep > 0.0
    ensures SampleIndex(a, timeStep) <= SampleIndex(b, timeStep)
  {
    DivMonotone(a, b, timeStep);
  }

  /** A timestamp at or after the end of the script falls in no bucket of the array. */
  lemma SampleIndexPastEnd(atS: real, totalDuration: real, resolution: nat)
    requires totalDuration > 0.0 && resolution > 0 && atS >= totalDuration
    ensures SampleIndex(atS, TimeStep(totalDuration, resolution)) >= resolution
  {
    var timeStep := TimeStep(totalDuration, resolution);
    DivMonotone(totalDuration, atS, timeStep);
    assert totalDuration / timeStep == resolution as real;
  }

  // ---------------------------------------------------------------------------
  // Properties of the accumulated counts and sums

  /** The strokes, named by the index of their second action, that contribute to bucket k. */
  function CoveringStrokes(actions: seq<Action>, timeStep: real, resolution: nat, k: nat): set<nat>
    requires ValidActions(actions) && timeStep > 0.0
  {
    set j: nat | 0 < j < |actions| && StrokeCovers(actions, timeStep, resolution, j, k)
  }

  /** The covering strokes of a script are those of the script without its last action, plus possibly the last stroke. */
  lemma CoveringStrokesSplit(actions: seq<Action>, timeStep: real, resolution: nat, k: nat)
    requires ValidActions(actions) && timeStep > 0.0 && |actions| >= 2
    ensures ValidActions(actions[..|actions| - 1])
    ensures CoveringStrokes(actions, timeStep, resolution, k)
         == CoveringStrokes(actions[..|actions| - 1], timeStep, resolution, k)
            + (if StrokeCovers(actions, timeStep, resolution, |actions| - 1, k) then {|actions| - 1} else {})
  {
    var n := |actions| - 1;
    var front := actions[..n];
    forall j: nat | 0 < j < n
      ensures StrokeCovers(front, timeStep, resolution, j, k) == StrokeCovers(actions, timeStep, resolution, j, k)
    {
      StrokeCoversPrefix(actions, timeStep, resolution, j, k, n);
    }
  }

  /** The count of bucket k is the number of strokes whose attribution rule covers k. */
  lemma {:induction false} CountIsNumberOfCoveringStrokes(actions: seq<Action>, timeStep: real, resolution: nat, k: nat)
    requires ValidActions(actions) && timeStep > 0.0
    ensures Count(actions, timeStep, resolution, k) == |CoveringStrokes(actions, timeStep, resolution, k)|
  {
    if |actions| < 2 {
      assert CoveringStrokes(actions, timeStep, resolution, k) == {};
    } else {
      var n := |actions| - 1;
      CoveringStrokesSplit(actions, timeStep, resolution, k);
      CountIsNumberOfCoveringStrokes(actions[..n], timeStep, resolution, k);
      assert n !in CoveringStrokes(actions[..n], timeStep, resolution, k);
    }
  }

  /** A bucket's speed sum is zero unless some stroke was counted there. */
  lemma {:induction false} SumOnlyWhereCounted(actions: seq<Action>, timeStep: real, resolution: nat, k: nat)
    requires ValidActions(actions) && timeStep > 0.0
    ensures Count(actions, timeStep, resolution, k) == 0 ==> Sum(actions, timeStep, resolution, k) == 0.0
  {
    if |actions| >= 2 {
      SumOnlyWhereCounted(actions[..|actions| - 1], timeStep, resolution, k);
    }
  }

  /** No bucket is counted more often than there are strokes. */
  lemma {:induction false} CountAtMostStrokes(actions: seq<Action>, timeStep: real, resolution: nat, k: nat)
    requires ValidActions(actions) && timeStep > 0.0 && |actions| > 0
    ensures Count(actions, timeStep, resolution, k) <= |actions| - 1
  {
    if |actions| >= 2 {
      CountAtMostStrokes(actions[..|actions| - 1], timeStep, resolution, k);
    }
  }

  /** With at most 65536 actions, no 16-bit sample counter can wrap around. */
  lemma CountFitsSampleCounter(actions: seq<Action>, timeStep: real, resolution: nat, k: nat)
    requires ValidActions(actions) && timeStep > 0.0 && |actions| <= MaxSampleCount + 1
    ensures Count(actions, timeStep, resolution, k) <= MaxSampleCount
  {
    if |actions| > 0 {
      CountAtMostStrokes(actions, timeStep, resolution, k);
    }
  }

  /** Extending a prefix of the script by one action adds exactly the stroke that ends there. */
  lemma PrefixStep(actions: seq<Action>, timeStep: real, resolution: nat, j: nat, k: nat)
    requires ValidActions(actions) && timeStep > 0.0 && 0 < j < |actions|
    ensures ValidActions(actions[..j]) && ValidActions(actions[..j + 1])
    ensures var covered := Covers(SampleIndex(actions[j - 1].atS, timeStep), SampleIndex(actions[j].atS, timeStep), resolution, k);
            Count(actions[..j + 1], timeStep, resolution, k) == Count(actions[..j], timeStep, resolution, k) + (if covered then 1 else 0) &&
            Sum(actions[..j + 1], timeStep, resolution, k)
              == Sum(actions[..j], timeStep, resolution, k) + (if covered then StrokeSpeed(actions[j - 1], actions[j]) else 0.0)
  {
    var done := actions[..j + 1];
    assert done[..j] == actions[..j];
    assert done[j - 1] == actions[j - 1] && done[j] == actions[j];
  }

  /** A bucket's count only grows as the script goes on: a prefix never counts more. */
  lemma {:induction false} CountPrefixAtMost(actions: seq<Action>, timeStep: real, resolution: nat, k: nat, n: nat)
    requires ValidActions(actions) && timeStep > 0.0 && n <= |actions|
    ensures ValidActions(actions[..n])
    ensures Count(actions[..n], timeStep, resolution, k) <= Count(actions, timeStep, resolution, k)
  {
    if n == |actions| {
      assert actions[..n] == actions;
    } else if |actions| >= 2 {
      var front := actions[..|actions| - 1];
      CountPrefixAtMost(front, timeStep, resolution, k, n);
      assert front[..n] == actions[..n];
    }
  }

  /** count copies of bound added up: count * bound, built without a multiplication. */
  function Multiple(count: nat, bound: real): real
  {
    if count == 0 then 0.0 else Multiple(count - 1, bound) + bound
  }

  lemma {:induction false} MultipleIsProduct(count: nat, bound: real)
    ensures Multiple(count, bound) == count as real * bound
  {
    if count > 0 {
      MultipleIsProduct(count - 1, bound);
      assert count as real * bound == (count - 1) as real * bound + bound;
    }
  }

  /** A bound on the speeds of the strokes covering bucket k carries over to a prefix of the script. */
  lemma SpeedBoundOnPrefix(actions: seq<Action>, timeStep: real, resolution: nat, k: nat, n: nat, bound: real)
    requires ValidActions(actions) && timeStep > 0.0 && n <= |actions|
    requires forall j :: 0 < j < |actions| && StrokeCovers(actions, timeStep, resolution, j, k) ==> StrokeSpeedAt(actions, j) <= bound
    ensures ValidActions(actions[..n])
    ensures forall j :: 0 < j < n && StrokeCovers(actions[..n], timeStep, resolution, j, k) ==> StrokeSpeedAt(actions[..n], j) <= bound
  {
    forall j | 0 < j < n
      ensures StrokeSpeedAt(actions[..n], j) == StrokeSpeedAt(actions, j)
      ensures StrokeCovers(actions[..n], timeStep, resolution, j, k) == StrokeCovers(actions, timeStep, resolution, j, k)
    {
      assert actions[..n][j - 1] == actions[j - 1];
      StrokeCoversPrefix(actions, timeStep, resolution, j, k, n);
    }
  }

  /**
   * If no stroke covering bucket k is faster than bound, the bucket's sum is at most
   * its count times bound (written as count copies of bound added up, see
   * MultipleIsProduct): a bucket's mean never exceeds its own fastest stroke.
   */
  lemma {:induction false} SumBoundedByFastestStroke(actions: seq<Action>, timeStep: real, resolution: nat, k: nat, bound: real)
    requires ValidActions(actions) && timeStep > 0.0
    requires forall j :: 0 < j < |actions| && StrokeCovers(actions, timeStep, resolution, j, k) ==> StrokeSpeedAt(actions, j) <= bound
    ensures Sum(actions, timeStep, resolution, k) <= Multiple(Count(actions, timeStep, resolution, k), bound)
  {
    if |actions| >= 2 {
      var n := |actions| - 1;
      var front := actions[..n];
      var covered := StrokeCovers(actions, timeStep, resolution, n, k);
      assert covered ==> StrokeSpeedAt(actions, n) <= bound;
      SpeedBoundOnPrefix(actions, timeStep, resolution, k, n, bound);
      SumBoundedByFastestStroke(front, timeStep, resolution, k, bound);
    }
  }

  /**
   * If every action from p on maps past the last bucket, the strokes ending at those
   * actions (the one from action p - 1 to action p included) change no count and no sum.
   */
  lemma {:induction false} TailStrokesIgnored(actions: seq<Action>, timeStep: real, resolution: nat, k: nat, p: nat)
    requires ValidActions(actions) && timeStep > 0.0 && p <= |actions|
    requires forall m :: p <= m < |actions| ==> SampleIndex(actions[m].atS, timeStep) >= resolution
    ensures Count(actions, timeStep, resolution, k) == Count(actions[..p], timeStep, resolution, k)
    ensures Sum(actions, timeStep, resolution, k) == Sum(actions[..p], timeStep, resolution, k)
  {
    if p == |actions| {
      assert actions[..p] == actions;
    } else if |actions| >= 2 {
      var n := |actions| - 1;
      var front := actions[..n];
      assert !StrokeCovers(actions, timeStep, resolution, n, k);
      forall m | p <= m < |front|
        ensures SampleIndex(front[m].atS, timeStep) >= resolution
      {
        assert front[m] == actions[m];
      }
      TailStrokesIgnored(front, timeStep, resolution, k, p);
      assert front[..p] == actions[..p];
    }
  }

  // ---------------------------------------------------------------------------
  // Properties of the heatmap

  /** With fewer than two actions there is no stroke, and every bucket is 0. */
  lemma FewerThanTwoActionsGiveZeros(actions: seq<Action>, totalDuration: real, maxSpeedPerSecond: real, resolution: nat)
    requires ValidActions(actions) && totalDuration > 0.0 && maxSpeedPerSecond > 0.0 && resolution > 0
    requires |actions| < 2
    ensures Heatmap(actions, totalDuration, maxSpeedPerSecond, resolution) == seq(resolution, k => 0.0)
  {
    var h := Heatmap(actions, totalDuration, maxSpeedPerSecond, resolution);
    assert forall k :: 0 <= k < resolution ==> h[k] == 0.0;
  }

  /** A mean of non-negative values none above bound, over bound, lies in [0, 1]. */
  lemma NormalizedUnclamped(sum: real, count: nat, maxSpeedPerSecond: real)
    requires maxSpeedPerSecond > 0.0 && 0.0 <= sum <= Multiple(count, maxSpeedPerSecond)
    ensures Normalized(sum, count, maxSpeedPerSecond)
         == sum / (if count > 0 then count as real else 1.0) / maxSpeedPerSecond
  {
    MultipleIsProduct(count, maxSpeedPerSecond);
    MeanWithinBound(sum, if count > 0 then count as real else 1.0, maxSpeedPerSecond);
  }

  /** Dividing a sum of at most d * m (d >= 1) by d and then by m lands in [0, 1]. */
  lemma MeanWithinBound(sum: real, d: real, m: real)
    requires m > 0.0 && d >= 1.0 && 0.0 <= sum <= d * m
    ensures 0.0 <= sum / d / m <= 1.0
  {
    var mean := sum / d;
    assert mean * d == sum;
    assert mean <= m;
  }

  /**
   * When no stroke is faster than the normalisation speed, clamping never takes
   * effect: each bucket is exactly its mean speed over the normalisation speed.
   */
  lemma ClampIdleWithinMaxSpeed(actions: seq<Action>, totalDuration: real, maxSpeedPerSecond: real, resolution: nat, k: nat)
    requires ValidActions(actions) && totalDuration > 0.0 && maxSpeedPerSecond > 0.0 && resolution > 0
    requires k < resolution
    requires forall j :: 0 < j < |actions| && StrokeCovers(actions, TimeStep(totalDuration, resolution), resolution, j, k)
               ==> StrokeSpeedAt(actions, j) <= maxSpeedPerSecond
    ensures var timeStep := TimeStep(totalDuration, resolution);
            var c := Count(actions, timeStep, resolution, k);
            Heatmap(actions, totalDuration, maxSpeedPerSecond, resolution)[k]
              == Sum(actions, timeStep, resolution, k) / (if c > 0 then c as real else 1.0) / maxSpeedPerSecond
  {
    var timeStep := TimeStep(totalDuration, resolution);
    SumOnlyWhereCounted(actions, timeStep, resolution, k);
    SumBoundedByFastestStroke(actions, timeStep, resolution, k, maxSpeedPerSecond);
    NormalizedUnclamped(Sum(actions, timeStep, resolution, k), Count(actions, timeStep, resolution, k), maxSpeedPerSecond);
    assert Heatmap(actions, totalDuration, maxSpeedPerSecond, resolution)[k]
        == BucketValue(actions, totalDuration, maxSpeedPerSecond, resolution, k);
  }

  /** Actions at or after the end of the script are ignored, and so is the stroke that leads into them. */
  lemma TrailingActionsIgnored(actions: seq<Action>, totalDuration: real, maxSpeedPerSecond: real, resolution: nat, p: nat)
    requires ValidActions(actions) && totalDuration > 0.0 && maxSpeedPerSecond > 0.0 && resolution > 0
    requires p <= |actions|
    requires forall m :: p <= m < |actions| ==> actions[m].atS >= totalDuration
    ensures ValidActions(actions[..p])
    ensures Heatmap(actions, totalDuration, maxSpeedPerSecond, resolution)
         == Heatmap(actions[..p], totalDuration, maxSpeedPerSecond, resolution)
  {
    var timeStep := TimeStep(totalDuration, resolution);
    forall m | p <= m < |actions|
      ensures SampleIndex(actions[m].atS, timeStep) >= resolution
    {
      SampleIndexPastEnd(actions[m].atS, totalDuration, resolution);
    }
    forall k: nat | k < resolution
      ensures BucketValue(actions, totalDuration, maxSpeedPerSecond, resolution, k)
           == BucketValue(actions[..p], totalDuration, maxSpeedPerSecond, resolution, k)
    {
      TailStrokesIgnored(actions, timeStep, resolution, k, p);
    }
  }

  /**
   * A single stroke with both ends in one bucket sets that bucket to its clamped
   * normalised speed, and leaves every other bucket at 0. When that bucket lies
   * past the array, the stroke is dropped and every bucket stays 0.
   */
  lemma SingleStrokeWithinOneBucket(prev: Action, next: Action, totalDuration: real, maxSpeedPerSecond: real, resolution: nat, k: nat)
    requires 0.0 <= prev.atS < next.atS && totalDuration > 0.0 && maxSpeedPerSecond > 0.0
    requires k < resolution
    requires var timeStep := TimeStep(totalDuration, resolution);
             SampleIndex(prev.atS, timeStep) == SampleIndex(next.atS, timeStep)
    ensures ValidActions([prev, next])
    ensures var idx := SampleIndex(prev.atS, TimeStep(totalDuration, resolution));
            Heatmap([prev, next], totalDuration, maxSpeedPerSecond, resolution)[k]
              == if k == idx then Clamp(StrokeSpeed(prev, next) / maxSpeedPerSecond, 0.0, 1.0) else 0.0
  {
    var actions := [prev, next];
    var timeStep := TimeStep(totalDuration, resolution);
    var idx := SampleIndex(prev.atS, timeStep);
    assert ValidActions(actions);
    assert actions[..1] == [prev];
    assert Count(actions, timeStep, resolution, k) == if k == idx then 1 else 0;
    assert Sum(actions, timeStep, resolution, k) == if k == idx then StrokeSpeed(prev, next) else 0.0;
  }

  /**
   * A single stroke across buckets sets every bucket of [prevIdx, nextIdx) to its
   * clamped normalised speed when both end buckets exist, and leaves nextIdx and
   * every other bucket at 0; when either end bucket lies past the array, every
   * bucket stays 0.
   */
  lemma SingleStrokeAcrossBuckets(prev: Action, next: Action, totalDuration: real, maxSpeedPerSecond: real, resolution: nat, k: nat)
    requires 0.0 <= prev.atS < next.atS && totalDuration > 0.0 && maxSpeedPerSecond > 0.0
    requires k < resolution
    requires var timeStep := TimeStep(totalDuration, resolution);
             SampleIndex(prev.atS, timeStep) != SampleIndex(next.atS, timeStep)
    ensures ValidActions([prev, next])
    ensures var timeStep := TimeStep(totalDuration, resolution);
            var p, n := SampleIndex(prev.atS, timeStep), SampleIndex(next.atS, timeStep);
            Heatmap([prev, next], totalDuration, maxSpeedPerSecond, resolution)[k]
              == if n < resolution && p <= k < n then Clamp(StrokeSpeed(prev, next) / maxSpeedPerSecond, 0.0, 1.0) else 0.0
  {
    var actions := [prev, next];
    var timeStep := TimeStep(totalDuration, resolution);
    var p, n := SampleIndex(prev.atS, timeStep), SampleIndex(next.atS, timeStep);
    SampleIndexMonotone(prev.atS, next.atS, timeStep);
    assert ValidActions(actions);
    assert actions[..1] == [prev];
    var covered := n < resolution && p <= k < n;
    assert Count(actions, timeStep, resolution, k) == if covered then 1 else 0;
    assert Sum(actions, timeStep, resolution, k) == if covered then StrokeSpeed(prev, next) else 0.0;
  }

  /**
   * Ten seconds, four buckets of 2.5 s, a stroke up and a stroke down at speed
   * 20 with a normalisation speed of 20. The second stroke ends at 10 s, in
   * bucket 4, past the array, so it is dropped as a whole: only the first two
   * buckets light up.
   */
  lemma UpAndDownScenario()
    ensures Heatmap([Action(0.0, 0), Action(5.0, 100), Action(10.0, 0)], 10.0, 20.0, 4) == [1.0, 1.0, 0.0, 0.0]
  {
    var actions := [Action(0.0, 0), Action(5.0, 100), Action(10.0, 0)];
    var first := actions[..2];
    var timeStep := TimeStep(10.0, 4);
    assert timeStep == 2.5;
    assert SampleIndex(0.0, timeStep) == 0;
    assert SampleIndex(5.0, timeStep) == 2;
    assert SampleIndex(10.0, timeStep) == 4;
    assert ValidActions(actions);
    assert first == [Action(0.0, 0), Action(5.0, 100)] && first[..1] == [Action(0.0, 0)];
    assert StrokeSpeedAt(first, 1) == 20.0;
    var h := Heatmap(actions, 10.0, 20.0, 4);
    forall k: nat | k < 4
      ensures h[k] == if k < 2 then 1.0 else 0.0
    {
      assert !StrokeCovers(actions, timeStep, 4, 2, k);
      assert StrokeCovers(first, timeStep, 4, 1, k) == (k < 2);
      assert Count(actions, timeStep, 4, k) == Count(first, timeStep, 4, k);
      assert Sum(actions, timeStep, 4, k) == Sum(first, timeStep, 4, k);
      assert Count(first, timeStep, 4, k) == if k < 2 then 1 else 0;
      assert Sum(first, timeStep, 4, k) == if k < 2 then 20.0 else 0.0;
      assert h[k] == BucketValue(actions, 10.0, 20.0, 4, k);
    }
  }
}
