/**
 * FunscriptHeatmap::Update: it allocates a speed buffer and a sample-count
 * buffer of one entry per bucket, adds every stroke into them in place, then
 * turns each bucket into a normalised mean in place. The buffer it hands to the
 * texture upload is returned here, and proved equal to SpeedHeatmap.Heatmap.
 */
module FunscriptHeatmap {
  import opened SpeedHeatmap

  /**
   * One stroke added into the buffers: one more sample and the stroke's speed
   * in every bucket its attribution rule covers, and nothing anywhere else.
   */
  method AddStroke(speedBuffer: array<real>, sampleCountBuffer: array<nat>, prevSampleIdx: nat, nextSampleIdx: nat, speed: real)
    requires speedBuffer.Length == sampleCountBuffer.Length
    modifies speedBuffer, sampleCountBuffer
    ensures forall k :: 0 <= k < speedBuffer.Length ==>
      sampleCountBuffer[k] == old(sampleCountBuffer[k]) + (if Covers(prevSampleIdx, nextSampleIdx, speedBuffer.Length, k) then 1 else 0)
    ensures forall k :: 0 <= k < speedBuffer.Length ==>
      speedBuffer[k] == old(speedBuffer[k]) + (if Covers(prevSampleIdx, nextSampleIdx, speedBuffer.Length, k) then speed else 0.0)
  {
    var resolution := speedBuffer.Length;
    if prevSampleIdx == nextSampleIdx {
      if prevSampleIdx < resolution {
        sampleCountBuffer[prevSampleIdx] := sampleCountBuffer[prevSampleIdx] + 1;
        speedBuffer[prevSampleIdx] := speedBuffer[prevSampleIdx] + speed;
      }
    } else {
      if prevSampleIdx < resolution && nextSampleIdx < resolution {
        var x := prevSampleIdx;
        while x < nextSampleIdx
          invariant prevSampleIdx <= x && (x <= nextSampleIdx || x == prevSampleIdx)
          invariant forall k :: 0 <= k < resolution ==>
            sampleCountBuffer[k] == old(sampleCountBuffer[k]) + (if prevSampleIdx <= k < x then 1 else 0)
          invariant forall k :: 0 <= k < resolution ==>
            speedBuffer[k] == old(speedBuffer[k]) + (if prevSampleIdx <= k < x then speed else 0.0)
        {
          sampleCountBuffer[x] := sampleCountBuffer[x] + 1;
          speedBuffer[x] := speedBuffer[x] + speed;
          x := x + 1;
        }
      }
    }
  }

  /**
   * The stroke loop: every pair of consecutive actions (i, j) added into
   * buffers that start out all zero. Afterwards each bucket holds the number
   * of strokes covering it and the sum of their speeds. The caller promises
   * that no bucket is covered by more strokes than a 16-bit counter holds.
   */
  method AccumulateStrokes(actions: seq<Action>, timeStep: real, speedBuffer: array<real>, sampleCountBuffer: array<nat>)
    requires ValidActions(actions) && timeStep > 0.0
    requires speedBuffer.Length == sampleCountBuffer.Length
    requires forall k :: 0 <= k < speedBuffer.Length ==> Count(actions, timeStep, speedBuffer.Length, k) <= MaxSampleCount
    requires forall k :: 0 <= k < speedBuffer.Length ==> speedBuffer[k] == 0.0 && sampleCountBuffer[k] == 0
    modifies speedBuffer, sampleCountBuffer
    ensures forall k :: 0 <= k < speedBuffer.Length ==>
      sampleCountBuffer[k] == Count(actions, timeStep, speedBuffer.Length, k) && sampleCountBuffer[k] <= MaxSampleCount
    ensures forall k :: 0 <= k < speedBuffer.Length ==> speedBuffer[k] == Sum(actions, timeStep, speedBuffer.Length, k)
  {
    if |actions| == 0 {
      return;
    }
    var resolution := speedBuffer.Length;
    var i, j := 0, 1;
    while j < |actions|
      invariant 1 <= j <= |actions| && i == j - 1
      invariant forall k :: 0 <= k < resolution ==> sampleCountBuffer[k] == Count(actions[..j], timeStep, resolution, k)
      invariant forall k :: 0 <= k < resolution ==> speedBuffer[k] == Sum(actions[..j], timeStep, resolution, k)
      invariant forall k :: 0 <= k < resolution ==> sampleCountBuffer[k] <= MaxSampleCount
    {
      var prev, next := actions[i], actions[j];
      var strokeDuration := next.atS - prev.atS;
      var speed := Abs(prev.pos - next.pos) as real / strokeDuration;
      var prevSampleIdx := SampleIndex(prev.atS, timeStep);
      var nextSampleIdx := SampleIndex(next.atS, timeStep);
      AddStroke(speedBuffer, sampleCountBuffer, prevSampleIdx, nextSampleIdx, speed);

      forall k | 0 <= k < resolution
        ensures sampleCountBuffer[k] == Count(actions[..j + 1], timeStep, resolution, k)
        ensures speedBuffer[k] == Sum(actions[..j + 1], timeStep, resolution, k)
        ensures sampleCountBuffer[k] <= MaxSampleCount
      {
        PrefixStep(actions, timeStep, resolution, j, k);
        CountPrefixAtMost(actions, timeStep, resolution, k, j + 1);
      }
      i, j := j, j + 1;
    }
    assert actions[..j] == actions;
  }

  /**
   * The normalisation loop: each bucket's sum becomes its mean over at least
   * one sample, relative to the maximum speed, clamped to [0, 1].
   */
  method NormalizeBuckets(speedBuffer: array<real>, sampleCountBuffer: array<nat>, maxSpeedPerSecond: real)
    requires speedBuffer.Length == sampleCountBuffer.Length && maxSpeedPerSecond > 0.0
    modifies speedBuffer
    ensures forall k :: 0 <= k < speedBuffer.Length ==>
      speedBuffer[k] == Normalized(old(speedBuffer[k]), sampleCountBuffer[k], maxSpeedPerSecond)
  {
    for i := 0 to speedBuffer.Length
      invariant forall k :: 0 <= k < i ==>
        speedBuffer[k] == Normalized(old(speedBuffer[k]), sampleCountBuffer[k], maxSpeedPerSecond)
      invariant forall k :: i <= k < speedBuffer.Length ==> speedBuffer[k] == old(speedBuffer[k])
    {
      speedBuffer[i] := speedBuffer[i] / (if sampleCountBuffer[i] > 0 then sampleCountBuffer[i] as real else 1.0);
      speedBuffer[i] := speedBuffer[i] / maxSpeedPerSecond;
      speedBuffer[i] := Clamp(speedBuffer[i], 0.0, 1.0);
    }
  }

  /**
   * The speed texture of a script: one normalised average speed per bucket, in
   * [0, 1], computed in two zero-filled buffers of SpeedTextureResolution entries.
   */
  method Update(totalDuration: real, actions: seq<Action>, maxSpeedPerSecond: real) returns (speeds: seq<real>)
    requires totalDuration > 0.0 && maxSpeedPerSecond > 0.0
    requires ValidActions(actions)
    requires forall k :: 0 <= k < SpeedTextureResolution ==>
      Count(actions, TimeStep(totalDuration, SpeedTextureResolution), SpeedTextureResolution, k) <= MaxSampleCount
    ensures |speeds| == SpeedTextureResolution
    ensures speeds == Heatmap(actions, totalDuration, maxSpeedPerSecond, SpeedTextureResolution)
  {
    var speedBuffer := new real[SpeedTextureResolution](_ => 0.0);
    var sampleCountBuffer := new nat[SpeedTextureResolution](_ => 0);
    var timeStep := totalDuration / SpeedTextureResolution as real;
    assert timeStep == TimeStep(totalDuration, SpeedTextureResolution);
    assert speedBuffer.Length == SpeedTextureResolution;
    AccumulateStrokes(actions, timeStep, speedBuffer, sampleCountBuffer);
    NormalizeBuckets(speedBuffer, sampleCountBuffer, maxSpeedPerSecond);
    speeds := speedBuffer[..];
    assert forall k :: 0 <= k < SpeedTextureResolution ==>
      speeds[k] == Heatmap(actions, totalDuration, maxSpeedPerSecond, SpeedTextureResolution)[k];
  }
}
