# Funscript speed heatmap, in Dafny

OFS (OpenFunscripter) draws a "heatmap" strip under the timeline of a motion
script. A script is an ordered list of actions. Each action is a timestamp
in seconds and a position. Two consecutive actions make a stroke, and its
speed is the distance travelled over its duration. `FunscriptHeatmap::Update`
turns the script into a 1-D texture of 2048 buckets. It splits the script's
total duration into equal time slices. It gives every stroke's speed to the
slices the stroke covers. It averages each slice and scales the average by a
maximum speed, clamped to [0, 1]. The fragment shader then looks each value
up in a table of 41 colours with its `RAMP` helper.

The project has three modules:

- `SpeedHeatmap` (`speed_heatmap.dfy`) gives the heatmap as values:
  - the bucket index of a timestamp;
  - the speed of a stroke;
  - the attribution rule (`Covers`);
  - the number of covering strokes and the sum of their speeds per bucket
    (`Count`, `Sum`);
  - the normalised bucket value and the whole heatmap.

  It also holds the lemmas about them.
- `FunscriptHeatmap` (`update.dfy`) is the imperative `Update`. It allocates
  the speed buffer (`array<real>`) and the sample-count buffer (`array<nat>`)
  filled with zeros. It adds the strokes in place in a loop over index pairs
  (`i, j := j, j + 1`), with an inner range-fill loop (`AddStroke`). Then it
  normalises and clamps every bucket in place. It returns the buffer that the
  source hands to the texture upload. Its postcondition says that this buffer
  is `SpeedHeatmap.Heatmap` at resolution 2048.
- `HeatmapShader` (`ramp.dfy`) covers the index and blend-weight arithmetic
  of the GLSL `RAMP` function, on one colour channel.

Floats are modelled as `real`. A float-to-unsigned conversion of a
non-negative quotient truncates, so it is modelled as `Floor`. The attribution
rule is the source's:

- A stroke whose two ends fall in the same bucket `k` counts in `k`, and only
  when `k < 2048`.
- A stroke across buckets counts in every bucket of the half-open range
  `[prevIdx, nextIdx)`. It counts nowhere at all if either end index is
  `>= 2048`; the range is not clipped.

The code assumes some things and never checks them. Timestamps are
non-negative and strictly increasing. The total duration is positive. No
bucket is covered by more than 0xFFFF strokes, so no 16-bit sample counter
wraps; a script of at most 65536 actions always meets this
(`CountFitsSampleCounter`), and so do much longer scripts whose strokes are
spread over many buckets. The maximum speed is positive. The model states all
of these as preconditions.

Three behaviours of the code are easy to miss:

- A stroke across buckets is not clipped to the buckets that exist. When
  either end index is 2048 or more, the whole stroke is dropped.
- There is no guard for a zero-length stroke (it divides by zero) or for a
  non-positive total duration. The model requires both to be positive.
- Because of the first point, when the last action lies at or after the total
  duration (for instance when the total duration is the time of the last
  action), the last stroke is lost, because its end index is 2048 or more
  (`SampleIndexPastEnd`, `TrailingActionsIgnored`). For 10 s with actions
  (0 s, 0), (5 s, 100), (10 s, 0) and a maximum speed of 20, the code's rules
  at 4 buckets give `[1, 1, 0, 0]` and not the `[1, 1, 1, 1]` a reader might
  expect: the second stroke ends at bucket index 4, which is out of range.
  `UpAndDownScenario` proves this result.

## Model

| member | source | states |
|---|---|---|
| `SpeedHeatmap.TimeStep` | OFS-lib/Funscript/FunscriptHeatmap.cpp:221 | the bucket width is positive, and `resolution` buckets of that width add up to exactly the total duration |
| `SpeedHeatmap.SampleIndex` | OFS-lib/Funscript/FunscriptHeatmap.cpp:231-232 | the bucket index of a timestamp is the unique natural number that `atS / timeStep` lies at or above and below the next one, so bucket i covers times [i*timeStep, (i+1)*timeStep) |
| `SpeedHeatmap.StrokeSpeed` | OFS-lib/Funscript/FunscriptHeatmap.cpp:228-229 | a stroke's speed is non-negative, and speed times duration is the absolute position change |
| `SpeedHeatmap.Clamp` | OFS-lib/Funscript/FunscriptHeatmap.cpp:258 | the clamped value lies in [lo, hi]; it is lo below the range, hi above it, and the value itself inside it |
| `SpeedHeatmap.Normalized` | OFS-lib/Funscript/FunscriptHeatmap.cpp:256-258 | a bucket's final value lies in [0, 1], and an empty bucket with zero sum gives 0 |
| `SpeedHeatmap.Covers` | OFS-lib/Funscript/FunscriptHeatmap.cpp:233-251 | the attribution rule: a covered bucket k lies between the stroke's end indices (prevIdx <= k <= nextIdx) and inside the array, and a stroke covers anything only if both of its end indices are inside the array |
| `SpeedHeatmap.Count` | OFS-lib/Funscript/FunscriptHeatmap.cpp:223-252 | the sample-count buffer after the stroke loop, stroke by stroke; a bucket past the array is never counted |
| `SpeedHeatmap.Sum` | OFS-lib/Funscript/FunscriptHeatmap.cpp:223-252 | the speed buffer after the stroke loop, stroke by stroke; a bucket's speed sum is never negative |
| `SpeedHeatmap.Heatmap` | OFS-lib/Funscript/FunscriptHeatmap.cpp:216-259 | the output has exactly one entry per bucket, each in [0, 1] |
| `SpeedHeatmap.SampleIndexMonotone` | OFS-lib/Funscript/FunscriptHeatmap.cpp:231-232 | a later timestamp never maps to an earlier bucket, so every stroke's prevIdx <= nextIdx |
| `SpeedHeatmap.SampleIndexPastEnd` | OFS-lib/Funscript/FunscriptHeatmap.cpp:231-235 | a timestamp at or after the total duration maps to an index >= the resolution, which no buffer write accepts |
| `SpeedHeatmap.CountIsNumberOfCoveringStrokes` | OFS-lib/Funscript/FunscriptHeatmap.cpp:223-252 | after the stroke loop, a bucket's count equals the cardinality of the set of strokes whose attribution rule covers it |
| `SpeedHeatmap.SumOnlyWhereCounted` | OFS-lib/Funscript/FunscriptHeatmap.cpp:229-248 | a bucket's speed sum is zero whenever its count is zero, since every write adds one to the count and the stroke's speed to the sum together (non-negativity of the sum is stated by `Sum`) |
| `SpeedHeatmap.PrefixStep` | OFS-lib/Funscript/FunscriptHeatmap.cpp:225-251 | one more pass of the stroke loop adds to each bucket exactly the contribution of the stroke from action j - 1 to action j: one sample and its speed where the attribution rule covers the bucket, nothing elsewhere |
| `SpeedHeatmap.CountPrefixAtMost` | OFS-lib/Funscript/FunscriptHeatmap.cpp:223-247 | a bucket's count only grows as the loop goes on: no prefix of the script counts more than the whole script |
| `SpeedHeatmap.CountAtMostStrokes` | OFS-lib/Funscript/FunscriptHeatmap.cpp:223-247 | no bucket is counted more often than the script has strokes (one fewer than its actions) |
| `SpeedHeatmap.CountFitsSampleCounter` | OFS-lib/Funscript/FunscriptHeatmap.cpp:218-219 | with at most 65536 actions every count fits the uint16_t sample counter (at most 0xFFFF) |
| `SpeedHeatmap.SumBoundedByFastestStroke` | OFS-lib/Funscript/FunscriptHeatmap.cpp:229-248 | if no stroke covering bucket k is faster than a bound, bucket k's sum is at most its count times that bound (as count copies of the bound added up, equal to the product by `MultipleIsProduct`), so the bucket's mean never exceeds its own fastest stroke |
| `SpeedHeatmap.TailStrokesIgnored` | OFS-lib/Funscript/FunscriptHeatmap.cpp:233-251 | strokes whose second action maps past the last bucket change neither any count nor any sum |
| `SpeedHeatmap.FewerThanTwoActionsGiveZeros` | OFS-lib/Funscript/FunscriptHeatmap.cpp:223-259 | with fewer than two actions the stroke loop never runs and the whole output is zeros |
| `SpeedHeatmap.ClampIdleWithinMaxSpeed` | OFS-lib/Funscript/FunscriptHeatmap.cpp:256-258 | when no stroke covering bucket k is faster than the maximum speed, bucket k is exactly its mean speed (sum over max(count, 1)) over the maximum speed, and the clamp takes no effect |
| `SpeedHeatmap.TrailingActionsIgnored` | OFS-lib/Funscript/FunscriptHeatmap.cpp:231-251 | actions at or after the total duration, and the stroke leading into the first of them, have no effect: the heatmap equals that of the script cut before them |
| `SpeedHeatmap.SingleStrokeWithinOneBucket` | OFS-lib/Funscript/FunscriptHeatmap.cpp:233-240 | a lone stroke with both ends in bucket idx sets bucket idx to its clamped normalised speed and every other bucket to 0; when idx is past the array the stroke is dropped and every bucket stays 0 |
| `SpeedHeatmap.SingleStrokeAcrossBuckets` | OFS-lib/Funscript/FunscriptHeatmap.cpp:241-251 | a lone stroke across buckets sets exactly the buckets of [prevIdx, nextIdx) to its clamped normalised speed when nextIdx is in range (nextIdx itself stays 0), and leaves every bucket 0 when nextIdx is out of range |
| `SpeedHeatmap.UpAndDownScenario` | OFS-lib/Funscript/FunscriptHeatmap.cpp:221-259 | 10 s over 4 buckets with actions (0, 0), (5, 100), (10, 0) and maximum speed 20 gives [1, 1, 0, 0]; the second stroke ends at index 4 and is dropped whole |
| `FunscriptHeatmap.AddStroke` | OFS-lib/Funscript/FunscriptHeatmap.cpp:233-251 | one stroke adds 1 to the count and its speed to the sum of exactly the buckets its attribution rule covers, and changes no other entry of either buffer |
| `FunscriptHeatmap.AccumulateStrokes` | OFS-lib/Funscript/FunscriptHeatmap.cpp:223-252 | starting from all-zero buffers, and given that no bucket's count exceeds 0xFFFF, the stroke loop over pairs (i, j = i + 1) leaves in every bucket exactly the count and the speed sum of the strokes covering it, and no counter passes 0xFFFF at any point of the loop |
| `FunscriptHeatmap.NormalizeBuckets` | OFS-lib/Funscript/FunscriptHeatmap.cpp:254-259 | every bucket is replaced in place by its sum over max(count, 1), over the maximum speed, clamped to [0, 1]; the counts are untouched |
| `FunscriptHeatmap.Update` | OFS-lib/Funscript/FunscriptHeatmap.cpp:213-259 | two zero-filled buffers of 2048 entries are filled and normalised in place; the buffer handed on has 2048 entries and equals the heatmap of the script, so each entry is in [0, 1] |
| `HeatmapShader.RampIndex` | OFS-lib/Funscript/FunscriptHeatmap.cpp:94-97 | for x in [0, 1], idx = min(int(x*(n-1)), n-2) satisfies idx + 1 < n (0 <= idx <= 39 for the 41-colour table), lies at or below x*(n-1), lies within one below it for x < 1, and is n-2 at x = 1 |
| `HeatmapShader.Fract` | OFS-lib/Funscript/FunscriptHeatmap.cpp:98 | GLSL fract lies in [0, 1) and differs from its argument by a whole number |
| `HeatmapShader.Smoothstep01` | OFS-lib/Funscript/FunscriptHeatmap.cpp:98 | GLSL smoothstep(0, 1, t) lies in [0, 1], and is 0 for t <= 0 and 1 for t >= 1 |
| `HeatmapShader.Mix` | OFS-lib/Funscript/FunscriptHeatmap.cpp:98 | GLSL mix gives its first argument at weight 0, its second at weight 1, and a value between the two for any weight in [0, 1] |
| `HeatmapShader.RampAsWritten` | OFS-lib/Funscript/FunscriptHeatmap.cpp:94-98 | RAMP exactly as the shader writes it (blend weight `smoothstep(fract(x*(n-1)))`): the colour lies between the two neighbouring table entries at the chosen index |
| `HeatmapShader.Ramp` | OFS-lib/Funscript/FunscriptHeatmap.cpp:94-98 | RAMP with the corrected blend weight: the colour lies between the two neighbouring table entries, is the first entry at x = 0 and the last entry at x = 1 |
| `HeatmapShader.BlendWeight` | OFS-lib/Funscript/FunscriptHeatmap.cpp:95-98 | the corrected blend weight is in [0, 1], idx plus the weight is the scaled input, and below x = 1 it equals fract of the scaled input |
| `HeatmapShader.RampAsWrittenAtTop` | OFS-lib/Funscript/FunscriptHeatmap.cpp:94-98 | as written, RAMP at x = 1 returns the second-to-last table entry |
| `HeatmapShader.RampAsWrittenMissesLastColor` | OFS-lib/Funscript/FunscriptHeatmap.cpp:94-98 | with 41 colours whose last two differ, RAMP as written at x = 1 is not the last colour |
| `HeatmapShader.RampHitsEveryEntry` | OFS-lib/Funscript/FunscriptHeatmap.cpp:94-98 | the corrected ramp at x = i/(n-1) returns table entry i, for every i including the last |
| `HeatmapShader.RampAgreesBelowTop` | OFS-lib/Funscript/FunscriptHeatmap.cpp:94-98 | for x < 1 the corrected ramp equals RAMP as written, so the correction only changes x = 1 |

## Left out

- OpenGL texture creation and upload (cpp:201-211, 261-263): these are calls into the GPU API. `Update` returns the buffer the source would upload.
- The `HeatmapShader` class, its uniform locations and its global instance (cpp:17-138, except the `RAMP` function at cpp:94-98, which `ramp.dfy` models): GPU program plumbing.
- The colour table contents (cpp:48-92): `RAMP` is modelled over any table of at least two entries. Only one colour channel is modelled, because `mix` works on each channel separately.
- `FunscriptHeatmap::Init` (cpp:140-199): it fills a foreign `ImGradient` by adding up float positions.
- `DrawHeatmap` (cpp:266-294): an ImGui draw-list callback and projection-matrix arithmetic.
- `RenderToBitmap` (cpp:298-371): an offscreen framebuffer, a temporary ImGui context and `glReadPixels`.
- The `OFS_PROFILE` macro (cpp:215): profiling only.
- Float rounding: every quantity is an exact `real`.
- `MaxSpeedPerSecond` is declared in `FunscriptHeatmap.h`, which is not part of this model. It is a parameter that must be positive.
- `Util::Clamp` is declared in `OFS_Util.h`, which is not part of this model. It is modelled as the usual below/above/inside clamp.
- Linear texture filtering between texels (cpp:205-206) is left out. `RAMP` is modelled on inputs in [0, 1], which is what `Update` produces.
- `Update`: requires that no bucket is covered by more than 0xFFFF strokes. Otherwise that bucket's uint16_t sample counter wraps, and the model does not reproduce the wrap. This takes at least 65536 strokes in one bucket.
- `Update`: requires non-negative, strictly increasing timestamps and a positive total duration. The source does not check these. A zero-length stroke divides by zero. A quotient of -1 or less converted to uint32_t is undefined; a timestamp in (-timeStep, 0) maps to bucket 0 in the source, which the model excludes.
- `AccumulateStrokes`: the source's loop bound is `uint32_t size = actions.size()` (cpp:223), so a script of 2^32 or more actions would be cut to `size mod 2^32` actions. The model's loop runs over every action, and does not reproduce that truncation.
- `SampleIndex`: bucket indices are unbounded. A quotient of 2^32 or more does not fit the source's uint32_t, and the source's result for it is undefined (a compiler may keep the low 32 bits and land in range). The model gives such a timestamp an index of 2^32 or more, so the stroke is dropped.

## Findings

| source | as written | input that shows it | evidently intended | confidence | as-written member | corrected member |
|---|---|---|---|---|---|---|
| OFS-lib/Funscript/FunscriptHeatmap.cpp:98 | `RAMP` clamps `idx` to `n-2` but still blends with weight `smoothstep(fract(x*(n-1)))`. At x = 1.0 that is `fract(40.0) = 0`, so the result is colour 39. | x = 1.0, the value of every bucket whose mean speed is at or above `MaxSpeedPerSecond` | the top of the range shows the last colour: blend weight `x*(n-1) - idx`, which is 1 at x = 1 and equals `fract` everywhere else | medium, not executed | `HeatmapShader.RampAsWrittenAtTop` | `HeatmapShader.RampHitsEveryEntry` |
