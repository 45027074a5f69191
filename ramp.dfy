/**
 * The colour lookup of the heatmap fragment shader (GLSL function RAMP): a
 * normalised speed x in [0, 1] is spread over a table of colours, and the
 * result blends the two neighbouring table entries. One colour channel is
 * modelled; the three channels of a vec3 blend independently and alike.
 */
module HeatmapShader {

  /** Number of entries of the shader's colour table. */
  const ColorCount: nat := 41

  /** GLSL int() of a non-negative float truncates, which for x >= 0 is the floor. */
  function RampIndex(colorCount: nat, x: real): (idx: nat)
    requires colorCount >= 2 && 0.0 <= x <= 1.0
    ensures idx + 1 < colorCount
    ensures idx as real <= x * (colorCount - 1) as real
    ensures x < 1.0 ==> x * (colorCount - 1) as real < (idx + 1) as real
    ensures x == 1.0 ==> idx == colorCount - 2
  {
    var scaled := x * (colorCount - 1) as real;
    ScaleWithinRange(x, (colorCount - 1) as real);
    var truncated := scaled.Floor;
    if truncated < colorCount - 2 then truncated else colorCount - 2
  }

  /** Scaling x in [0, 1] by m > 0 lands in [0, m], and below m when x < 1. */
  lemma ScaleWithinRange(x: real, m: real)
    requires 0.0 <= x <= 1.0 && m > 0.0
    ensures 0.0 <= x * m <= m
    ensures x < 1.0 ==> x * m < m
  {
  }

  /** GLSL fract: the fractional part. */
  function Fract(y: real): (f: real)
    ensures 0.0 <= f < 1.0
    ensures (y - f).Floor as real == y - f
  {
    y - y.Floor as real
  }

  lemma MulNonneg(x: real, y: real)
    requires 0.0 <= x && 0.0 <= y
    ensures 0.0 <= x * y
  {
  }

  /** GLSL smoothstep(0.0, 1.0, t): Hermite easing from 0 at t <= 0 to 1 at t >= 1. */
  function Smoothstep01(t: real): (s: real)
    ensures 0.0 <= s <= 1.0
    ensures t <= 0.0 ==> s == 0.0
    ensures t >= 1.0 ==> s == 1.0
  {
    var c := if t < 0.0 then 0.0 else if t > 1.0 then 1.0 else t;
    MulNonneg(c * c, 3.0 - 2.0 * c);
    MulNonneg((1.0 - c) * (1.0 - c), 1.0 + 2.0 * c);
    assert 1.0 - c * c * (3.0 - 2.0 * c) == (1.0 - c) * (1.0 - c) * (1.0 + 2.0 * c);
    c * c * (3.0 - 2.0 * c)
  }

  /** v lies on the closed segment between a and b, whichever is larger. */
  predicate Between(v: real, a: real, b: real)
  {
    (a <= v <= b) || (b <= v <= a)
  }

  /** A blend with weight in [0, 1] moves from a towards b by a fraction of the distance. */
  lemma BlendWithinSegment(a: real, b: real, w: real)
    ensures 0.0 <= w <= 1.0 ==> Between(a * (1.0 - w) + b * w, a, b)
  {
    if 0.0 <= w <= 1.0 {
      var d := if a <= b then b - a else a - b;
      MulNonneg(d, w);
      MulNonneg(d, 1.0 - w);
      assert a * (1.0 - w) + b * w == a + (b - a) * w == b - (b - a) * (1.0 - w);
    }
  }

  /** GLSL mix: linear blend, a at weight 0 and b at weight 1. */
  function Mix(a: real, b: real, w: real): (m: real)
    ensures w == 0.0 ==> m == a
    ensures w == 1.0 ==> m == b
    ensures 0.0 <= w <= 1.0 ==> Between(m, a, b)
  {
    BlendWithinSegment(a, b, w);
    a * (1.0 - w) + b * w
  }

  /** RAMP as the shader writes it: the blend weight is fract of the scaled input. */
  function RampAsWritten(cols: seq<real>, x: real): (c: real)
    requires |cols| >= 2 && 0.0 <= x <= 1.0
    ensures var idx := RampIndex(|cols|, x); Between(c, cols[idx], cols[idx + 1])
  {
    var scaled := x * (|cols| - 1) as real;
    var idx := RampIndex(|cols|, x);
    Mix(cols[idx], cols[idx + 1], Smoothstep01(Fract(scaled)))
  }

  /** RAMP with the blend weight measured from the chosen entry, so that x = 1 reaches the last entry. */
  function Ramp(cols: seq<real>, x: real): (c: real)
    requires |cols| >= 2 && 0.0 <= x <= 1.0
    ensures var idx := RampIndex(|cols|, x); Between(c, cols[idx], cols[idx + 1])
    ensures x == 0.0 ==> c == cols[0]
    ensures x == 1.0 ==> c == cols[|cols| - 1]
  {
    var idx := RampIndex(|cols|, x);
    Mix(cols[idx], cols[idx + 1], Smoothstep01(BlendWeight(|cols|, x)))
  }

  /** Position of the scaled input inside the segment [idx, idx + 1] that RAMP picked. */
  function BlendWeight(colorCount: nat, x: real): (w: real)
    requires colorCount >= 2 && 0.0 <= x <= 1.0
    ensures 0.0 <= w <= 1.0
    ensures RampIndex(colorCount, x) as real + w == x * (colorCount - 1) as real
    ensures x < 1.0 ==> w == Fract(x * (colorCount - 1) as real)
  {
    var scaled := x * (colorCount - 1) as real;
    var idx := RampIndex(colorCount, x);
    assert x < 1.0 ==> scaled.Floor == idx;
    scaled - idx as real
  }

  /** The input x = i / (n - 1) scales exactly onto table position i. */
  lemma ScaledKnot(n: nat, i: nat)
    requires n >= 2 && i < n
    ensures 0.0 <= i as real / (n - 1) as real <= 1.0
    ensures (i as real / (n - 1) as real) * (n - 1) as real == i as real
  {
  }

  /** As written, the top of the range (x = 1) shows the second-to-last table entry. */
  lemma RampAsWrittenAtTop(cols: seq<real>)
    requires |cols| >= 2
    ensures RampAsWritten(cols, 1.0) == cols[|cols| - 2]
  {
    var n := |cols|;
    assert 1.0 * (n - 1) as real == (n - 1) as real;
    assert Fract((n - 1) as real) == 0.0;
  }

  /** With the shader's own table size, the last colour is never shown at full speed. */
  lemma RampAsWrittenMissesLastColor(cols: seq<real>)
    requires |cols| == ColorCount && cols[ColorCount - 2] != cols[ColorCount - 1]
    ensures RampAsWritten(cols, 1.0) != cols[ColorCount - 1]
  {
    RampAsWrittenAtTop(cols);
  }

  /** The corrected ramp passes through every table entry: x = i / (n - 1) shows entry i. */
  lemma RampHitsEveryEntry(cols: seq<real>, i: nat)
    requires |cols| >= 2 && i < |cols|
    ensures 0.0 <= i as real / (|cols| - 1) as real <= 1.0
    ensures Ramp(cols, i as real / (|cols| - 1) as real) == cols[i]
  {
    var n := |cols|;
    ScaledKnot(n, i);
    var x := i as real / (n - 1) as real;
    var idx := RampIndex(n, x);
    if i < n - 1 {
      assert x < 1.0;
      assert idx == i;
      assert BlendWeight(n, x) == 0.0;
    } else {
      assert x == 1.0;
      assert BlendWeight(n, x) == 1.0;
    }
  }

  /** Below the top of the range the corrected ramp is the one the shader computes. */
  lemma RampAgreesBelowTop(cols: seq<real>, x: real)
    requires |cols| >= 2 && 0.0 <= x < 1.0
    ensures Ramp(cols, x) == RampAsWritten(cols, x)
  {
  }
}
