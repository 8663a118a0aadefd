/** The colour-conversion functions: clamping and quantising components,
    HSL/HSV to RGB, RGB to HSL, 24-bit RGB and the canonical string key. */
module Color {
  import opened ColorModels
  import StringOrder

  function Min(a: real, b: real): real { if a <= b then a else b }
  function Max(a: real, b: real): real { if a >= b then a else b }
  function Min3(a: real, b: real, c: real): real { Min(Min(a, b), c) }
  function Max3(a: real, b: real, c: real): real { Max(Max(a, b), c) }

  /** `q` rounded toward zero. */
  function Trunc(q: real): (t: int)
    ensures q >= 0.0 ==> t as real <= q < t as real + 1.0
    ensures q < 0.0 ==> t as real - 1.0 < q <= t as real
  {
    if q >= 0.0 then q.Floor else -((-q).Floor)
  }

  /** JavaScript's `%` on numbers: the remainder of division truncated
      toward zero, so it takes the sign of the dividend. */
  function JsRemainder(x: real, m: real): real
    requires m != 0.0
  {
    x - m * Trunc(x / m) as real
  }

  /** The facts about `%` used below, for the two divisors the colour
      formulas use. */
  lemma JsRemainderFacts(x: real, m: real)
    requires m == 6.0 || m == 12.0
    ensures x >= 0.0 ==> 0.0 <= JsRemainder(x, m) < m
    ensures x < 0.0 ==> -m < JsRemainder(x, m) <= 0.0
    ensures 0.0 <= x < m ==> JsRemainder(x, m) == x
    ensures m <= x < 2.0 * m ==> JsRemainder(x, m) == x - m
  {
  }

  /** A factor in [0, 1] shrinks a non-negative number. */
  lemma ScaleDown(s: real, x: real)
    requires 0.0 <= s <= 1.0 && 0.0 <= x
    ensures 0.0 <= s * x <= x
  {
    assert x - s * x == (1.0 - s) * x;
  }

  /** A factor in [-1, 1] keeps a multiple of `a` within [-a, a]. */
  lemma ScaleWithin(a: real, f: real)
    requires 0.0 <= a && -1.0 <= f <= 1.0
    ensures -a <= a * f <= a
  {
    assert a - a * f == a * (1.0 - f);
    assert a + a * f == a * (1.0 + f);
  }

  // ---------------------------------------------------------------------------
  // Component encoding primitives

  /** A normalised component from a possibly out-of-range value: the value clamped to [0, 1]. */
  function NormalizedComponentOf(value: real): (r: NormalizedComponent)
    ensures 0.0 <= value <= 1.0 ==> r == value
    ensures value < 0.0 ==> r == 0.0
    ensures value > 1.0 ==> r == 1.0
  {
    Max(Min(value, 1.0), 0.0)
  }

  lemma NormalizedComponentIdempotent(value: real)
    ensures NormalizedComponentOf(NormalizedComponentOf(value)) == NormalizedComponentOf(value)
  {
  }

  /** The 8-bit component of a normalised value: `value` is re-clamped, scaled
      by 256 and floored, and the one result 256 (from 1.0) is clamped to 255.
      So `r` is the index of the 1/256-wide interval that holds `value`, with
      the top interval closed. */
  function Component8BitOf(value: NormalizedComponent): (r: Component8Bit)
    ensures r < 255 ==> r as real <= 256.0 * value < r as real + 1.0
    ensures r == 255 <==> value >= 255.0 / 256.0
  {
    var normalized := NormalizedComponentOf(value);
    var scaled := (normalized * 256.0).Floor;
    if scaled <= 255 then scaled else 255
  }

  lemma Component8BitOfOne()
    ensures Component8BitOf(1.0) == 255
  {
  }

  // ---------------------------------------------------------------------------
  // HSL to RGB (the "alternative" formula of section 7.1 of CSS Color Module Level 4)

  /** The shared HSL channel formula for luminosity `l`, chroma factor `a`
      and phase `k` in [0, 12). */
  function HslChannel(l: real, a: real, k: real): real
  {
    l - a * Max(-1.0, Min3(k - 3.0, 9.0 - k, 1.0))
  }

  /** One RGB channel of an HSL colour before the final clamp; `n` is the
      channel's phase offset (red 0, green 8, blue 4). */
  function HslRawComponent(c: HSL, n: real): real
  {
    HslChannel(c.luminosity, ChromaFactor(c.saturation, c.luminosity), JsRemainder(n + c.hue * 12.0, 12.0))
  }

  /** The factor `a` of the HSL formula: saturation times the distance from
      the luminosity to the nearer end of [0, 1]. */
  function ChromaFactor(s: real, l: real): real
  {
    s * Min(l, 1.0 - l)
  }

  function HslToRgb(c: HSL): (r: RGB)
    ensures c.saturation == 0.0 ==> r.red == r.green == r.blue == c.luminosity
  {
    GreyChannel(c, 0.0);
    GreyChannel(c, 8.0);
    GreyChannel(c, 4.0);
    RGB(NormalizedComponentOf(HslRawComponent(c, 0.0)),
        NormalizedComponentOf(HslRawComponent(c, 8.0)),
        NormalizedComponentOf(HslRawComponent(c, 4.0)))
  }

  /** With saturation 0 every channel formula gives the luminosity. */
  lemma GreyChannel(c: HSL, n: real)
    ensures c.saturation == 0.0 ==> HslRawComponent(c, n) == c.luminosity
  {
    if c.saturation == 0.0 {
      assert ChromaFactor(c.saturation, c.luminosity) == 0.0;
    }
  }

  /** With `a` between 0 and the distance from `l` to the nearer end of
      [0, 1], the channel formula stays in [0, 1] whatever the phase. */
  lemma HslChannelInRange(l: real, a: real, k: real)
    requires 0.0 <= l <= 1.0 && 0.0 <= a <= Min(l, 1.0 - l)
    ensures 0.0 <= HslChannel(l, a, k) <= 1.0
  {
    var f := Max(-1.0, Min3(k - 3.0, 9.0 - k, 1.0));
    var p := a * f;
    ScaleWithin(a, f);
    assert HslChannel(l, a, k) == l - p;
  }

  /** For every HSL input each channel formula already lies in [0, 1], so the
      clamp in `HslToRgb` never changes a value. */
  lemma HslRawComponentInRange(c: HSL, n: real)
    ensures 0.0 <= HslRawComponent(c, n) <= 1.0
  {
    ChromaFactorBounds(c.saturation, c.luminosity);
    HslChannelInRange(c.luminosity, ChromaFactor(c.saturation, c.luminosity), JsRemainder(n + c.hue * 12.0, 12.0));
  }

  /** The chroma factor lies between 0 and the distance from the luminosity to the nearer end of [0, 1]. */
  lemma ChromaFactorBounds(s: NormalizedComponent, l: NormalizedComponent)
    ensures 0.0 <= ChromaFactor(s, l) <= Min(l, 1.0 - l)
  {
    var h := Min(l, 1.0 - l);
    var a := s * h;
    ScaleDown(s, h);
    assert ChromaFactor(s, l) == a;
  }

  lemma HslToRgbUnclamped(c: HSL)
    ensures HslToRgb(c).red == HslRawComponent(c, 0.0)
    ensures HslToRgb(c).green == HslRawComponent(c, 8.0)
    ensures HslToRgb(c).blue == HslRawComponent(c, 4.0)
  {
    HslRawComponentInRange(c, 0.0);
    HslRawComponentInRange(c, 8.0);
    HslRawComponentInRange(c, 4.0);
  }

  /** Hue is circular: hue 1 gives the same colour as hue 0. */
  lemma HslHueWraps(s: NormalizedComponent, l: NormalizedComponent)
    ensures HslToRgb(HSL(1.0, s, l)) == HslToRgb(HSL(0.0, s, l))
  {
    HslPhaseWraps(s, l, 0.0);
    HslPhaseWraps(s, l, 8.0);
    HslPhaseWraps(s, l, 4.0);
  }

  lemma HslPhaseWraps(s: NormalizedComponent, l: NormalizedComponent, n: real)
    requires 0.0 <= n < 12.0
    ensures HslRawComponent(HSL(1.0, s, l), n) == HslRawComponent(HSL(0.0, s, l), n)
  {
    var k1 := JsRemainder(n + 1.0 * 12.0, 12.0);
    var k0 := JsRemainder(n + 0.0 * 12.0, 12.0);
    JsRemainderFacts(n + 1.0 * 12.0, 12.0);
    JsRemainderFacts(n + 0.0 * 12.0, 12.0);
    assert k1 == k0;
  }

  lemma HslPureRed()
    ensures HslToRgb(HSL(0.0, 1.0, 0.5)) == RGB(1.0, 0.0, 0.0)
  {
    JsRemainderFacts(0.0, 12.0);
    JsRemainderFacts(8.0, 12.0);
    JsRemainderFacts(4.0, 12.0);
    assert HslRawComponent(HSL(0.0, 1.0, 0.5), 0.0) == HslChannel(0.5, 0.5, 0.0) == 1.0;
    assert HslRawComponent(HSL(0.0, 1.0, 0.5), 8.0) == HslChannel(0.5, 0.5, 8.0) == 0.0;
    assert HslRawComponent(HSL(0.0, 1.0, 0.5), 4.0) == HslChannel(0.5, 0.5, 4.0) == 0.0;
  }

  lemma HslPureRed24()
    ensures RgbAsRgb24(HslToRgb(HSL(0.0, 1.0, 0.5))) == RGB24(255, 0, 0)
  {
    HslPureRed();
    Rgb24Red();
  }

  /** In exact arithmetic hue 1/3 is pure green. */
  lemma HslPureGreen()
    ensures HslToRgb(HSL(1.0 / 3.0, 1.0, 0.5)) == RGB(0.0, 1.0, 0.0)
  {
    JsRemainderFacts(4.0, 12.0);
    JsRemainderFacts(12.0, 12.0);
    JsRemainderFacts(8.0, 12.0);
    assert HslRawComponent(HSL(1.0 / 3.0, 1.0, 0.5), 0.0) == HslChannel(0.5, 0.5, 4.0) == 0.0;
    assert HslRawComponent(HSL(1.0 / 3.0, 1.0, 0.5), 8.0) == HslChannel(0.5, 0.5, 0.0) == 1.0;
    assert HslRawComponent(HSL(1.0 / 3.0, 1.0, 0.5), 4.0) == HslChannel(0.5, 0.5, 8.0) == 0.0;
  }

  // ---------------------------------------------------------------------------
  // RGB to HSL (section 7.2 of CSS Color Module Level 4)

  /** Hue, saturation and luminosity as plain numbers, before they are clamped into an HSL. */
  datatype HslParts = HslParts(hue: real, saturation: real, luminosity: real)

  /** Saturations at or below this count as grey, and their hue is reset to 0. */
  const Epsilon: real := 1.0 / 100000.0

  /** The first stage of `RgbToHsl`: luminosity, saturation and the
      six-segment hue (divided by 6) of a colour, before the later adjustments. */
  function RgbToHslStage(c: RGB): (p: HslParts)
    ensures p.luminosity == (Min3(c.red, c.green, c.blue) + Max3(c.red, c.green, c.blue)) / 2.0
  {
    var max := Max3(c.red, c.green, c.blue);
    var min := Min3(c.red, c.green, c.blue);
    var luminosity := (min + max) / 2.0;
    var d := max - min;
    if d == 0.0 then HslParts(0.0, 0.0, luminosity)
    else
      var saturation :=
        if luminosity == 0.0 || luminosity == 1.0 then 0.0
        else (max - luminosity) / Min(luminosity, 1.0 - luminosity);
      HslParts(SegmentHue(c, max, d) / 6.0, saturation, luminosity)
  }

  /** The `switch (max)` of `rgb_to_hsl`: the hue in sixths of a turn, taken
      from whichever channel is the maximum (the first of them on a tie). */
  function SegmentHue(c: RGB, max: real, d: real): real
    requires d != 0.0
  {
    if max == c.red then (c.green - c.blue) / d + (if c.green < c.blue then 6.0 else 0.0)
    else if max == c.green then (c.blue - c.red) / d + 2.0
    else if max == c.blue then (c.red - c.green) / d + 4.0
    else 0.0
  }

  function Abs(x: real): real { if x < 0.0 then -x else x }

  function RgbToHsl(c: RGB): (r: HSL)
    ensures r.luminosity == (Min3(c.red, c.green, c.blue) + Max3(c.red, c.green, c.blue)) / 2.0
    ensures Max3(c.red, c.green, c.blue) == Min3(c.red, c.green, c.blue) ==> r.hue == 0.0 && r.saturation == 0.0
  {
    var p := RgbToHslStage(c);
    // Very out-of-gamut colours could give a negative saturation; the hue is
    // then turned by the constant 180, exactly as written in the source.
    var hue1 := if p.saturation < 0.0 then p.hue + 180.0 else p.hue;
    var saturation := if p.saturation < 0.0 then Abs(p.saturation) else p.saturation;
    var hue2 := if hue1 >= 1.0 then hue1 - 1.0 else hue1;
    var hue3 := if saturation <= Epsilon then 0.0 else hue2;
    HSL(NormalizedComponentOf(hue3), NormalizedComponentOf(saturation), NormalizedComponentOf(p.luminosity))
  }

  /** `x / d` for `x` in [-d, d] lies in [-1, 1] and has the sign of `x`. */
  lemma QuotientWithin(x: real, d: real)
    requires d > 0.0 && -d <= x <= d
    ensures -1.0 <= x / d <= 1.0
    ensures x >= 0.0 ==> x / d >= 0.0
    ensures x < 0.0 ==> x / d < 0.0
  {
  }

  /** For every RGB input the first stage already yields a saturation in
      [0, 1] and a hue in [0, 1). */
  lemma RgbToHslStageBounds(c: RGB)
    ensures 0.0 <= RgbToHslStage(c).saturation <= 1.0
    ensures 0.0 <= RgbToHslStage(c).hue < 1.0
    ensures 0.0 <= RgbToHslStage(c).luminosity <= 1.0
  {
    var max := Max3(c.red, c.green, c.blue);
    var min := Min3(c.red, c.green, c.blue);
    var l := (min + max) / 2.0;
    var d := max - min;
    if d != 0.0 {
      if l != 0.0 && l != 1.0 {
        QuotientWithin(max - l, Min(l, 1.0 - l));
      }
      if max == c.red {
        QuotientWithin(c.green - c.blue, d);
      } else if max == c.green {
        QuotientWithin(c.blue - c.red, d);
      } else {
        QuotientWithin(c.red - c.green, d);
      }
    }
  }

  /** For every RGB input the negative-saturation correction (with its +180)
      and the hue wrap never apply, so `RgbToHsl` is the first stage with the
      hue of near-grey colours reset to 0; no clamp changes a value. */
  lemma RgbToHslAdjustments(c: RGB)
    ensures var p := RgbToHslStage(c);
      RgbToHsl(c).hue == (if p.saturation <= Epsilon then 0.0 else p.hue)
      && RgbToHsl(c).saturation == p.saturation
      && RgbToHsl(c).luminosity == p.luminosity
  {
    RgbToHslStageBounds(c);
  }

  /** Converting to HSL and back gives the colour back, except that the hue
      of a colour whose saturation is at most `Epsilon` (but not zero) is
      reset to 0, which moves it. */
  lemma HslRgbRoundTrip(c: RGB)
    requires RgbToHslStage(c).saturation > Epsilon
             || Max3(c.red, c.green, c.blue) == Min3(c.red, c.green, c.blue)
    ensures HslToRgb(RgbToHsl(c)) == c
  {
    var max := Max3(c.red, c.green, c.blue);
    var min := Min3(c.red, c.green, c.blue);
    if max != min {
      var d := max - min;
      var l := (min + max) / 2.0;
      var H := SegmentHue(c, max, d);
      ChromaticParts(c, min, max, d, l, H);
      SegmentChannels(c, min, max, d, l, H);
      RebuildColour(c, RgbToHsl(c), d, l, H);
    }
  }

  /** What `RgbToHsl` yields for a colour with chroma whose saturation is above `Epsilon`. */
  lemma ChromaticParts(c: RGB, min: real, max: real, d: real, l: real, H: real)
    requires max == Max3(c.red, c.green, c.blue) && min == Min3(c.red, c.green, c.blue) && max != min
    requires d == max - min && l == (min + max) / 2.0 && H == SegmentHue(c, max, d)
    requires RgbToHslStage(c).saturation > Epsilon
    ensures var h := RgbToHsl(c);
      h.hue == H / 6.0 && h.luminosity == l && ChromaFactor(h.saturation, l) == d / 2.0
  {
    StageHue(c);
    StageAboveEpsilon(c);
    StageChroma(c);
  }

  lemma StageHue(c: RGB)
    requires Max3(c.red, c.green, c.blue) != Min3(c.red, c.green, c.blue)
    ensures var max := Max3(c.red, c.green, c.blue); var min := Min3(c.red, c.green, c.blue);
      RgbToHslStage(c).hue == SegmentHue(c, max, max - min) / 6.0
  {
  }

  lemma StageAboveEpsilon(c: RGB)
    requires RgbToHslStage(c).saturation > Epsilon
    ensures var p := RgbToHslStage(c); var h := RgbToHsl(c);
      h.hue == p.hue && h.saturation == p.saturation && h.luminosity == p.luminosity
  {
    RgbToHslAdjustments(c);
  }

  lemma RebuildColour(c: RGB, h: HSL, d: real, l: real, H: real)
    requires h.hue == H / 6.0 && h.luminosity == l && ChromaFactor(h.saturation, l) == d / 2.0
    requires HslChannel(l, d / 2.0, JsRemainder(0.0 + (H / 6.0) * 12.0, 12.0)) == c.red
    requires HslChannel(l, d / 2.0, JsRemainder(8.0 + (H / 6.0) * 12.0, 12.0)) == c.green
    requires HslChannel(l, d / 2.0, JsRemainder(4.0 + (H / 6.0) * 12.0, 12.0)) == c.blue
    ensures HslToRgb(h) == c
  {
    RebuildFromParts(h, d, l, H, c.red, c.green, c.blue);
  }

  /** The three channel formulas at the six-segment hue of a colour with chroma give back its channels. */
  lemma SegmentChannels(c: RGB, min: real, max: real, d: real, l: real, H: real)
    requires max == Max3(c.red, c.green, c.blue) && min == Min3(c.red, c.green, c.blue) && max != min
    requires d == max - min && l == (min + max) / 2.0 && H == SegmentHue(c, max, d)
    ensures HslChannel(l, d / 2.0, JsRemainder(0.0 + (H / 6.0) * 12.0, 12.0)) == c.red
    ensures HslChannel(l, d / 2.0, JsRemainder(8.0 + (H / 6.0) * 12.0, 12.0)) == c.green
    ensures HslChannel(l, d / 2.0, JsRemainder(4.0 + (H / 6.0) * 12.0, 12.0)) == c.blue
  {
    if max == c.red {
      SegmentRed(c.red, c.green, c.blue, min, d, l, H);
    } else if max == c.green {
      SegmentGreen(c.red, c.green, c.blue, min, d, l, H);
    } else {
      SegmentBlue(c.red, c.green, c.blue, min, d, l, H);
    }
  }

  /** For a colour with chroma, saturation times `min(l, 1 - l)` is half the chroma. */
  lemma StageChroma(c: RGB)
    requires Max3(c.red, c.green, c.blue) != Min3(c.red, c.green, c.blue)
    ensures var p := RgbToHslStage(c);
      ChromaFactor(p.saturation, p.luminosity)
      == (Max3(c.red, c.green, c.blue) - Min3(c.red, c.green, c.blue)) / 2.0
  {
    var max := Max3(c.red, c.green, c.blue);
    var min := Min3(c.red, c.green, c.blue);
    var l := (min + max) / 2.0;
    assert 0.0 < l < 1.0;
    var h := Min(l, 1.0 - l);
    var s := (max - l) / h;
    assert RgbToHslStage(c) == HslParts(SegmentHue(c, max, max - min) / 6.0, s, l);
    ChromaOfQuotient(max - l, s, l);
    assert max - l == (max - min) / 2.0;
  }

  /** A saturation computed as `x / min(l, 1 - l)` has chroma factor `x`. */
  lemma ChromaOfQuotient(x: real, s: real, l: real)
    requires Min(l, 1.0 - l) != 0.0 && s == x / Min(l, 1.0 - l)
    ensures ChromaFactor(s, l) == x
  {
    QuotientTimes(x, Min(l, 1.0 - l));
  }

  lemma RebuildFromParts(h: HSL, d: real, l: real, H: real, r: real, g: real, b: real)
    requires ChromaFactor(h.saturation, h.luminosity) == d / 2.0
    requires h.hue == H / 6.0 && h.luminosity == l
    requires HslChannel(l, d / 2.0, JsRemainder(0.0 + (H / 6.0) * 12.0, 12.0)) == r
    requires HslChannel(l, d / 2.0, JsRemainder(8.0 + (H / 6.0) * 12.0, 12.0)) == g
    requires HslChannel(l, d / 2.0, JsRemainder(4.0 + (H / 6.0) * 12.0, 12.0)) == b
    ensures HslToRgb(h).red == r && HslToRgb(h).green == g && HslToRgb(h).blue == b
  {
    HslToRgbUnclamped(h);
    RebuildChannel(h, d, H, 0.0);
    RebuildChannel(h, d, H, 8.0);
    RebuildChannel(h, d, H, 4.0);
  }

  lemma RebuildChannel(h: HSL, d: real, H: real, n: real)
    requires ChromaFactor(h.saturation, h.luminosity) == d / 2.0
    requires h.hue == H / 6.0
    ensures HslRawComponent(h, n) == HslChannel(h.luminosity, d / 2.0, JsRemainder(n + (H / 6.0) * 12.0, 12.0))
  {
  }

  /** `(x / m) * m == x` */
  lemma QuotientTimes(x: real, m: real)
    requires m != 0.0
    ensures (x / m) * m == x
  {
  }

  // The four pieces of the HSL channel formula, by phase.

  lemma ChannelLow(l: real, a: real, k: real)
    requires k <= 2.0 || 10.0 <= k
    ensures HslChannel(l, a, k) == l + a
  {
  }

  lemma ChannelHigh(l: real, a: real, k: real)
    requires 4.0 <= k <= 8.0
    ensures HslChannel(l, a, k) == l - a
  {
  }

  lemma ChannelRising(l: real, a: real, k: real)
    requires 2.0 <= k <= 4.0
    ensures HslChannel(l, a, k) == l - a * (k - 3.0)
  {
  }

  lemma ChannelFalling(l: real, a: real, k: real)
    requires 8.0 <= k <= 10.0
    ensures HslChannel(l, a, k) == l - a * (9.0 - k)
  {
  }

  /** The rising piece at half the chroma `d`, for a phase `k` that is linear
      in `x / d`: the division cancels. */
  lemma ChannelRisingAt(l: real, d: real, x: real, c0: real, k: real)
    requires d > 0.0 && 2.0 <= k <= 4.0 && k == 2.0 * (x / d) + c0
    ensures HslChannel(l, d / 2.0, k) == l - x - (c0 - 3.0) * (d / 2.0)
  {
    ChannelRising(l, d / 2.0, k);
    var q := x / d;
    assert q * d == x;
    assert (d / 2.0) * (k - 3.0) == q * d + (c0 - 3.0) * (d / 2.0);
  }

  /** The falling piece at half the chroma `d`, for a phase `k` that is linear in `x / d`. */
  lemma ChannelFallingAt(l: real, d: real, x: real, c0: real, k: real)
    requires d > 0.0 && 8.0 <= k <= 10.0 && k == 2.0 * (x / d) + c0
    ensures HslChannel(l, d / 2.0, k) == l + x - (9.0 - c0) * (d / 2.0)
  {
    ChannelFalling(l, d / 2.0, k);
    var q := x / d;
    assert q * d == x;
    assert (d / 2.0) * (9.0 - k) == (9.0 - c0) * (d / 2.0) - q * d;
  }

  /** The phase of channel offset `n` for a hue of `H / 6`, for `n + 2H` in [0, 24). */
  lemma Phase(n: real, H: real)
    requires 0.0 <= n + 2.0 * H < 24.0
    ensures JsRemainder(n + (H / 6.0) * 12.0, 12.0)
            == if n + 2.0 * H < 12.0 then n + 2.0 * H else n + 2.0 * H - 12.0
  {
    assert n + (H / 6.0) * 12.0 == n + 2.0 * H;
    JsRemainderFacts(n + 2.0 * H, 12.0);
  }

  /** The three channels rebuilt from the hue segment where red is the maximum. */
  lemma SegmentRed(r: real, g: real, b: real, min: real, d: real, l: real, H: real)
    requires min == Min3(r, g, b) && 0.0 <= min < r && g <= r && b <= r
    requires d == r - min && l == (min + r) / 2.0 && H == (g - b) / d + (if g < b then 6.0 else 0.0)
    ensures HslChannel(l, d / 2.0, JsRemainder(0.0 + (H / 6.0) * 12.0, 12.0)) == r
      && HslChannel(l, d / 2.0, JsRemainder(8.0 + (H / 6.0) * 12.0, 12.0)) == g
      && HslChannel(l, d / 2.0, JsRemainder(4.0 + (H / 6.0) * 12.0, 12.0)) == b
  {
    if g >= b { SegmentRedGreenAbove(r, g, b, min, d, l, H); } else { SegmentRedBlueAbove(r, g, b, min, d, l, H); }
  }

  lemma SegmentRedGreenAbove(r: real, g: real, b: real, min: real, d: real, l: real, H: real)
    requires min == Min3(r, g, b) && 0.0 <= min < r && b <= g <= r
    requires d == r - min && l == (min + r) / 2.0 && H == (g - b) / d
    ensures HslChannel(l, d / 2.0, JsRemainder(0.0 + (H / 6.0) * 12.0, 12.0)) == r
      && HslChannel(l, d / 2.0, JsRemainder(8.0 + (H / 6.0) * 12.0, 12.0)) == g
      && HslChannel(l, d / 2.0, JsRemainder(4.0 + (H / 6.0) * 12.0, 12.0)) == b
  {
    QuotientWithin(g - b, d);
    var k0 := JsRemainder(0.0 + (H / 6.0) * 12.0, 12.0);
    var k8 := JsRemainder(8.0 + (H / 6.0) * 12.0, 12.0);
    var k4 := JsRemainder(4.0 + (H / 6.0) * 12.0, 12.0);
    Phase(0.0, H);
    Phase(8.0, H);
    Phase(4.0, H);
    assert min == b;
    ChannelLow(l, d / 2.0, k0);
    ChannelFallingAt(l, d, g - b, 8.0, k8);
    ChannelHigh(l, d / 2.0, k4);
  }


  lemma SegmentRedBlueAbove(r: real, g: real, b: real, min: real, d: real, l: real, H: real)
    requires min == Min3(r, g, b) && 0.0 <= min && g < b <= r
    requires d == r - min && l == (min + r) / 2.0 && H == (g - b) / d + 6.0
    ensures HslChannel(l, d / 2.0, JsRemainder(0.0 + (H / 6.0) * 12.0, 12.0)) == r
      && HslChannel(l, d / 2.0, JsRemainder(8.0 + (H / 6.0) * 12.0, 12.0)) == g
      && HslChannel(l, d / 2.0, JsRemainder(4.0 + (H / 6.0) * 12.0, 12.0)) == b
  {
    QuotientWithin(g - b, d);
    var k0 := JsRemainder(0.0 + (H / 6.0) * 12.0, 12.0);
    var k8 := JsRemainder(8.0 + (H / 6.0) * 12.0, 12.0);
    var k4 := JsRemainder(4.0 + (H / 6.0) * 12.0, 12.0);
    Phase(0.0, H);
    Phase(8.0, H);
    Phase(4.0, H);
    assert min == g;
    ChannelLow(l, d / 2.0, k0);
    ChannelHigh(l, d / 2.0, k8);
    ChannelRisingAt(l, d, g - b, 4.0, k4);
  }


  /** The three channels rebuilt from the hue segment where green is the maximum. */
  lemma SegmentGreen(r: real, g: real, b: real, min: real, d: real, l: real, H: real)
    requires min == Min3(r, g, b) && 0.0 <= min && r < g && b <= g
    requires d == g - min && l == (min + g) / 2.0 && H == (b - r) / d + 2.0
    ensures HslChannel(l, d / 2.0, JsRemainder(0.0 + (H / 6.0) * 12.0, 12.0)) == r
      && HslChannel(l, d / 2.0, JsRemainder(8.0 + (H / 6.0) * 12.0, 12.0)) == g
      && HslChannel(l, d / 2.0, JsRemainder(4.0 + (H / 6.0) * 12.0, 12.0)) == b
  {
    if b >= r { SegmentGreenBlueAbove(r, g, b, min, d, l, H); } else { SegmentGreenRedAbove(r, g, b, min, d, l, H); }
  }

  lemma SegmentGreenBlueAbove(r: real, g: real, b: real, min: real, d: real, l: real, H: real)
    requires min == Min3(r, g, b) && 0.0 <= min && r <= b <= g && r < g
    requires d == g - min && l == (min + g) / 2.0 && H == (b - r) / d + 2.0
    ensures HslChannel(l, d / 2.0, JsRemainder(0.0 + (H / 6.0) * 12.0, 12.0)) == r
      && HslChannel(l, d / 2.0, JsRemainder(8.0 + (H / 6.0) * 12.0, 12.0)) == g
      && HslChannel(l, d / 2.0, JsRemainder(4.0 + (H / 6.0) * 12.0, 12.0)) == b
  {
    QuotientWithin(b - r, d);
    var k0 := JsRemainder(0.0 + (H / 6.0) * 12.0, 12.0);
    var k8 := JsRemainder(8.0 + (H / 6.0) * 12.0, 12.0);
    var k4 := JsRemainder(4.0 + (H / 6.0) * 12.0, 12.0);
    Phase(0.0, H);
    Phase(8.0, H);
    Phase(4.0, H);
    assert min == r;
    ChannelHigh(l, d / 2.0, k0);
    ChannelLow(l, d / 2.0, k8);
    ChannelFallingAt(l, d, b - r, 8.0, k4);
  }


  lemma SegmentGreenRedAbove(r: real, g: real, b: real, min: real, d: real, l: real, H: real)
    requires min == Min3(r, g, b) && 0.0 <= min && b < r < g
    requires d == g - min && l == (min + g) / 2.0 && H == (b - r) / d + 2.0
    ensures HslChannel(l, d / 2.0, JsRemainder(0.0 + (H / 6.0) * 12.0, 12.0)) == r
      && HslChannel(l, d / 2.0, JsRemainder(8.0 + (H / 6.0) * 12.0, 12.0)) == g
      && HslChannel(l, d / 2.0, JsRemainder(4.0 + (H / 6.0) * 12.0, 12.0)) == b
  {
    QuotientWithin(b - r, d);
    var k0 := JsRemainder(0.0 + (H / 6.0) * 12.0, 12.0);
    var k8 := JsRemainder(8.0 + (H / 6.0) * 12.0, 12.0);
    var k4 := JsRemainder(4.0 + (H / 6.0) * 12.0, 12.0);
    Phase(0.0, H);
    Phase(8.0, H);
    Phase(4.0, H);
    assert min == b;
    ChannelRisingAt(l, d, b - r, 4.0, k0);
    ChannelLow(l, d / 2.0, k8);
    ChannelHigh(l, d / 2.0, k4);
  }


  /** The three channels rebuilt from the hue segment where blue is the maximum. */
  lemma SegmentBlue(r: real, g: real, b: real, min: real, d: real, l: real, H: real)
    requires min == Min3(r, g, b) && 0.0 <= min && r < b && g < b
    requires d == b - min && l == (min + b) / 2.0 && H == (r - g) / d + 4.0
    ensures HslChannel(l, d / 2.0, JsRemainder(0.0 + (H / 6.0) * 12.0, 12.0)) == r
      && HslChannel(l, d / 2.0, JsRemainder(8.0 + (H / 6.0) * 12.0, 12.0)) == g
      && HslChannel(l, d / 2.0, JsRemainder(4.0 + (H / 6.0) * 12.0, 12.0)) == b
  {
    if r >= g { SegmentBlueRedAbove(r, g, b, min, d, l, H); } else { SegmentBlueGreenAbove(r, g, b, min, d, l, H); }
  }

  lemma SegmentBlueRedAbove(r: real, g: real, b: real, min: real, d: real, l: real, H: real)
    requires min == Min3(r, g, b) && 0.0 <= min && g <= r < b
    requires d == b - min && l == (min + b) / 2.0 && H == (r - g) / d + 4.0
    ensures HslChannel(l, d / 2.0, JsRemainder(0.0 + (H / 6.0) * 12.0, 12.0)) == r
      && HslChannel(l, d / 2.0, JsRemainder(8.0 + (H / 6.0) * 12.0, 12.0)) == g
      && HslChannel(l, d / 2.0, JsRemainder(4.0 + (H / 6.0) * 12.0, 12.0)) == b
  {
    QuotientWithin(r - g, d);
    var k0 := JsRemainder(0.0 + (H / 6.0) * 12.0, 12.0);
    var k8 := JsRemainder(8.0 + (H / 6.0) * 12.0, 12.0);
    var k4 := JsRemainder(4.0 + (H / 6.0) * 12.0, 12.0);
    Phase(0.0, H);
    Phase(8.0, H);
    Phase(4.0, H);
    assert min == g;
    ChannelFallingAt(l, d, r - g, 8.0, k0);
    ChannelHigh(l, d / 2.0, k8);
    ChannelLow(l, d / 2.0, k4);
  }


  lemma SegmentBlueGreenAbove(r: real, g: real, b: real, min: real, d: real, l: real, H: real)
    requires min == Min3(r, g, b) && 0.0 <= min && r < g < b
    requires d == b - min && l == (min + b) / 2.0 && H == (r - g) / d + 4.0
    ensures HslChannel(l, d / 2.0, JsRemainder(0.0 + (H / 6.0) * 12.0, 12.0)) == r
      && HslChannel(l, d / 2.0, JsRemainder(8.0 + (H / 6.0) * 12.0, 12.0)) == g
      && HslChannel(l, d / 2.0, JsRemainder(4.0 + (H / 6.0) * 12.0, 12.0)) == b
  {
    QuotientWithin(r - g, d);
    var k0 := JsRemainder(0.0 + (H / 6.0) * 12.0, 12.0);
    var k8 := JsRemainder(8.0 + (H / 6.0) * 12.0, 12.0);
    var k4 := JsRemainder(4.0 + (H / 6.0) * 12.0, 12.0);
    Phase(0.0, H);
    Phase(8.0, H);
    Phase(4.0, H);
    assert min == r;
    ChannelHigh(l, d / 2.0, k0);
    ChannelRisingAt(l, d, r - g, 4.0, k8);
    ChannelLow(l, d / 2.0, k4);
  }


  lemma RgbToHslWhite()
    ensures RgbToHsl(RGB(1.0, 1.0, 1.0)) == HSL(0.0, 0.0, 1.0)
  {
  }

  // ---------------------------------------------------------------------------
  // HSV to RGB (the "alternative" formula)

  /** The shared HSV channel formula for value `v`, chroma `a` and phase `k` in [0, 6). */
  function HsvChannel(v: real, a: real, k: real): real
  {
    v - a * Max(0.0, Min3(k, 4.0 - k, 1.0))
  }

  /** One RGB channel of an HSV colour before the final clamp; `n` is the
      channel's phase offset (red 5, green 3, blue 1). */
  function HsvRawComponent(c: HSV, n: real): real
  {
    HsvChannel(c.value, HsvChroma(c.saturation, c.value), JsRemainder(n + c.hue * 6.0, 6.0))
  }

  /** The factor `a` of the HSV formula, the chroma: saturation times value. */
  function HsvChroma(s: real, v: real): real
  {
    s * v
  }

  function HsvToRgb(c: HSV): (r: RGB)
    ensures c.saturation == 0.0 ==> r.red == r.green == r.blue == c.value
  {
    HsvGreyChannel(c, 5.0);
    HsvGreyChannel(c, 3.0);
    HsvGreyChannel(c, 1.0);
    RGB(NormalizedComponentOf(HsvRawComponent(c, 5.0)),
        NormalizedComponentOf(HsvRawComponent(c, 3.0)),
        NormalizedComponentOf(HsvRawComponent(c, 1.0)))
  }

  /** With saturation 0 every channel formula gives the value. */
  lemma HsvGreyChannel(c: HSV, n: real)
    ensures c.saturation == 0.0 ==> HsvRawComponent(c, n) == c.value
  {
    if c.saturation == 0.0 {
      assert HsvChroma(c.saturation, c.value) == 0.0;
    }
  }

  lemma HsvChannelInRange(v: real, a: real, k: real)
    requires 0.0 <= a <= v
    ensures 0.0 <= HsvChannel(v, a, k) <= v
  {
    var f := Max(0.0, Min3(k, 4.0 - k, 1.0));
    var p := a * f;
    ScaleDown(f, a);
    assert HsvChannel(v, a, k) == v - p;
  }

  /** Each HSV channel formula lies between 0 and the value, so the clamp never changes it. */
  lemma HsvRawComponentInRange(c: HSV, n: real)
    ensures 0.0 <= HsvRawComponent(c, n) <= c.value
  {
    var a := c.saturation * c.value;
    ScaleDown(c.saturation, c.value);
    assert HsvChroma(c.saturation, c.value) == a;
    HsvChannelInRange(c.value, a, JsRemainder(n + c.hue * 6.0, 6.0));
  }

  lemma HsvToRgbUnclamped(c: HSV)
    ensures HsvToRgb(c).red == HsvRawComponent(c, 5.0)
    ensures HsvToRgb(c).green == HsvRawComponent(c, 3.0)
    ensures HsvToRgb(c).blue == HsvRawComponent(c, 1.0)
  {
    HsvRawComponentInRange(c, 5.0);
    HsvRawComponentInRange(c, 3.0);
    HsvRawComponentInRange(c, 1.0);
  }

  lemma HsvWhite()
    ensures HsvToRgb(HSV(0.0, 0.0, 1.0)) == RGB(1.0, 1.0, 1.0)
  {
  }

  lemma HsvWhite24()
    ensures RgbAsRgb24(HsvToRgb(HSV(0.0, 0.0, 1.0))) == RGB24(255, 255, 255)
  {
    HsvWhite();
    Rgb24White();
  }

  /** At hue 0 red carries the value and green and blue the value less the chroma. */
  lemma HsvHueZero(c: HSV)
    requires c.hue == 0.0
    ensures HsvToRgb(c).red == c.value
    ensures HsvToRgb(c).green == c.value - HsvChroma(c.saturation, c.value)
    ensures HsvToRgb(c).blue == c.value - HsvChroma(c.saturation, c.value)
  {
    HsvToRgbUnclamped(c);
    HsvPhaseAtHueZero(c, 5.0);
    HsvPhaseAtHueZero(c, 3.0);
    HsvPhaseAtHueZero(c, 1.0);
  }

  lemma HsvPureRed()
    ensures HsvToRgb(HSV(0.0, 1.0, 1.0)) == RGB(1.0, 0.0, 0.0)
  {
    HsvHueZero(HSV(0.0, 1.0, 1.0));
  }

  /** At hue 0 the phase of a channel is its offset. */
  lemma HsvPhaseAtHueZero(c: HSV, n: real)
    requires c.hue == 0.0 && 0.0 <= n < 6.0
    ensures HsvRawComponent(c, n) == HsvChannel(c.value, HsvChroma(c.saturation, c.value), n)
  {
    JsRemainderFacts(n + c.hue * 6.0, 6.0);
  }

  // ---------------------------------------------------------------------------
  // 24-bit RGB

  function RgbAsRgb24(c: RGB): (r: RGB24)
  {
    RGB24(Component8BitOf(c.red), Component8BitOf(c.green), Component8BitOf(c.blue))
  }

  /** The normalised colour of a 24-bit colour: each channel divided by 255. */
  function RgbFromRgb24(c: RGB24): (r: RGB)
    ensures r.red * 255.0 == c.red as real && r.green * 255.0 == c.green as real
            && r.blue * 255.0 == c.blue as real
  {
    RGB(NormalizedComponentOf(c.red as real / 255.0),
        NormalizedComponentOf(c.green as real / 255.0),
        NormalizedComponentOf(c.blue as real / 255.0))
  }

  /** Quantising `c / 255` gives `c` back: `floor(256 c / 255) == c` for
      c in 0..254, and 256 clamps to 255. */
  lemma Component8BitOfQuotient(c: Component8Bit)
    ensures Component8BitOf(c as real / 255.0) == c
  {
    var v := c as real / 255.0;
    if c < 255 {
      assert 256.0 * v == c as real + c as real / 255.0;
      assert c as real <= 256.0 * v < c as real + 1.0;
      assert v < 255.0 / 256.0;
    }
  }

  lemma Rgb24RoundTrip(x: RGB24)
    ensures RgbAsRgb24(RgbFromRgb24(x)) == x
  {
    Component8BitOfQuotient(x.red);
    Component8BitOfQuotient(x.green);
    Component8BitOfQuotient(x.blue);
  }

  /** Quantising a component to 8 bits and reading it back moves it by at most 1/256. */
  lemma ComponentQuantisation(v: NormalizedComponent)
    ensures -1.0 / 256.0 <= Component8BitOf(v) as real / 255.0 - v <= 1.0 / 256.0
  {
    var r := Component8BitOf(v) as real;
    if r < 255.0 {
      assert r <= 256.0 * v < r + 1.0;
      assert r / 255.0 - v == (256.0 * r - 255.0 * 256.0 * v) / (255.0 * 256.0);
    }
  }

  /** The 24-bit encoding of a colour, decoded again, is within 1/256 of it in every channel. */
  lemma Rgb24Quantisation(c: RGB)
    ensures var back := RgbFromRgb24(RgbAsRgb24(c));
      && -1.0 / 256.0 <= back.red - c.red <= 1.0 / 256.0
      && -1.0 / 256.0 <= back.green - c.green <= 1.0 / 256.0
      && -1.0 / 256.0 <= back.blue - c.blue <= 1.0 / 256.0
  {
    ComponentQuantisation(c.red);
    ComponentQuantisation(c.green);
    ComponentQuantisation(c.blue);
  }

  /** The other direction loses information: mid grey 0.5 comes back as 128/255. */
  lemma Rgb24RoundTripIsLossy()
    ensures RgbFromRgb24(RgbAsRgb24(RGB(0.5, 0.5, 0.5))) != RGB(0.5, 0.5, 0.5)
  {
    assert Component8BitOf(0.5) == 128;
  }

  lemma Rgb24Red()
    ensures RgbAsRgb24(RGB(1.0, 0.0, 0.0)) == RGB24(255, 0, 0)
  {
  }

  lemma Rgb24White()
    ensures RgbAsRgb24(RGB(1.0, 1.0, 1.0)) == RGB24(255, 255, 255)
  {
  }

  lemma RgbFromRgb24Red()
    ensures RgbFromRgb24(RGB24(255, 0, 0)) == RGB(1.0, 0.0, 0.0)
  {
  }

  // ---------------------------------------------------------------------------
  // The canonical string of a colour model

  /** `keys` can be the key order of a model object (what `Object.keys`
      returns): it lists each key of `color` exactly once. */
  predicate IsKeyOrder(color: NormalizedColorModel, keys: seq<string>)
  {
    && StringOrder.NoDuplicates(keys)
    && (forall k | k in keys :: k in color)
    && (forall k | k in color :: k in keys)
  }

  /** The members `"key":value` for `keys`, in that order and separated by
      commas; `quote` stands for JSON string quoting and `number` for JSON
      number formatting. */
  function Members(color: NormalizedColorModel, keys: seq<string>,
                   quote: string -> string, number: real -> string): string
    requires forall k | k in keys :: k in color
  {
    if keys == [] then ""
    else
      var member := quote(keys[0]) + ":" + number(color[keys[0]]);
      if |keys| == 1 then member else member + "," + Members(color, keys[1..], quote, number)
  }

  /** `JSON.stringify(color, Object.keys(color).sort())`: a JSON object with
      the members of `color` written in ascending key order. */
  function ColorAsStr(color: NormalizedColorModel, keys: seq<string>,
                      quote: string -> string, number: real -> string): string
    requires IsKeyOrder(color, keys)
  {
    StringOrder.SortKeepsDistinct(keys);
    "{" + Members(color, StringOrder.Sort(keys), quote, number) + "}"
  }

  /** The members are written for a sorted listing of exactly the model's
      keys, each key once. */
  lemma ColorAsStrSortedMembers(color: NormalizedColorModel, keys: seq<string>,
                                quote: string -> string, number: real -> string)
    requires IsKeyOrder(color, keys)
    ensures var sorted := StringOrder.Sort(keys);
      && StringOrder.Sorted(sorted) && IsKeyOrder(color, sorted)
      && ColorAsStr(color, keys, quote, number) == "{" + Members(color, sorted, quote, number) + "}"
  {
    StringOrder.SortKeepsDistinct(keys);
  }

  /** The string depends only on the components and their values, not on
      the order in which the object's keys were created. */
  lemma ColorAsStrOrderIndependent(color: NormalizedColorModel, keys1: seq<string>, keys2: seq<string>,
                                   quote: string -> string, number: real -> string)
    requires IsKeyOrder(color, keys1) && IsKeyOrder(color, keys2)
    ensures ColorAsStr(color, keys1, quote, number) == ColorAsStr(color, keys2, quote, number)
  {
    StringOrder.DistinctSameMultiset(keys1, keys2);
    StringOrder.SortIgnoresOrder(keys1, keys2);
  }

  /** In whatever order its keys were created, a model whose keys sort to
      `sorted` is written with its members in that order. */
  lemma SortedKeyOrder(color: NormalizedColorModel, keys: seq<string>, sorted: seq<string>,
                       quote: string -> string, number: real -> string)
    requires IsKeyOrder(color, keys) && IsKeyOrder(color, sorted) && StringOrder.Sorted(sorted)
    ensures ColorAsStr(color, keys, quote, number) == "{" + Members(color, sorted, quote, number) + "}"
  {
    StringOrder.DistinctSameMultiset(keys, sorted);
    StringOrder.SortIgnoresOrder(keys, sorted);
    StringOrder.SortOfSorted(sorted);
  }

  lemma ThreeMembers(color: NormalizedColorModel, a: string, b: string, c: string,
                     quote: string -> string, number: real -> string)
    requires a in color && b in color && c in color
    ensures Members(color, [a, b, c], quote, number)
            == quote(a) + ":" + number(color[a]) + "," + quote(b) + ":" + number(color[b])
               + "," + quote(c) + ":" + number(color[c])
  {
    var ma := quote(a) + ":" + number(color[a]);
    var mb := quote(b) + ":" + number(color[b]);
    var mc := quote(c) + ":" + number(color[c]);
    assert [a, b, c][1..] == [b, c];
    assert [b, c][1..] == [c];
    assert Members(color, [c], quote, number) == mc;
    assert Members(color, [b, c], quote, number) == mb + "," + mc;
    assert Members(color, [a, b, c], quote, number) == ma + "," + (mb + "," + mc);
  }

  /** Three distinct keys in ascending order. */
  lemma SortedThree(a: string, b: string, c: string)
    requires StringOrder.LexLe(a, b) && StringOrder.LexLe(b, c) && a != b && b != c && a != c
    ensures StringOrder.Sorted([a, b, c]) && StringOrder.NoDuplicates([a, b, c])
  {
    StringOrder.LexLeTransitive(a, b, c);
  }

  /** An HSL colour is written hue, luminosity, saturation. */
  lemma ColorAsStrHsl(c: HSL, keys: seq<string>, quote: string -> string, number: real -> string)
    requires IsKeyOrder(HslAsModel(c), keys)
    ensures ColorAsStr(HslAsModel(c), keys, quote, number)
            == "{" + (quote("hue") + ":" + number(c.hue)
                      + "," + quote("luminosity") + ":" + number(c.luminosity)
                      + "," + quote("saturation") + ":" + number(c.saturation)) + "}"
  {
    var m := HslAsModel(c);
    var sorted := ["hue", "luminosity", "saturation"];
    SortedThree("hue", "luminosity", "saturation");
    assert IsKeyOrder(m, sorted) by {
      assert forall k | k in m :: k in sorted;
    }
    SortedKeyOrder(m, keys, sorted, quote, number);
    ThreeMembers(m, "hue", "luminosity", "saturation", quote, number);
  }

  /** An HSV colour is written hue, saturation, value. */
  lemma ColorAsStrHsv(c: HSV, keys: seq<string>, quote: string -> string, number: real -> string)
    requires IsKeyOrder(HsvAsModel(c), keys)
    ensures ColorAsStr(HsvAsModel(c), keys, quote, number)
            == "{" + (quote("hue") + ":" + number(c.hue)
                      + "," + quote("saturation") + ":" + number(c.saturation)
                      + "," + quote("value") + ":" + number(c.value)) + "}"
  {
    var m := HsvAsModel(c);
    var sorted := ["hue", "saturation", "value"];
    SortedThree("hue", "saturation", "value");
    assert IsKeyOrder(m, sorted) by {
      assert forall k | k in m :: k in sorted;
    }
    SortedKeyOrder(m, keys, sorted, quote, number);
    ThreeMembers(m, "hue", "saturation", "value", quote, number);
  }

  /** An RGB colour is written blue, green, red. */
  lemma ColorAsStrRgb(c: RGB, keys: seq<string>, quote: string -> string, number: real -> string)
    requires IsKeyOrder(RgbAsModel(c), keys)
    ensures ColorAsStr(RgbAsModel(c), keys, quote, number)
            == "{" + (quote("blue") + ":" + number(c.blue)
                      + "," + quote("green") + ":" + number(c.green)
                      + "," + quote("red") + ":" + number(c.red)) + "}"
  {
    var m := RgbAsModel(c);
    var sorted := ["blue", "green", "red"];
    SortedThree("blue", "green", "red");
    assert IsKeyOrder(m, sorted) by {
      assert forall k | k in m :: k in sorted;
    }
    SortedKeyOrder(m, keys, sorted, quote, number);
    ThreeMembers(m, "blue", "green", "red", quote, number);
  }
}
