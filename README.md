# color-compare colour core in Dafny

This project models the colour core of the color-compare web application:

- the colour value types: normalised components in [0, 1], 8-bit components, and the HSL, HSV, RGB and 24-bit RGB models, together with the string-keyed colour model that the first three (HSL, HSV and RGB) embed into; 24-bit RGB does not embed into it, because its values are 8-bit;
- the conversions between them: HSL to RGB, RGB to HSL, HSV to RGB, and RGB to 24-bit RGB and back;
- the canonical string form of a colour model;
- the two canvas routines that work on pixel buffers: painting the hue/saturation gradient into a fresh `ImageData`, and averaging the pixels of an `ImageData`.

Real numbers stand in for JavaScript numbers. JavaScript's truncating `%` is written out explicitly (`Color.JsRemainder`).

Modules:

- `ColorModels` (`color_models.dfy`) holds the types and their embeddings into the string-keyed model.
- `StringOrder` (`strings.dfy`) holds the default string sort used by `color_as_str`.
- `Color` (`color.dfy`) holds the conversions.
- `Canvas` (`canvas.dfy`) holds `ImageData` as a class over a mutable byte array, with the gradient and averaging methods.

The averaging routine has a bound error in its loop. `Canvas.GetAveragePixel` models it as written, and `Canvas.GetAveragePixelOfAllPixels` models the evident intent (see "## Findings").

## Model

| member | source | states |
|---|---|---|
| ColorModels.HslAsModel | src/models/color.ts:24-28 | an HSL colour viewed as a colour model has exactly the keys hue, saturation and luminosity |
| ColorModels.HsvAsModel | src/models/color.ts:34-38 | an HSV colour viewed as a colour model has exactly the keys hue, saturation and value |
| ColorModels.RgbAsModel | src/models/color.ts:43-47 | an RGB colour viewed as a colour model has exactly the keys red, green and blue |
| ColorModels.ModelAsHsl | src/models/color.ts:16-28 | a colour model has an HSL view exactly when it has the three HSL keys, and the view carries their values |
| ColorModels.ModelAsHsv | src/models/color.ts:16-18 | a colour model has an HSV view exactly when it has the three HSV keys, and the view carries their values |
| ColorModels.ModelAsRgb | src/models/color.ts:16-18 | a colour model has an RGB view exactly when it has the three RGB keys, and the view carries their values |
| ColorModels.HslModelRoundTrip | src/models/color.ts:16-28 | embedding an HSL colour and viewing it as HSL gives it back; a model with exactly the HSL keys is the embedding of its view |
| ColorModels.HsvModelRoundTrip | src/models/color.ts:34-38 | the same round trip for HSV |
| ColorModels.RgbModelRoundTrip | src/models/color.ts:43-47 | the same round trip for RGB |
| StringOrder.LexLeReflexive | src/modules/color.ts:142 | the string order used by `sort` is reflexive |
| StringOrder.LexLeTotal | src/modules/color.ts:142 | any two strings are comparable |
| StringOrder.LexLeAntisymmetric | src/modules/color.ts:142 | strings that sort no later than each other are equal |
| StringOrder.LexLeTransitive | src/modules/color.ts:142 | the string order is transitive |
| StringOrder.SortedCons | src/modules/color.ts:142 | a string that precedes every element of a sorted sequence can go in front of it |
| StringOrder.HeadBelowInserted | src/modules/color.ts:142 | the head of a sorted sequence precedes everything in its tail with a later string inserted |
| StringOrder.Insert | src/modules/color.ts:142 | inserting into a sorted sequence keeps it sorted and adds exactly that element |
| StringOrder.Sort | src/modules/color.ts:142 | sorting gives an ascending permutation of the input |
| StringOrder.SortedUnique | src/modules/color.ts:142 | two sorted sequences with the same elements are equal |
| StringOrder.SameHead | src/modules/color.ts:142 | two non-empty sorted sequences with the same elements start with the same string |
| StringOrder.SortIgnoresOrder | src/modules/color.ts:142 | two orderings of the same keys sort to the same sequence |
| StringOrder.SortKeepsDistinct | src/modules/color.ts:142 | sorting distinct keys keeps them distinct, keeps the length and keeps the membership |
| StringOrder.DistinctSameMultiset | src/modules/color.ts:142 | two duplicate-free key lists with the same members are orderings of each other |
| StringOrder.SortOfSorted | src/modules/color.ts:142 | sorting a sorted list leaves it unchanged |
| StringOrder.RepeatCountsTwo | src/modules/color.ts:142 | a string at two positions occurs at least twice |
| StringOrder.DistinctCountsOne | src/modules/color.ts:142 | a duplicate-free key list holds each key at most once |
| Color.Trunc | src/modules/color.ts:36 | rounds toward zero, the rounding that JavaScript's `%` uses |
| Color.JsRemainderFacts | src/modules/color.ts:36 | JavaScript `%` by 6 or 12 takes the sign of the dividend, lies strictly within the divisor, and is the identity (or one subtraction) on [0, m) (or [m, 2m)) |
| Color.NormalizedComponentOf | src/modules/color.ts:13-15 | clamps to [0, 1]: keeps values inside, sends lower values to 0 and higher values to 1 |
| Color.NormalizedComponentIdempotent | src/modules/color.ts:13-15 | clamping twice is the same as clamping once |
| Color.Component8BitOf | src/modules/color.ts:21-24 | below 255 the result is the floor of 256 times the value; the result is 255 exactly when the value is at least 255/256 |
| Color.Component8BitOfOne | src/modules/color.ts:21-24 | full intensity 1.0 maps to 255 (the 256 scale is capped) |
| Color.HslToRgb | src/modules/color.ts:32-46 | with saturation 0 all three channels equal the luminosity |
| Color.GreyChannel | src/modules/color.ts:33-38 | with saturation 0 every channel formula gives the luminosity |
| Color.ChromaFactorBounds | src/modules/color.ts:33 | the chroma factor lies between 0 and min(l, 1 - l) |
| Color.HslChannelInRange | src/modules/color.ts:37 | the channel formula stays in [0, 1] whenever the chroma factor is at most min(l, 1 - l) |
| Color.HslRawComponentInRange | src/modules/color.ts:33-38 | every HSL channel lies in [0, 1] before the clamp |
| Color.HslToRgbUnclamped | src/modules/color.ts:35-45 | the final clamp in `hsl_to_rgb` never changes a channel: red, green and blue are the raw formula at phases 0, 8 and 4 |
| Color.HslHueWraps | src/modules/color.ts:36 | hue 1.0 and hue 0.0 give the same RGB colour |
| Color.HslPhaseWraps | src/modules/color.ts:36 | hue 1.0 and hue 0.0 give the same raw channel at every phase in [0, 12) |
| Color.HslPureRed | src/modules/color.ts:32-46 | HSL(0, 1, 0.5) is pure red |
| Color.HslPureRed24 | src/modules/color.ts:130-136 | HSL(0, 1, 0.5) encodes to RGB24(255, 0, 0) |
| Color.HslPureGreen | src/modules/color.ts:32-46 | HSL(1/3, 1, 0.5) is pure green |
| Color.RgbToHslStage | src/modules/color.ts:57-79 | the luminosity is the mean of the largest and smallest channel |
| Color.RgbToHsl | src/modules/color.ts:56-102 | the luminosity is the mean of max and min; an achromatic colour gets hue 0 and saturation 0 |
| Color.QuotientWithin | src/modules/color.ts:69-75 | proof helper for the hue bounds: a channel difference divided by the chroma lies in [-1, 1] with the sign of the difference |
| Color.RgbToHslStageBounds | src/modules/color.ts:63-79 | for every RGB input the computed saturation lies in [0, 1] and the hue in [0, 1) |
| Color.RgbToHslAdjustments | src/modules/color.ts:84-101 | the negative-saturation branch, the hue wrap and the output clamps never change anything; only the hue of near-grey colours is reset to 0 |
| Color.HslRgbRoundTrip | src/modules/color.ts:32-102 | converting RGB to HSL and back gives the colour back, for grey colours and for colours whose saturation exceeds 1e-5 |
| Color.ChromaticParts | src/modules/color.ts:63-95 | for a chromatic colour the HSL hue is the segment hue over 6, the luminosity is (min + max) / 2, and saturation times min(l, 1 - l) is half the chroma |
| Color.StageHue | src/modules/color.ts:67-78 | the first-stage hue of a chromatic colour is its segment hue divided by 6 |
| Color.StageAboveEpsilon | src/modules/color.ts:84-101 | above the epsilon the adjustments keep the first-stage hue, saturation and luminosity |
| Color.StageChroma | src/modules/color.ts:64-65 | saturation times min(l, 1 - l) is half the chroma |
| Color.ChromaOfQuotient | src/modules/color.ts:64-65 | proof helper for `Color.StageChroma`: a saturation computed as x / min(l, 1 - l) has chroma factor x |
| Color.RebuildColour | src/modules/color.ts:33-45 | an HSL colour whose three channel formulas give the red, green and blue of `c` converts to `c` |
| Color.RebuildFromParts | src/modules/color.ts:33-45 | the HSL-to-RGB channels of a colour equal the channel formula at half the chroma |
| Color.RebuildChannel | src/modules/color.ts:33-37 | one channel of `hsl_to_rgb` written with half the chroma in place of the chroma factor |
| Color.SegmentChannels | src/modules/color.ts:67-76 | in each of the three hue segments, the channel formulas at phases 0, 8 and 4 reproduce red, green and blue |
| Color.QuotientTimes | src/modules/color.ts:69-78 | proof helper for the hue quotients, no source behaviour of its own: dividing by a non-zero number and multiplying back is the identity |
| Color.ChannelLow | src/modules/color.ts:37 | at phases up to 2 or from 10, the channel is l + a |
| Color.ChannelHigh | src/modules/color.ts:37 | at phases from 4 to 8, the channel is l - a |
| Color.ChannelRising | src/modules/color.ts:37 | at phases from 2 to 4, the channel is l - a(k - 3) |
| Color.ChannelFalling | src/modules/color.ts:37 | at phases from 8 to 10, the channel is l - a(9 - k) |
| Color.ChannelRisingAt | src/modules/color.ts:37 | a rising phase of 2x/d + c0 at chroma factor d/2 gives l - x - (c0 - 3)d/2, with the division cancelled |
| Color.ChannelFallingAt | src/modules/color.ts:37 | a falling phase of 2x/d + c0 at chroma factor d/2 gives l + x - (9 - c0)d/2 |
| Color.Phase | src/modules/color.ts:36 | the phase `(n + 12 * hue) % 12` is n + 2H, less 12 when that reaches 12 |
| Color.SegmentRed | src/modules/color.ts:68-69 | when red is the maximum, every channel is rebuilt from the segment hue |
| Color.SegmentRedGreenAbove | src/modules/color.ts:68-69 | the red-maximum segment with green at least blue |
| Color.SegmentRedBlueAbove | src/modules/color.ts:68-69 | the red-maximum segment with blue above green (the +6 case) |
| Color.SegmentGreen | src/modules/color.ts:71-72 | when green is the maximum, every channel is rebuilt from the segment hue |
| Color.SegmentGreenBlueAbove | src/modules/color.ts:71-72 | the green-maximum segment with blue at least red |
| Color.SegmentGreenRedAbove | src/modules/color.ts:71-72 | the green-maximum segment with red above blue |
| Color.SegmentBlue | src/modules/color.ts:74-75 | when blue is the maximum, every channel is rebuilt from the segment hue |
| Color.SegmentBlueRedAbove | src/modules/color.ts:74-75 | the blue-maximum segment with red at least green |
| Color.SegmentBlueGreenAbove | src/modules/color.ts:74-75 | the blue-maximum segment with green above red |
| Color.RgbToHslWhite | src/modules/color.ts:56-102 | white converts to HSL(0, 0, 1) |
| Color.HsvToRgb | src/modules/color.ts:109-123 | with saturation 0 all three channels equal the value |
| Color.HsvGreyChannel | src/modules/color.ts:110-115 | with saturation 0 every HSV channel formula gives the value |
| Color.HsvChannelInRange | src/modules/color.ts:114 | the HSV channel formula stays in [0, v] when the chroma is at most v |
| Color.HsvRawComponentInRange | src/modules/color.ts:110-115 | every HSV channel lies in [0, value] before the clamp |
| Color.HsvToRgbUnclamped | src/modules/color.ts:112-122 | the final clamp in `hsv_to_rgb` never changes a channel: red, green and blue are the raw formula at phases 5, 3 and 1 |
| Color.HsvWhite | src/modules/color.ts:109-123 | HSV(0, 0, 1) is white |
| Color.HsvWhite24 | src/modules/color.ts:130-136 | HSV(0, 0, 1) encodes to RGB24(255, 255, 255) |
| Color.HsvPhaseAtHueZero | src/modules/color.ts:113 | at hue 0 the phase of a channel is its offset |
| Color.HsvHueZero | src/modules/color.ts:109-123 | at hue 0 red is the value, and green and blue are the value less the chroma |
| Color.HsvPureRed | src/modules/color.ts:109-123 | HSV(0, 1, 1) is pure red |
| Color.RgbFromRgb24 | src/modules/color.ts:148-154 | each normalised channel is the 8-bit channel divided by 255 |
| Color.Component8BitOfQuotient | src/modules/color.ts:21-24 | encoding k/255 as 8 bits gives k back, for every k in [0, 255] |
| Color.Rgb24RoundTrip | src/modules/color.ts:130-154 | decoding a 24-bit colour and encoding it again gives it back |
| Color.ComponentQuantisation | src/modules/color.ts:21-24 | encoding a component as 8 bits and decoding it moves it by at most 1/256 |
| Color.Rgb24Quantisation | src/modules/color.ts:130-154 | encoding a colour as 24 bits and decoding it moves each channel by at most 1/256 |
| Color.Rgb24RoundTripIsLossy | src/modules/color.ts:130-154 | the encode-then-decode direction does not give every colour back: mid grey 0.5 does not survive |
| Color.Rgb24Red | src/modules/color.ts:130-136 | pure red encodes to RGB24(255, 0, 0) |
| Color.Rgb24White | src/modules/color.ts:130-136 | white encodes to RGB24(255, 255, 255) |
| Color.RgbFromRgb24Red | src/modules/color.ts:148-154 | RGB24(255, 0, 0) decodes to pure red |
| Color.ColorAsStrSortedMembers | src/modules/color.ts:141-143 | the string lists the members for a sorted, duplicate-free listing of exactly the model's keys |
| Color.ColorAsStrOrderIndependent | src/modules/color.ts:138-143 | two key orders of the same model give the same string |
| Color.SortedKeyOrder | src/modules/color.ts:141-143 | the string equals the members written in any sorted listing of the model's keys |
| Color.ThreeMembers | src/modules/color.ts:142 | three keys are written as three comma-separated `key:value` members |
| Color.SortedThree | src/modules/color.ts:142 | three strictly ascending keys form a sorted, duplicate-free list |
| Color.ColorAsStrHsl | src/modules/color.ts:141-143 | an HSL colour is written hue, luminosity, saturation, whatever its key order |
| Color.ColorAsStrHsv | src/modules/color.ts:141-143 | an HSV colour is written hue, saturation, value, whatever its key order |
| Color.ColorAsStrRgb | src/modules/color.ts:141-143 | an RGB colour is written blue, green, red, whatever its key order |
| Canvas.ImageData.constructor | src/modules/canvas.ts:14 | a new image of the given size has 4 bytes per pixel, all zero |
| Canvas.PixelBytes | src/modules/canvas.ts:28-31 | a pixel is four bytes in [0, 255] |
| Canvas.RowMajor | src/modules/canvas.ts:15-20 | every pixel, laid out in row-major order, has four bytes |
| Canvas.Flatten | src/modules/canvas.ts:15-33 | the concatenated bytes of n pixels are 4n long |
| Canvas.Gradient | src/modules/canvas.ts:13-35 | the gradient image has 4 bytes per pixel |
| Canvas.CreateHueSaturationGradient | src/modules/canvas.ts:13-35 | returns no image exactly when a dimension is 0; otherwise a fresh valid image of the given size whose bytes are the gradient |
| Canvas.PaintPixels | src/modules/canvas.ts:15-33 | after the row loop every pixel holds the colour of its row and column, and every byte is in [0, 255] |
| Canvas.PaintRow | src/modules/canvas.ts:18-32 | the column loop, given the rows above painted, leaves the whole row painted too and every byte after the row as it was |
| Canvas.PaintPixel | src/modules/canvas.ts:19-31 | pixel (row, col) is stored after the pixels before it, and the bytes after it do not change |
| Canvas.SetPixel | src/modules/canvas.ts:28-31 | the four writes replace bytes `offset` to `offset + 3` with red, green, blue and 255, and leave every other byte as it was |
| Canvas.PaintStep | src/modules/canvas.ts:20-31 | storing the colour of (row, col) at pixel number width * row + col extends the painted prefix by that pixel |
| Canvas.PaintedOneMore | src/modules/canvas.ts:20-31 | writing pixel n after n painted pixels gives n + 1 painted pixels |
| Canvas.PixelInside | src/modules/canvas.ts:20 | the offset of every pixel, plus 4, stays inside the buffer |
| Canvas.MultipleMonotone | src/modules/canvas.ts:20 | proof helper for the row offsets, no source behaviour of its own: row offsets grow with the row |
| Canvas.RowAndColumn | src/modules/canvas.ts:20 | the pixel number `width * row + col` determines its row and column |
| Canvas.MultipleBounds | src/modules/canvas.ts:20 | proof helper for `Canvas.RowAndColumn`, no source behaviour of its own: a non-zero multiple of the width is at least the width |
| Canvas.FlattenExtends | src/modules/canvas.ts:15-33 | painting more pixels never changes the ones already painted |
| Canvas.FlattenAt | src/modules/canvas.ts:20-31 | pixel p occupies bytes 4p to 4p + 3 |
| Canvas.GradientPixelAt | src/modules/canvas.ts:15-31 | pixel (row, col) lies inside the buffer and holds the 24-bit colour of its gradient HSL value, with alpha |
| Canvas.GradientOpaque | src/modules/canvas.ts:31 | every alpha byte of the gradient is 255 |
| Canvas.GradientColorExact | src/modules/canvas.ts:16-25 | hue is col/width, saturation is 1 - row/height (1 in the top row, never below 1/height), and luminosity is 0.5 |
| Canvas.GradientTopLeftRed | src/modules/canvas.ts:16-31 | the top-left pixel is opaque pure red |
| Canvas.ToUint8Clamp | src/modules/canvas.ts:88 | `Uint8ClampedArray` conversion: clamps to [0, 255] and rounds to the nearest integer, ties to even |
| Canvas.ToUint8ClampByte | src/modules/canvas.ts:88 | a byte is stored unchanged |
| Canvas.ClampedQuotient | src/modules/canvas.ts:88 | the stored mean is a byte |
| Canvas.Average | src/modules/canvas.ts:88 | the average pixel has four bytes in [0, 255] |
| Canvas.GetAveragePixel | src/modules/canvas.ts:77-89 | the loop as written sums only the first ceil(n/4) pixels and divides by n |
| Canvas.GetAveragePixelOfAllPixels | src/modules/canvas.ts:77-89 | the corrected loop sums every pixel and divides by n |
| Canvas.ChannelSumUniform | src/modules/canvas.ts:81-86 | over an image of identical pixels, a channel sum is the count times the channel value |
| Canvas.AverageOfUniformImage | src/modules/canvas.ts:73-89 | with the corrected bound, the average of an image of identical pixels is that pixel |
| Canvas.UniformChannelMean | src/modules/canvas.ts:88 | each channel of that average is the channel value |
| Canvas.MeanOfCopies | src/modules/canvas.ts:88 | proof helper for `Canvas.UniformChannelMean`, no source behaviour of its own: n copies of v divided by n is v |
| Canvas.ChannelSumPrefix | src/modules/canvas.ts:81-86 | a channel sum depends only on the pixels it visits |
| Canvas.AverageAsWrittenReadsFirstQuarter | src/modules/canvas.ts:79-81 | the average as written depends only on the first ceil(n/4) pixels |
| Canvas.AverageAsWrittenOfWhiteSquare | src/modules/canvas.ts:79-88 | as written, a 2x2 opaque white image averages to [64, 64, 64, 64]; with the corrected bound it averages to white |

## Left out

- Numbers are exact reals, not IEEE-754 doubles. Rounding error, NaN and Infinity are not modelled. In particular, `Color.HslPureGreen` and `Color.HslRgbRoundTrip` hold exactly, while double arithmetic may be off by rounding error; over the chain of operations in the round trip that error can be several units in the last place.
- `Color.HslRgbRoundTrip`: colours with saturation in (0, 1e-5] are excluded, because `rgb_to_hsl` resets their hue to 0 on purpose.
- `Color.JsRemainderFacts`: stated for the divisors 6 and 12 only, the two that the conversions use.
- `Color.Component8BitOf`: takes a normalised component, as its declared type says. The re-clamp of out-of-range numbers that JavaScript would let through is covered by `Color.NormalizedComponentOf`.
- `Color.JsRemainder` (src/modules/color.ts:36, the `%`): has no contract of its own. Its behaviour is stated by `Color.JsRemainderFacts` and `Color.Phase`.
- `Color.HslChannel` and `Color.HslRawComponent` (src/modules/color.ts:35-39, the inner `rgb_normalized_component`): have no contracts of their own. Their behaviour is stated by `Color.HslChannelInRange`, `Color.HslRawComponentInRange`, `Color.GreyChannel`, `Color.ChannelLow`, `Color.ChannelHigh`, `Color.ChannelRising`, `Color.ChannelFalling` and `Color.HslToRgbUnclamped`.
- `Color.SegmentHue` (src/modules/color.ts:67-76, the `switch` on the maximum channel): has no contract of its own. Its behaviour is stated by `Color.StageHue`, `Color.QuotientWithin`, `Color.RgbToHslStageBounds` and the segment lemmas `Color.SegmentRed`, `Color.SegmentGreen` and `Color.SegmentBlue`.
- `Color.HsvChannel` and `Color.HsvRawComponent` (src/modules/color.ts:112-116): have no contracts of their own. Their behaviour is stated by `Color.HsvChannelInRange`, `Color.HsvRawComponentInRange`, `Color.HsvGreyChannel`, `Color.HsvPhaseAtHueZero` and `Color.HsvToRgbUnclamped`.
- `Color.RgbAsRgb24`: has no contract of its own. Its behaviour is stated by `Color.Rgb24RoundTrip`, `Color.Rgb24Quantisation` and the concrete-colour lemmas.
- `Color.ColorAsStr`: `JSON.stringify`'s string quoting and number formatting become the parameters `quote` and `number`, and the result of `Object.keys` becomes the parameter `keys`. Only the key selection and order, the separators and the braces are modelled.
- `StringOrder.Sort`: compares Dafny characters (Unicode scalar values). JavaScript compares UTF-16 code units. The two orders agree on the ASCII key names that the colour models use.
- `Canvas.ImageData`: the pixel buffer is an `array<int>` whose bytes `Valid()` keeps in [0, 255]. The clamping done by `Uint8ClampedArray` on assignment is not needed, because only bytes are stored.
- `Canvas.CreateHueSaturationGradient`: `new ImageData` takes its sizes as WebIDL `unsigned long`, which truncates a fractional size, and throws when a size is 0 after that conversion. Dimensions are natural numbers here, so the truncation is not modelled; the zero case is modelled as no image (`null`). The browser's upper size limit is not modelled.
- `Canvas.GradientColor` (src/modules/canvas.ts:16-25): has no contract of its own. Its behaviour is stated by `Canvas.GradientColorExact`, `Canvas.GradientPixelAt` and `Canvas.GradientTopLeftRed`.
- `Canvas.ChannelSum` and `Canvas.AverageAsWritten` (src/modules/canvas.ts:81-88): have no contracts of their own. `Canvas.GetAveragePixel` is proved equal to `Canvas.AverageAsWritten`; their behaviour is stated by `Canvas.ChannelSumPrefix`, `Canvas.ChannelSumUniform`, `Canvas.AverageAsWrittenReadsFirstQuarter` and `Canvas.AverageAsWrittenOfWhiteSquare`.
- `Canvas.PaintPixels`: the per-pixel colour is passed in as a function of row and column, and `CreateHueSaturationGradient` passes the gradient colour. The column loop is `Canvas.PaintRow`, its body is `Canvas.PaintPixel`, and the four byte writes are `Canvas.SetPixel`. The source's nested loops therefore appear as four methods.
- `Canvas.GetAveragePixel`: the mean is an exact division followed by the ties-to-even byte conversion. The source divides in doubles, and the rounding of that double quotient is not modelled.
- `get_image_data_from_element` (src/modules/canvas.ts:43-70) is left out: it only creates a DOM canvas, draws an image and reads it back.
- The application entry point, the UI components and the build configuration do not take part in the colour computations and are left out. `json.JsonString` is modelled as a plain string, and `Tagged` as a subset type.

## Findings

| source | as written | input that shows it | evidently intended | confidence | as-written member | corrected member |
|---|---|---|---|---|---|---|
| src/modules/canvas.ts:81 | the loop runs while `pixel_index < number_of_pixels` and steps by 4 bytes, so it reads only the first ceil(n/4) pixels, yet divides by n | a 2x2 image of opaque white pixels averages to [64, 64, 64, 64] | loop over all `4 * number_of_pixels` bytes, so that white averages to [255, 255, 255, 255] | not executed | Canvas.AverageAsWrittenOfWhiteSquare | Canvas.AverageOfUniformImage |
