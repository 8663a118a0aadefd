/** The canvas helpers: the hue/saturation gradient image and the average
    pixel of an image, over a model of the browser's `ImageData`. */
module Canvas {
  import opened ColorModels
  import Color

  /** The browser's `ImageData`: `width` by `height` pixels stored row by row,
      four bytes per pixel (red, green, blue, alpha), in a clamped byte array. */
  class ImageData {
    const width: nat
    const height: nat
    const data: array<int>

    /** The browser never makes an empty image, and the byte array holds
        exactly four bytes per pixel, each in [0, 255]. */
    ghost predicate Valid()
      reads data
    {
      && width > 0 && height > 0
      && data.Length == 4 * (width * height)
      && forall i :: 0 <= i < data.Length ==> 0 <= data[i] <= 255
    }

    /** `new ImageData(width, height)`: a transparent black image. The browser
        throws for a zero width or height, so callers must not ask for one. */
    constructor (width: nat, height: nat)
      requires width > 0 && height > 0
      ensures this.width == width && this.height == height
      ensures Valid() && fresh(data)
      ensures forall i :: 0 <= i < data.Length ==> data[i] == 0
    {
      this.width := width;
      this.height := height;
      data := new int[4 * (width * height)](_ => 0);
    }
  }

  // ---------------------------------------------------------------------------
  // The hue/saturation gradient

  /** The colour of pixel (`row`, `col`): hue grows from left to right,
      saturation falls from top to bottom, luminosity is one half. */
  function GradientColor(width: nat, height: nat, row: nat, col: nat): HSL
    requires width > 0 && height > 0
  {
    HSL(Color.NormalizedComponentOf(col as real / width as real),
        Color.NormalizedComponentOf(1.0 - row as real / height as real),
        Color.NormalizedComponentOf(0.5))
  }

  /** The 24-bit colour of pixel (`row`, `col`). */
  function GradientRgb24(width: nat, height: nat, row: nat, col: nat): RGB24
    requires width > 0 && height > 0
  {
    Color.RgbAsRgb24(Color.HslToRgb(GradientColor(width, height, row, col)))
  }

  /** The four bytes a pixel of colour `c` is stored as: fully opaque. */
  function PixelBytes(c: RGB24): (s: seq<int>)
    ensures |s| == 4 && forall k :: 0 <= k < 4 ==> 0 <= s[k] <= 255
  {
    [c.red, c.green, c.blue, 255]
  }

  /** The four bytes of pixel (`row`, `col`) of the gradient. */
  function GradientPixel(width: nat, height: nat, row: nat, col: nat): seq<int>
    requires width > 0 && height > 0
  {
    PixelBytes(GradientRgb24(width, height, row, col))
  }

  /** The colour of every pixel of the gradient, as a function of row and column. */
  function GradientOf(width: nat, height: nat): (nat, nat) -> RGB24
    requires width > 0 && height > 0
  {
    (row: nat, col: nat) => GradientRgb24(width, height, row, col)
  }

  /** Pixel `p` of an image `width` pixels wide, counted row by row, is in
      row `p / width` and column `p % width`; `RowMajor` gives its bytes. */
  function RowMajor(colour: (nat, nat) -> RGB24, width: nat): (pixel: nat -> seq<int>)
    requires width > 0
    ensures forall p: nat :: |pixel(p)| == 4
  {
    var pixel := (p: nat) => PixelBytes(colour(p / width, p % width));
    assert forall p: nat :: pixel(p) == PixelBytes(colour(p / width, p % width));
    pixel
  }

  /** The bytes of pixels 0, 1, ..., `count - 1`, one after the other, where
      `pixel(p)` gives the four bytes of pixel `p`. */
  function Flatten(pixel: nat -> seq<int>, count: nat): (s: seq<int>)
    requires forall p: nat :: |pixel(p)| == 4
    ensures |s| == 4 * count
  {
    if count == 0 then [] else Flatten(pixel, count - 1) + pixel(count - 1)
  }

  /** All bytes of the gradient image, in the order of `ImageData.data`. */
  function Gradient(width: nat, height: nat): (s: seq<int>)
    requires width > 0 && height > 0
    ensures |s| == 4 * (width * height)
  {
    Flatten(RowMajor(GradientOf(width, height), width), width * height)
  }

  /** `create_hue_saturation_gradient`: a fresh image whose bytes are the
      gradient; `null` where the browser would throw, for an empty size. */
  method CreateHueSaturationGradient(width: nat, height: nat) returns (pixels: ImageData?)
    ensures pixels == null <==> width == 0 || height == 0
    ensures pixels != null ==>
      && fresh(pixels) && fresh(pixels.data) && pixels.Valid()
      && pixels.width == width && pixels.height == height
      && pixels.data[..] == Gradient(width, height)
  {
    if width == 0 || height == 0 {
      return null;
    }
    pixels := new ImageData(width, height);
    PaintPixels(pixels, GradientOf(width, height));
  }

  /** The outer loop of `create_hue_saturation_gradient`: row by row, each
      pixel (`row`, `col`) is given the colour `colour(row, col)` and alpha 255. */
  method PaintPixels(pixels: ImageData, colour: (nat, nat) -> RGB24)
    requires pixels.Valid()
    modifies pixels.data
    ensures pixels.Valid()
    ensures pixels.data[..] == Flatten(RowMajor(colour, pixels.width), pixels.width * pixels.height)
  {
    var row := 0;
    while row < pixels.height
      invariant 0 <= row <= pixels.height
      invariant pixels.Valid()
      invariant pixels.width * row <= pixels.width * pixels.height
      invariant pixels.data[..4 * (pixels.width * row)] == Flatten(RowMajor(colour, pixels.width), pixels.width * row)
    {
      MultipleMonotone(pixels.width, row + 1, pixels.height);
      assert pixels.width * row + pixels.width == pixels.width * (row + 1);
      PaintRow(pixels, colour, row, pixels.width * row);
      row := row + 1;
    }
  }

  /** The inner loop: the pixels of row `row`, left to right, which start at
      pixel number `first`. Every pixel before it is already painted, and
      afterwards the whole row is too. */
  method PaintRow(pixels: ImageData, colour: (nat, nat) -> RGB24, row: nat, first: nat)
    requires pixels.Valid() && first == pixels.width * row
    requires first + pixels.width <= pixels.width * pixels.height
    requires pixels.data[..4 * first] == Flatten(RowMajor(colour, pixels.width), first)
    modifies pixels.data
    ensures pixels.Valid()
    ensures pixels.data[..4 * (first + pixels.width)] == Flatten(RowMajor(colour, pixels.width), first + pixels.width)
    ensures pixels.data[4 * (first + pixels.width)..] == old(pixels.data[4 * (first + pixels.width)..])
  {
    var col := 0;
    while col < pixels.width
      invariant 0 <= col <= pixels.width
      invariant pixels.Valid()
      invariant pixels.data[..4 * (first + col)] == Flatten(RowMajor(colour, pixels.width), first + col)
      invariant pixels.data[4 * (first + col)..] == old(pixels.data[4 * (first + col)..])
    {
      PaintPixel(pixels, colour, row, col, first + col);
      col := col + 1;
    }
  }

  /** The body of the inner loop: pixel (`row`, `col`), number `n` in
      row-major order, is stored after the pixels before it. */
  method PaintPixel(pixels: ImageData, colour: (nat, nat) -> RGB24, row: nat, col: nat, n: nat)
    requires pixels.Valid() && col < pixels.width && n == pixels.width * row + col
    requires 4 * n + 4 <= pixels.data.Length
    requires pixels.data[..4 * n] == Flatten(RowMajor(colour, pixels.width), n)
    modifies pixels.data
    ensures pixels.Valid()
    ensures pixels.data[..4 * (n + 1)] == Flatten(RowMajor(colour, pixels.width), n + 1)
    ensures pixels.data[4 * (n + 1)..] == old(pixels.data[4 * (n + 1)..])
  {
    var c := colour(row, col);
    ghost var before := pixels.data[..];
    SetPixel(pixels, 4 * n, c);
    PaintStep(colour, pixels.width, row, col, n, c, before, pixels.data[..]);
  }

  /** The four stores of one pixel: colour `c` and alpha 255 from byte `offset` on. */
  method SetPixel(pixels: ImageData, offset: nat, c: RGB24)
    requires pixels.Valid() && offset + 4 <= pixels.data.Length
    modifies pixels.data
    ensures pixels.Valid()
    ensures pixels.data[..] == old(pixels.data[..])[..offset] + PixelBytes(c) + old(pixels.data[..])[offset + 4..]
  {
    pixels.data[offset + 0] := c.red;
    pixels.data[offset + 1] := c.green;
    pixels.data[offset + 2] := c.blue;
    pixels.data[offset + 3] := 255;
  }

  /** Storing pixel (`row`, `col`), number `n` in row-major order, after the
      pixels before it extends the painted prefix by that pixel. */
  lemma PaintStep(colour: (nat, nat) -> RGB24, width: nat, row: nat, col: nat, n: nat, c: RGB24,
                  before: seq<int>, after: seq<int>)
    requires col < width && n == width * row + col && 4 * n + 4 <= |before|
    requires c == colour(row, col)
    requires before[..4 * n] == Flatten(RowMajor(colour, width), n)
    requires after == before[..4 * n] + PixelBytes(c) + before[4 * n + 4..]
    ensures after[..4 * (n + 1)] == Flatten(RowMajor(colour, width), n + 1)
  {
    RowAndColumn(width, row, col);
    var pixel := RowMajor(colour, width);
    assert pixel(n) == PixelBytes(colour(row, col));
    PaintedOneMore(pixel, n, before, after);
  }

  /** Appending the bytes of pixel `n` to the painted bytes of pixels 0..n-1
      gives the painted bytes of pixels 0..n. */
  lemma PaintedOneMore(pixel: nat -> seq<int>, n: nat, before: seq<int>, after: seq<int>)
    requires forall p: nat :: |pixel(p)| == 4
    requires 4 * n + 4 <= |before|
    requires before[..4 * n] == Flatten(pixel, n)
    requires after == before[..4 * n] + pixel(n) + before[4 * n + 4..]
    ensures 4 * (n + 1) <= |after| && after[..4 * (n + 1)] == Flatten(pixel, n + 1)
  {
    assert after[..4 * (n + 1)] == before[..4 * n] + pixel(n);
  }

  /** The last byte of pixel (`row`, `col`) lies inside the image. */
  lemma PixelInside(width: nat, height: nat, row: nat, col: nat)
    requires row < height && col < width
    ensures 4 * (width * row + col) + 4 <= 4 * (width * height)
  {
    assert width * row + width == width * (row + 1);
    MultipleMonotone(width, row + 1, height);
  }

  /** `w * a <= w * b` for `a <= b`. */
  lemma MultipleMonotone(w: nat, a: nat, b: nat)
    ensures a <= b ==> w * a <= w * b
  {
    assert w * b - w * a == w * (b - a);
  }

  /** Euclidean division of `width * row + col` by `width` gives back `row` and `col`. */
  lemma RowAndColumn(width: nat, row: nat, col: nat)
    requires col < width
    ensures (width * row + col) / width == row && (width * row + col) % width == col
  {
    var p := width * row + col;
    var q := p / width;
    var r := p % width;
    assert width * (q - row) == col - r;
    MultipleBounds(width, q - row);
  }

  /** A non-zero multiple of a positive `w` is at least `w` away from 0. */
  lemma MultipleBounds(w: int, m: int)
    requires w > 0
    ensures m >= 1 ==> w * m >= w
    ensures m <= -1 ==> w * m <= -w
  {
    assert w * m - w == w * (m - 1);
    assert w * m + w == w * (m + 1);
  }

  /** A longer run of pixels starts with every shorter one. */
  lemma {:induction false} FlattenExtends(pixel: nat -> seq<int>, m: nat, n: nat)
    requires forall p: nat :: |pixel(p)| == 4
    requires m <= n
    ensures Flatten(pixel, n)[..4 * m] == Flatten(pixel, m)
  {
    if m < n {
      FlattenExtends(pixel, m, n - 1);
      var shorter := Flatten(pixel, n - 1);
      assert Flatten(pixel, n)[..4 * (n - 1)] == shorter;
      assert Flatten(pixel, n)[..4 * m] == shorter[..4 * m];
    }
  }

  /** The four bytes of pixel `p` sit from offset `4 * p` on. */
  lemma FlattenAt(pixel: nat -> seq<int>, p: nat, n: nat)
    requires forall q: nat :: |pixel(q)| == 4
    requires p < n
    ensures Flatten(pixel, n)[4 * p..4 * p + 4] == pixel(p)
  {
    FlattenExtends(pixel, p + 1, n);
    var s := Flatten(pixel, n);
    assert s[..4 * (p + 1)] == Flatten(pixel, p) + pixel(p);
    assert s[4 * p..4 * p + 4] == s[..4 * (p + 1)][4 * p..];
  }

  /** Pixel (`row`, `col`) of the gradient occupies the four bytes from
      `4 * (width * row + col)`, which lie inside the image. */
  lemma GradientPixelAt(width: nat, height: nat, row: nat, col: nat)
    requires width > 0 && height > 0 && row < height && col < width
    ensures 4 * (width * row + col) + 4 <= 4 * (width * height)
    ensures Gradient(width, height)[4 * (width * row + col)..4 * (width * row + col) + 4]
            == GradientPixel(width, height, row, col)
  {
    var p := width * row + col;
    PixelInside(width, height, row, col);
    RowAndColumn(width, row, col);
    FlattenAt(RowMajor(GradientOf(width, height), width), p, width * height);
  }

  /** Every pixel of the gradient is opaque. */
  lemma GradientOpaque(width: nat, height: nat, i: nat)
    requires width > 0 && height > 0 && i < 4 * (width * height) && i % 4 == 3
    ensures Gradient(width, height)[i] == 255
  {
    var p := i / 4;
    var row := p / width;
    var col := p % width;
    assert p == width * row + col;
    MultipleMonotone(width, height, row);
    GradientPixelAt(width, height, row, col);
    var g := Gradient(width, height);
    assert g[i] == g[4 * p..4 * p + 4][3];
  }

  /** Inside the image no clamp changes a coordinate: the hue is the column's
      fraction of the width, the saturation one minus the row's fraction of the
      height, so it is 1 on the top row and never 0. */
  lemma GradientColorExact(width: nat, height: nat, row: nat, col: nat)
    requires width > 0 && height > 0 && row < height && col < width
    ensures GradientColor(width, height, row, col).hue == col as real / width as real
    ensures GradientColor(width, height, row, col).saturation == 1.0 - row as real / height as real
    ensures GradientColor(width, height, row, col).luminosity == 0.5
    ensures row == 0 ==> GradientColor(width, height, row, col).saturation == 1.0
    ensures GradientColor(width, height, row, col).saturation >= 1.0 / height as real
  {
    var h := height as real;
    var y := row as real;
    assert y <= h - 1.0;
    assert y / h <= (h - 1.0) / h;
    assert 0.0 <= col as real / width as real < 1.0;
  }

  /** The top-left pixel is opaque pure red. */
  lemma GradientTopLeftRed(width: nat, height: nat)
    requires width > 0 && height > 0
    ensures GradientPixel(width, height, 0, 0) == [255, 0, 0, 255]
  {
    assert GradientColor(width, height, 0, 0) == HSL(0.0, 1.0, 0.5);
    Color.HslPureRed24();
  }

  // ---------------------------------------------------------------------------
  // The average pixel

  /** A number stored into a `Uint8ClampedArray`: clamped to [0, 255] and
      rounded to the nearest integer, ties to the even one. */
  function ToUint8Clamp(x: real): (r: int)
    ensures 0 <= r <= 255
    ensures x <= 0.0 ==> r == 0
    ensures x >= 255.0 ==> r == 255
    ensures 0.0 <= x <= 255.0 ==> r as real - 0.5 <= x <= r as real + 0.5
    ensures 0.0 <= x <= 255.0 && (x == r as real - 0.5 || x == r as real + 0.5) ==> r % 2 == 0
  {
    if x <= 0.0 then 0
    else if x >= 255.0 then 255
    else
      var f := x.Floor;
      var fraction := x - f as real;
      if fraction < 0.5 then f
      else if fraction > 0.5 then f + 1
      else if f % 2 == 0 then f else f + 1
  }

  /** A byte value is stored unchanged. */
  lemma ToUint8ClampByte(b: int)
    requires 0 <= b <= 255
    ensures ToUint8Clamp(b as real) == b
  {
  }

  /** `sum / count` stored into a `Uint8ClampedArray`; for a count of 0 the
      quotient is NaN (the sum is then 0 too), which is stored as 0. */
  function ClampedQuotient(sum: int, count: nat): (r: int)
    ensures 0 <= r <= 255
  {
    if count == 0 then 0 else ToUint8Clamp(sum as real / count as real)
  }

  /** The sum of channel `c` over the first `count` pixels of `data`. */
  function ChannelSum(data: seq<int>, c: nat, count: nat): int
    requires c < 4 && 4 * count <= |data|
  {
    if count == 0 then 0 else ChannelSum(data, c, count - 1) + data[4 * (count - 1) + c]
  }

  /** The four channel sums over the first `visited` pixels, each divided by
      `pixels` and stored into a `Uint8ClampedArray`. */
  function Average(data: seq<int>, visited: nat, pixels: nat): (r: seq<int>)
    requires 4 * visited <= |data|
    ensures |r| == 4 && forall c :: 0 <= c < 4 ==> 0 <= r[c] <= 255
  {
    [ClampedQuotient(ChannelSum(data, 0, visited), pixels),
     ClampedQuotient(ChannelSum(data, 1, visited), pixels),
     ClampedQuotient(ChannelSum(data, 2, visited), pixels),
     ClampedQuotient(ChannelSum(data, 3, visited), pixels)]
  }

  /** What `get_average_pixel` computes for an image of `pixels` pixels: its
      loop walks byte offsets 0, 4, 8, ... below the pixel count, so it visits
      only the first `ceil(pixels / 4)` pixels, yet divides by all of them. */
  function AverageAsWritten(data: seq<int>, pixels: nat): seq<int>
    requires |data| == 4 * pixels
  {
    Average(data, (pixels + 3) / 4, pixels)
  }

  /** The arithmetic mean the documentation promises: every pixel visited. */
  function AverageOfAllPixels(data: seq<int>, pixels: nat): seq<int>
    requires |data| == 4 * pixels
  {
    Average(data, pixels, pixels)
  }

  /** `get_average_pixel` as written. */
  method GetAveragePixel(pixelData: ImageData) returns (average: seq<int>)
    requires pixelData.Valid()
    ensures average == AverageAsWritten(pixelData.data[..], pixelData.width * pixelData.height)
  {
    var data := pixelData.data;
    var sums := [0, 0, 0, 0];
    var numberOfPixels := pixelData.width * pixelData.height;
    var pixelIndex := 0;
    while pixelIndex < numberOfPixels
      invariant pixelIndex % 4 == 0 && pixelIndex <= numberOfPixels + 3
      invariant |sums| == 4
      invariant forall c :: 0 <= c < 4 ==> sums[c] == ChannelSum(data[..], c, pixelIndex / 4)
    {
      ghost var visited := pixelIndex / 4;
      assert pixelIndex == 4 * visited;
      sums := [sums[0] + data[pixelIndex], sums[1] + data[pixelIndex + 1],
               sums[2] + data[pixelIndex + 2], sums[3] + data[pixelIndex + 3]];
      pixelIndex := pixelIndex + 4;
      assert pixelIndex / 4 == visited + 1;
    }
    assert pixelIndex / 4 == (numberOfPixels + 3) / 4;
    average := [ClampedQuotient(sums[0], numberOfPixels), ClampedQuotient(sums[1], numberOfPixels),
                ClampedQuotient(sums[2], numberOfPixels), ClampedQuotient(sums[3], numberOfPixels)];
  }

  /** `get_average_pixel` with the loop bound it evidently intends, the
      length of the byte array, so that every pixel is visited. */
  method GetAveragePixelOfAllPixels(pixelData: ImageData) returns (average: seq<int>)
    requires pixelData.Valid()
    ensures average == AverageOfAllPixels(pixelData.data[..], pixelData.width * pixelData.height)
  {
    var data := pixelData.data;
    var sums := [0, 0, 0, 0];
    var numberOfPixels := pixelData.width * pixelData.height;
    var pixelIndex := 0;
    while pixelIndex < data.Length
      invariant pixelIndex % 4 == 0 && pixelIndex <= data.Length
      invariant |sums| == 4
      invariant forall c :: 0 <= c < 4 ==> sums[c] == ChannelSum(data[..], c, pixelIndex / 4)
    {
      ghost var visited := pixelIndex / 4;
      assert pixelIndex == 4 * visited;
      sums := [sums[0] + data[pixelIndex], sums[1] + data[pixelIndex + 1],
               sums[2] + data[pixelIndex + 2], sums[3] + data[pixelIndex + 3]];
      pixelIndex := pixelIndex + 4;
      assert pixelIndex / 4 == visited + 1;
    }
    average := [ClampedQuotient(sums[0], numberOfPixels), ClampedQuotient(sums[1], numberOfPixels),
                ClampedQuotient(sums[2], numberOfPixels), ClampedQuotient(sums[3], numberOfPixels)];
  }

  /** Every pixel of `data` (of `pixels` pixels) is `pixel`. */
  ghost predicate Uniform(data: seq<int>, pixels: nat, pixel: seq<int>)
  {
    |data| == 4 * pixels && |pixel| == 4
    && forall i :: 0 <= i < |data| ==> data[i] == pixel[i % 4]
  }

  /** Over a uniform image a channel sums to the count times the channel's value. */
  lemma {:induction false} ChannelSumUniform(data: seq<int>, pixels: nat, pixel: seq<int>, c: nat, count: nat)
    requires Uniform(data, pixels, pixel) && c < 4 && count <= pixels
    ensures ChannelSum(data, c, count) == count * pixel[c]
  {
    if count > 0 {
      ChannelSumUniform(data, pixels, pixel, c, count - 1);
      var i := 4 * (count - 1) + c;
      ChannelOfByte(count - 1, c);
      assert data[i] == pixel[c];
      assert (count - 1) * pixel[c] + pixel[c] == count * pixel[c];
    }
  }

  /** Byte `4 * p + c` belongs to channel `c`. */
  lemma ChannelOfByte(p: nat, c: nat)
    requires c < 4
    ensures (4 * p + c) % 4 == c
  {
  }

  /** The mean of an image whose pixels are all the same byte quadruple is that quadruple. */
  lemma AverageOfUniformImage(data: seq<int>, pixels: nat, pixel: seq<int>)
    requires Uniform(data, pixels, pixel) && pixels > 0
    requires forall c :: 0 <= c < 4 ==> 0 <= pixel[c] <= 255
    ensures AverageOfAllPixels(data, pixels) == pixel
  {
    UniformChannelMean(data, pixels, pixel, 0);
    UniformChannelMean(data, pixels, pixel, 1);
    UniformChannelMean(data, pixels, pixel, 2);
    UniformChannelMean(data, pixels, pixel, 3);
    assert pixel == [pixel[0], pixel[1], pixel[2], pixel[3]];
  }

  lemma UniformChannelMean(data: seq<int>, pixels: nat, pixel: seq<int>, c: nat)
    requires Uniform(data, pixels, pixel) && pixels > 0 && c < 4 && 0 <= pixel[c] <= 255
    ensures ClampedQuotient(ChannelSum(data, c, pixels), pixels) == pixel[c]
  {
    ChannelSumUniform(data, pixels, pixel, c, pixels);
    MeanOfCopies(pixels, pixel[c]);
    ToUint8ClampByte(pixel[c]);
  }

  lemma MeanOfCopies(count: nat, v: int)
    requires count > 0
    ensures (count * v) as real / count as real == v as real
  {
    var n := count as real;
    assert (count * v) as real == n * v as real;
  }

  /** A channel sum reads only the pixels it visits. */
  lemma {:induction false} ChannelSumPrefix(data: seq<int>, other: seq<int>, c: nat, count: nat)
    requires c < 4 && 4 * count <= |data| && 4 * count <= |other|
    requires data[..4 * count] == other[..4 * count]
    ensures ChannelSum(data, c, count) == ChannelSum(other, c, count)
  {
    if count > 0 {
      assert data[..4 * (count - 1)] == other[..4 * (count - 1)] by {
        assert data[..4 * (count - 1)] == data[..4 * count][..4 * (count - 1)];
        assert other[..4 * (count - 1)] == other[..4 * count][..4 * (count - 1)];
      }
      assert data[4 * (count - 1) + c] == data[..4 * count][4 * (count - 1) + c];
      assert other[4 * (count - 1) + c] == other[..4 * count][4 * (count - 1) + c];
      ChannelSumPrefix(data, other, c, count - 1);
    }
  }

  /** The average as written ignores every pixel after the first quarter:
      two images that agree on their first `ceil(pixels / 4)` pixels get the
      same "average". */
  lemma AverageAsWrittenReadsFirstQuarter(data: seq<int>, other: seq<int>, pixels: nat)
    requires |data| == 4 * pixels && |other| == 4 * pixels
    requires data[..4 * ((pixels + 3) / 4)] == other[..4 * ((pixels + 3) / 4)]
    ensures AverageAsWritten(data, pixels) == AverageAsWritten(other, pixels)
  {
    var visited := (pixels + 3) / 4;
    ChannelSumPrefix(data, other, 0, visited);
    ChannelSumPrefix(data, other, 1, visited);
    ChannelSumPrefix(data, other, 2, visited);
    ChannelSumPrefix(data, other, 3, visited);
  }

  /** A 2 by 2 image of opaque white: the average as written is a quarter of
      white rounded up, where the true mean is white itself. */
  lemma AverageAsWrittenOfWhiteSquare()
    ensures AverageAsWritten(seq(16, _ => 255), 4) == [64, 64, 64, 64]
    ensures AverageOfAllPixels(seq(16, _ => 255), 4) == [255, 255, 255, 255]
  {
    var data: seq<int> := seq(16, _ => 255);
    forall c | 0 <= c < 4 ensures ChannelSum(data, c, 1) == 255 {
      assert data[c] == 255;
    }
    assert ToUint8Clamp(255.0 / 4.0) == 64;
    AverageOfUniformImage(data, 4, [255, 255, 255, 255]);
  }
}
