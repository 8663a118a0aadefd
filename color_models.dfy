/** The value types of the colour library: normalised and 8-bit components,
    the HSL, HSV, RGB and 24-bit RGB colour models, and the generic
    string-keyed model that the first three embed into. */
module ColorModels {

  /** A colour component with a normalised value: a number in [0.0, 1.0]. */
  type NormalizedComponent = r: real | 0.0 <= r <= 1.0

  /** A colour component with an 8-bit value: an integer in [0, 255]. */
  type Component8Bit = i: int | 0 <= i <= 255

  /** The general shape of every colour model with normalised values:
      component name to component value. */
  type NormalizedColorModel = map<string, NormalizedComponent>

  datatype Option<T> = None | Some(value: T)

  datatype HSL = HSL(hue: NormalizedComponent, saturation: NormalizedComponent, luminosity: NormalizedComponent)

  datatype HSV = HSV(hue: NormalizedComponent, saturation: NormalizedComponent, value: NormalizedComponent)

  datatype RGB = RGB(red: NormalizedComponent, green: NormalizedComponent, blue: NormalizedComponent)

  /** The 24-bit "true colour" encoding, 8 bits per channel. */
  datatype RGB24 = RGB24(red: Component8Bit, green: Component8Bit, blue: Component8Bit)

  // An HSL, HSV or RGB object is structurally a NormalizedColorModel whose
  // keys are its field names. The functions below make that embedding explicit
  // and give back the typed view of a model that has the three fields.

  function HslAsModel(c: HSL): (m: NormalizedColorModel)
    ensures m.Keys == {"hue", "saturation", "luminosity"}
  {
    map["hue" := c.hue, "saturation" := c.saturation, "luminosity" := c.luminosity]
  }

  function HsvAsModel(c: HSV): (m: NormalizedColorModel)
    ensures m.Keys == {"hue", "saturation", "value"}
  {
    map["hue" := c.hue, "saturation" := c.saturation, "value" := c.value]
  }

  function RgbAsModel(c: RGB): (m: NormalizedColorModel)
    ensures m.Keys == {"red", "green", "blue"}
  {
    map["red" := c.red, "green" := c.green, "blue" := c.blue]
  }

  /** The HSL view of a model: defined exactly when the model has the three HSL fields. */
  function ModelAsHsl(m: NormalizedColorModel): (r: Option<HSL>)
    ensures r.Some? <==> {"hue", "saturation", "luminosity"} <= m.Keys
    ensures r.Some? ==> r.value.hue == m["hue"] && r.value.saturation == m["saturation"]
                        && r.value.luminosity == m["luminosity"]
  {
    if "hue" in m && "saturation" in m && "luminosity" in m
    then Some(HSL(m["hue"], m["saturation"], m["luminosity"]))
    else None
  }

  function ModelAsHsv(m: NormalizedColorModel): (r: Option<HSV>)
    ensures r.Some? <==> {"hue", "saturation", "value"} <= m.Keys
    ensures r.Some? ==> r.value.hue == m["hue"] && r.value.saturation == m["saturation"]
                        && r.value.value == m["value"]
  {
    if "hue" in m && "saturation" in m && "value" in m
    then Some(HSV(m["hue"], m["saturation"], m["value"]))
    else None
  }

  function ModelAsRgb(m: NormalizedColorModel): (r: Option<RGB>)
    ensures r.Some? <==> {"red", "green", "blue"} <= m.Keys
    ensures r.Some? ==> r.value.red == m["red"] && r.value.green == m["green"]
                        && r.value.blue == m["blue"]
  {
    if "red" in m && "green" in m && "blue" in m
    then Some(RGB(m["red"], m["green"], m["blue"]))
    else None
  }

  /** Embedding an HSL colour and reading it back is the identity, and a
      model with exactly the HSL keys is the embedding of its HSL view. */
  lemma HslModelRoundTrip(c: HSL, m: NormalizedColorModel)
    ensures ModelAsHsl(HslAsModel(c)) == Some(c)
    ensures m.Keys == {"hue", "saturation", "luminosity"} ==> HslAsModel(ModelAsHsl(m).value) == m
  {
    if m.Keys == {"hue", "saturation", "luminosity"} {
      var e := HslAsModel(ModelAsHsl(m).value);
      assert forall k | k in m :: k == "hue" || k == "saturation" || k == "luminosity";
      assert forall k | k in m :: e[k] == m[k];
    }
  }

  lemma HsvModelRoundTrip(c: HSV, m: NormalizedColorModel)
    ensures ModelAsHsv(HsvAsModel(c)) == Some(c)
    ensures m.Keys == {"hue", "saturation", "value"} ==> HsvAsModel(ModelAsHsv(m).value) == m
  {
    if m.Keys == {"hue", "saturation", "value"} {
      var e := HsvAsModel(ModelAsHsv(m).value);
      assert forall k | k in m :: k == "hue" || k == "saturation" || k == "value";
      assert forall k | k in m :: e[k] == m[k];
    }
  }

  lemma RgbModelRoundTrip(c: RGB, m: NormalizedColorModel)
    ensures ModelAsRgb(RgbAsModel(c)) == Some(c)
    ensures m.Keys == {"red", "green", "blue"} ==> RgbAsModel(ModelAsRgb(m).value) == m
  {
    if m.Keys == {"red", "green", "blue"} {
      var e := RgbAsModel(ModelAsRgb(m).value);
      assert forall k | k in m :: k == "red" || k == "green" || k == "blue";
      assert forall k | k in m :: e[k] == m[k];
    }
  }
}
