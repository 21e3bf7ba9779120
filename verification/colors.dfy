/** The `Color` value of the storage codec: four channels and a flag marking a cell with nothing to draw. */
module Colors {
  import opened Pixels

  datatype Color = Color(r: byte, g: byte, b: byte, a: byte, isVoid: bool)

  /** `TRANSPARENT`: what a cell holds before anything is drawn on it. */
  const Transparent := Color(0, 0, 0, 0, false)

  /** `VOID`: what the segmenter's accessor returns for a cell outside the diff set. */
  const Void := Color(0, 0, 0, 0, true)

  /** Component `k` of a tuple once padded: a component that is present is kept, a missing one reads 255. */
  function Channel(t: seq<byte>, k: nat): byte
  {
    if k < |t| then t[k] else 255
  }

  /** `Color.__init__`: pads the tuple with 255 up to four components and keeps only the first four. */
  function MakeColor(t: seq<byte>, void: bool): (c: Color)
    ensures c.isVoid == void
    ensures ToTuple(c) == Rgba(Channel(t, 0), Channel(t, 1), Channel(t, 2), Channel(t, 3))
  {
    var pad: seq<byte> := Repeat(255, if |t| < 4 then 4 - |t| else 0);
    var four := (t + pad)[..4];
    Color(four[0], four[1], four[2], four[3], void)
  }

  /** `Color.to_tuple`: the four channels, which together with the void flag give back the colour. */
  function ToTuple(c: Color): (t: Rgba)
    ensures Color(t.r, t.g, t.b, t.a, c.isVoid) == c
  {
    Rgba(c.r, c.g, c.b, c.a)
  }

  /** `Color.all`: flags and channels compared one by one, which is exactly equality of the values,
      so a void cell never matches a drawn one even when their channels agree. */
  function All(c: Color, d: Color): (same: bool)
    ensures same <==> c == d
    ensures c.isVoid != d.isVoid ==> !same
  {
    c.isVoid == d.isVoid && c.r == d.r && c.g == d.g && c.b == d.b && c.a == d.a
  }
}
