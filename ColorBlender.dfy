/** The colour arithmetic of the watermark tool: `getColorByLinearCombination` and the
    parts of `java.awt.Color` it relies on, on an explicit four-channel value instead of
    a packed ARGB integer. */
module ColorBlender {
  import opened Arithmetic

  /** One 8-bit colour channel. */
  type Byte = c: int | 0 <= c < 256

  /** A colour as `BufferedImage.getRGB` delivers it: red, green, blue and alpha. */
  datatype Color = Color(red: Byte, green: Byte, blue: Byte, alpha: Byte)

  predicate SameRgb(a: Color, b: Color) {
    a.red == b.red && a.green == b.green && a.blue == b.blue
  }

  /** `Color(rgb)`: red, green and blue of `c` with alpha 255. This is what
      `Color(image.getRGB(x, y))` builds and what a TYPE_INT_RGB image stores. */
  function AsRgb(c: Color): (r: Color)
    ensures SameRgb(r, c) && r.alpha == 255
  {
    c.(alpha := 255)
  }

  /** `Color(rgb, hasAlpha)`: alpha is kept only when `hasAlpha` holds, otherwise it is 255. */
  function ReadColor(c: Color, hasAlpha: bool): (r: Color)
    ensures SameRgb(r, c)
    ensures hasAlpha ==> r == c
    ensures !hasAlpha ==> r.alpha == 255
  {
    if hasAlpha then c else AsRgb(c)
  }

  /** Kotlin's `Int / 100`, which truncates toward zero (Dafny's `/` is Euclidean). */
  function Div100(n: int): (q: int)
    ensures n >= 0 ==> 0 <= n - 100 * q < 100
    ensures n < 0 ==> 0 <= 100 * q - n < 100
  {
    if n >= 0 then n / 100 else -((-n) / 100)
  }

  /** One channel of the linear combination: `(weight * w + (100 - weight) * i) / 100`,
      for any integer weight. For a non-negative numerator it is the exact weighted
      average rounded down. */
  function Combine(weight: int, w: int, i: int): (c: int)
    ensures var exact := weight * w + (100 - weight) * i;
      exact >= 0 ==> 100 * c <= exact < 100 * c + 100
  {
    Div100(weight * w + (100 - weight) * i)
  }

  function Min(a: int, b: int): int { if a <= b then a else b }

  function Max(a: int, b: int): int { if a <= b then b else a }

  /** For a weight in 0..100 a blended channel lies between the two input channels. */
  lemma CombineBetween(weight: int, w: int, i: int)
    requires 0 <= weight <= 100
    ensures Min(w, i) <= Combine(weight, w, i) <= Max(w, i)
  {
    var lo, hi := Min(w, i), Max(w, i);
    ScaleMonotone(weight, lo, w);
    ScaleMonotone(weight, w, hi);
    ScaleMonotone(100 - weight, lo, i);
    ScaleMonotone(100 - weight, i, hi);
    assert weight * lo + (100 - weight) * lo == 100 * lo;
    assert weight * hi + (100 - weight) * hi == 100 * hi;
  }

  /** A weight outside 0..100 makes some channel leave 0..255, so the `Color`
      constructor would throw: the range check on the percentage is needed. */
  lemma CombineOutsideRangeOverflows(weight: int)
    requires weight < 0 || 100 < weight
    ensures Combine(weight, 255, 0) < 0 || 255 < Combine(weight, 255, 0)
  {
    assert weight * 255 + (100 - weight) * 0 == 255 * weight;
  }

  /** Weight 0 gives the base channel, weight 100 the watermark channel, and blending a
      channel with itself gives it back, whatever the weight. */
  lemma CombineFixedPoints(weight: int, w: Byte, i: Byte)
    requires 0 <= weight <= 100
    ensures Combine(0, w, i) == i
    ensures Combine(100, w, i) == w
    ensures Combine(weight, i, i) == i
  {
    assert weight * i + (100 - weight) * i == 100 * i;
  }

  /** `getColorByLinearCombination(weight, w, i)`: the three channels combined
      independently; the result is opaque, as `Color(r, g, b)` is. */
  function Blend(weight: int, w: Color, i: Color): (c: Color)
    requires 0 <= weight <= 100
    ensures c.alpha == 255
    ensures Min(w.red, i.red) <= c.red <= Max(w.red, i.red)
    ensures Min(w.green, i.green) <= c.green <= Max(w.green, i.green)
    ensures Min(w.blue, i.blue) <= c.blue <= Max(w.blue, i.blue)
  {
    CombineBetween(weight, w.red, i.red);
    CombineBetween(weight, w.green, i.green);
    CombineBetween(weight, w.blue, i.blue);
    Color(Combine(weight, w.red, i.red), Combine(weight, w.green, i.green),
          Combine(weight, w.blue, i.blue), 255)
  }

  /** The endpoints of the blend: weight 0 is the base colour, weight 100 the watermark
      colour, both without their alpha. */
  lemma BlendEndpoints(w: Color, i: Color)
    ensures Blend(0, w, i) == AsRgb(i)
    ensures Blend(100, w, i) == AsRgb(w)
  {
    CombineFixedPoints(0, w.red, i.red);
    CombineFixedPoints(0, w.green, i.green);
    CombineFixedPoints(0, w.blue, i.blue);
  }

  /** Blending two colours with the same red, green and blue gives that colour, for every
      weight in 0..100; alpha plays no part. */
  lemma BlendIdentical(weight: int, w: Color, i: Color)
    requires 0 <= weight <= 100
    requires SameRgb(w, i)
    ensures Blend(weight, w, i) == AsRgb(i)
  {
    CombineFixedPoints(weight, i.red, i.red);
    CombineFixedPoints(weight, i.green, i.green);
    CombineFixedPoints(weight, i.blue, i.blue);
  }

  /** Only the red, green and blue channels of the inputs enter the blend. */
  lemma BlendIgnoresAlpha(weight: int, w: Color, w': Color, i: Color, i': Color)
    requires 0 <= weight <= 100
    requires SameRgb(w, w') && SameRgb(i, i')
    ensures Blend(weight, w, i) == Blend(weight, w', i')
  {
  }

  /** The division truncates: half of full red over black is 127, not 128. */
  lemma BlendTruncates()
    ensures Blend(50, Color(255, 0, 0, 255), Color(0, 0, 0, 255)) == Color(127, 0, 0, 255)
  {
  }
}
