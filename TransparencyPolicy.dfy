/** Which watermark pixels contribute to the output: the final `when (transparencyColor)`
    of `setPixel`, with the parameters the program actually passes folded into one mode. */
module TransparencyPolicy {
  import opened ColorBlender

  /** `Key`: a transparency colour was given (the watermark has no alpha channel and is
      read without alpha). `Alpha`: the watermark's alpha channel is used. `Opaque`: the
      watermark has an alpha channel but the user declined it, so it is read without alpha. */
  datatype Transparency = Key(red: Byte, green: Byte, blue: Byte) | Alpha | Opaque

  /** The `useAlpha` flag that goes with each mode. */
  function UseAlpha(t: Transparency): (useAlpha: bool)
    ensures useAlpha <==> t == Alpha
  {
    t.Alpha?
  }

  /** The reference rule: a key colour hides exactly the watermark pixels of that red, green
      and blue; with the alpha channel only fully opaque pixels show; otherwise every pixel shows. */
  predicate Contributes(t: Transparency, raw: Color) {
    match t
    case Key(r, g, b) => !(raw.red == r && raw.green == g && raw.blue == b)
    case Alpha => raw.alpha == 255
    case Opaque => true
  }

  /** The test `setPixel` performs on `w`, the watermark colour read with `useAlpha`:
      with a key, `w != transparencyColor && w.alpha == 255`; without, `w.alpha == 255`. */
  function WritesBlend(t: Transparency, w: Color): (show: bool)
    ensures show ==> w.alpha == 255
    ensures t.Key? && show ==> w != Color(t.red, t.green, t.blue, 255)
    ensures w.alpha == 255 && !(t.Key? && w == Color(t.red, t.green, t.blue, 255)) ==> show
  {
    match t
    case Key(r, g, b) => w != Color(r, g, b, 255) && w.alpha == 255
    case _ => w.alpha == 255
  }

  /** The test as written agrees with the reference rule on every watermark pixel read the
      way `setPixel` reads it: a key compares red, green and blue only, because without
      `useAlpha` the alpha is always 255; without a key `useAlpha` is false exactly when
      alpha is to be ignored. */
  lemma WritesBlendMatchesContributes(t: Transparency, raw: Color)
    ensures WritesBlend(t, ReadColor(raw, UseAlpha(t))) == Contributes(t, raw)
  {
  }
}
