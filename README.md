# Watermark blending, modelled in Dafny

This project models the pixel-blending core of the Kotlin watermark tool
(`Watermark/task/src/watermark/Main.kt`). The tool lays a watermark image over a base
image. It places the watermark either once at an offset ("single") or tiled over the
whole base ("grid"). Each covered pixel is mixed with the base pixel as a weighted
linear combination, using an opacity percentage from 0 to 100. A watermark pixel can
be left out of the mix in two ways: by a transparency key colour, or by its own alpha
channel.

Modules, one per component of the program:

- `ColorBlender` (ColorBlender.dfy): a pixel as an explicit `Color(red, green, blue, alpha)`
  with 8-bit channels. Contains `getColorByLinearCombination` (`Blend`), with Kotlin's
  truncating division written out (`Div100`).
- `PlacementResolver` (PlacementResolver.dfy): `checkPixelPosition`, and `Resolve`, which
  maps a base pixel to the watermark pixel covering it (single or grid placement).
- `TransparencyPolicy` (TransparencyPolicy.dfy): which watermark pixels contribute. There
  are three modes: `Key(r, g, b)`, `Alpha` and `Opaque`. The program passes the pairs
  (`transparencyColor`, `useAlpha`) = (colour, false), (null, true) and (null, false).
  These are the three modes in that order.
- `BlendEngine` (BlendEngine.dfy): `setPixel` as the method `SetPixel`, which writes one
  cell of an `array2<Color>`. The pixel loop of `blendingImages` is the method
  `BlendingImages`, which fills a fresh array of the base's size; its inner loop (one
  column) is the method `FillColumn`. All three are proved against `ExpectedPixel`, a reference definition of each output pixel. A ghost trace
  of the cells `SetPixel` is called on, with `VisitOrderExactlyOnce`, shows that each
  cell is written exactly once. `ExpectedPixel` is defined as follows:
  - an uncovered pixel keeps the base colour;
  - a covered pixel that contributes is blended;
  - any other covered pixel keeps the base colour.

  `SetPixel` follows the program's own branches. Outside a single placement, the
  program reads the base pixel as the "watermark" colour and blends it with itself.
  The proof shows that this gives the base colour (`BlendIdentical`).
- `Parameters` (Parameters.dfy): the input checks, as validators over values already
  read. Where the program prints a message and exits, the validator returns `Err` with
  the matching `Error`. Where an exception escapes, it returns `Err(Uncaught)`:
  - a position line with fewer than two numbers: the destructuring at line 175 happens
    outside the `try`;
  - a transparency-colour word that is not an integer: `toInt` at line 38;
  - an output name shorter than four characters: `substring` at line 130.

  Every word of the position line must parse as an integer (Main.kt:176). The values
  of the words after the second are ignored.
- `Arithmetic`, `Wrappers`: remainder and multiplication facts; `Option` and `Result`.

Behaviour of the program that the model keeps:

- With a key colour, only red, green and blue are compared with the key. The watermark
  is read without alpha in that mode (`useAlpha` is false, Main.kt:48, 216), so its alpha
  never matters to the test at Main.kt:233 (`WritesBlendMatchesContributes`).
- Each failed check prints its own message and exits the program (Main.kt:94-95, 143-144,
  181-182, 34-36, 40-41, 128). Three malformed inputs instead end the program with an
  uncaught exception. `Error` has one value per message, plus `Uncaught`.
- A pixel outside a single placement is not copied directly. The program reads the base
  pixel as the watermark colour and blends it with itself (Main.kt:223, 226-227). This
  gives the base colour (`SetPixel`'s postcondition, through `BlendIdentical`).

## Model

| member | source | states |
|---|---|---|
| `ColorBlender.Blend` | Watermark/task/src/watermark/Main.kt:152-158 | for a weight in 0..100 each blended channel lies between the watermark's and the base's channel (so in 0..255), and the result is opaque |
| `ColorBlender.CombineBetween` | Watermark/task/src/watermark/Main.kt:154-156 | `(weight*w + (100-weight)*i)/100` lies between `w` and `i` for every weight in 0..100 |
| `ColorBlender.CombineOutsideRangeOverflows` | Watermark/task/src/watermark/Main.kt:152-158 | a weight below 0 or above 100 drives a channel outside 0..255, where `Color` would throw |
| `ColorBlender.CombineFixedPoints` | Watermark/task/src/watermark/Main.kt:154-156 | a channel is the base's at weight 0 and the watermark's at weight 100; blending a channel with itself returns it |
| `ColorBlender.BlendEndpoints` | Watermark/task/src/watermark/Main.kt:152-158 | weight 0 gives the base colour, weight 100 the watermark colour, both as RGB |
| `ColorBlender.BlendIdentical` | Watermark/task/src/watermark/Main.kt:152-158 | blending two colours with equal RGB gives that colour for every weight in 0..100 |
| `ColorBlender.BlendIgnoresAlpha` | Watermark/task/src/watermark/Main.kt:153-157 | only the red, green and blue channels enter the blend |
| `ColorBlender.BlendTruncates` | Watermark/task/src/watermark/Main.kt:154 | 50% of (255,0,0) over black gives red 127: the division truncates |
| `ColorBlender.Div100` | Watermark/task/src/watermark/Main.kt:154 | Kotlin's division by 100, truncating toward zero for negative numerators too |
| `ColorBlender.ReadColor` | Watermark/task/src/watermark/Main.kt:216 | `Color(rgb, hasAlpha)` keeps red, green and blue; alpha is kept only with `hasAlpha`, else 255 |
| `ColorBlender.AsRgb` | Watermark/task/src/watermark/Main.kt:236 | `Color(rgb)` keeps red, green and blue and is opaque |
| `PlacementResolver.CheckPixelPosition` | Watermark/task/src/watermark/Main.kt:196-199 | true exactly when `(x - at.x, y - at.y)` lies in `[0,ww) × [0,wh)` |
| `PlacementResolver.Resolve` | Watermark/task/src/watermark/Main.kt:214-223 | every watermark coordinate it yields is in bounds; grid always covers; single covers exactly the pixels `checkPixelPosition` accepts, at offset `(x-offX, y-offY)` |
| `PlacementResolver.GridIsPeriodic` | Watermark/task/src/watermark/Main.kt:217-222 | the grid repeats every `ww` columns and `wh` rows |
| `PlacementResolver.SingleCoversWholeWatermark` | Watermark/task/src/watermark/Main.kt:196-199 | with an in-range offset, every watermark pixel lands on a base pixel that resolves back to it |
| `TransparencyPolicy.WritesBlend` | Watermark/task/src/watermark/Main.kt:230-243 | the blend is written only for an opaque `w`, and with a key only when `w` differs from the key |
| `TransparencyPolicy.WritesBlendMatchesContributes` | Watermark/task/src/watermark/Main.kt:214-243 | `setPixel`'s test on the colour read with `useAlpha` equals the rule: key hides exact RGB matches, alpha shows only alpha 255, otherwise all show |
| `BlendEngine.ExpectedPixel` | Watermark/task/src/watermark/Main.kt:214-243 | every output pixel is opaque RGB |
| `BlendEngine.SetPixel` | Watermark/task/src/watermark/Main.kt:201-246 | writes exactly the expected pixel at (x, y) and changes no other cell |
| `BlendEngine.BlendingImages` | Watermark/task/src/watermark/Main.kt:108-114 | a fresh image of the base's width and height whose every cell is the expected pixel for its own coordinates; `SetPixel` is called on the cells in column-major order; the inputs are not written |
| `BlendEngine.VisitOrderExactlyOnce` | Watermark/task/src/watermark/Main.kt:109-113 | the column-major order of the two loops visits every cell of the image and no cell twice |
| `BlendEngine.UncoveredPixelKeepsBase` | Watermark/task/src/watermark/Main.kt:223-227 | in single mode a pixel outside the rectangle keeps the base RGB |
| `BlendEngine.TransparencyRule` | Watermark/task/src/watermark/Main.kt:230-243 | key: a pixel equal to the key keeps the base, others blend; alpha: 255 blends, less keeps the base; no transparency: every covered pixel blends |
| `BlendEngine.ZeroWeightKeepsBase` | Watermark/task/src/watermark/Main.kt:226-243 | at weight 0 every output pixel is the base RGB, in every mode |
| `BlendEngine.FullWeightShowsWatermark` | Watermark/task/src/watermark/Main.kt:226-243 | at weight 100 a covered, contributing pixel shows the watermark RGB |
| `BlendEngine.WholeImageWatermark` | Watermark/task/src/watermark/Main.kt:214-243 | a base-sized watermark at (0,0) reproduces itself at weight 100 and leaves the base at weight 0 |
| `BlendEngine.RedBaseBlueWatermark` | Watermark/task/src/watermark/Main.kt:152-158 | blue over red at 50% gives (127,0,127); an uncovered red pixel stays (255,0,0) |
| `ColorBlender.Combine` | Watermark/task/src/watermark/Main.kt:154-156 | one channel of the combination is the exact weighted average `weight*w + (100-weight)*i` divided by 100 and rounded down (for a non-negative numerator) |
| `TransparencyPolicy.UseAlpha` | Watermark/task/src/watermark/Main.kt:48-62 | `useAlpha` is true exactly in the alpha mode, the alpha path with "yes" (line 61); the key path (line 48) and the declined alpha path (line 62) pass false. The flag's effect is proved in `WritesBlendMatchesContributes` |
| `BlendEngine.ColumnOrder` | Watermark/task/src/watermark/Main.kt:110 | the inner loop visits one cell per row of the column |
| `BlendEngine.ColumnOrderAt` | Watermark/task/src/watermark/Main.kt:110 | the y-th cell the inner loop visits in column x is (x, y) |
| `BlendEngine.VisitOrder` | Watermark/task/src/watermark/Main.kt:109-113 | the order of the two loops: column by column, each column top to bottom (its properties are in `VisitOrderExactlyOnce`) |
| `BlendEngine.FillColumn` | Watermark/task/src/watermark/Main.kt:110-113 | after the inner loop, column x holds the expected pixels, other cells are unchanged, and the cells were written in `ColumnOrder` |
| `Parameters.OutputFormat` | Watermark/task/src/watermark/Main.kt:118 | the format handed to the writer is the name's last three characters |
| `Parameters.CheckImagesDimensions` | Watermark/task/src/watermark/Main.kt:93-97 | accepts exactly when the watermark is no wider and no taller than the base |
| `Parameters.GetWatermarkPercentage` | Watermark/task/src/watermark/Main.kt:135-150 | accepts exactly an integer in 0..100 and returns it; distinguishes "not an integer" from "out of range" |
| `Parameters.GetWatermarkPosition` | Watermark/task/src/watermark/Main.kt:166-194 | "grid" gives the grid; "single" with two or more parsed numbers gives `Single` at the first two when both lie in `0..base-watermark`, and the out-of-range error otherwise; unparsable words, too few numbers and unknown methods get their own errors |
| `Parameters.GetTransparencyColor` | Watermark/task/src/watermark/Main.kt:33-42 | accepts exactly three integers each in 0..255 and returns them as the key; a word count other than three or an out-of-range channel gives the "invalid" error, an unparsable word an uncaught failure |
| `Parameters.GetOutputFileName` | Watermark/task/src/watermark/Main.kt:123-133 | accepts exactly names ending in ".jpg" or ".png"; shorter than four characters is an uncaught failure |
| `Parameters.AcceptedNameHasKnownFormat` | Watermark/task/src/watermark/Main.kt:118 | an accepted output name yields the format "jpg" or "png" |
| `Parameters.RejectedPercentageWouldOverflow` | Watermark/task/src/watermark/Main.kt:143-145 | every integer the percentage check rejects would make the blend leave 0..255 |
| `Parameters.DimensionCheckDecidesPositions` | Watermark/task/src/watermark/Main.kt:93-97 | after a passing dimension check the origin is an accepted position; after a failing one no single position is accepted |
| `Parameters.AcceptedPositionDrawsWholeWatermark` | Watermark/task/src/watermark/Main.kt:181-184 | an accepted single position puts every watermark pixel on a base pixel that resolves back to it |

## Left out

- `main`, `checkImage` and the prompts: reading lines, `lowercase()`, splitting and
  `toInt` parsing are not modelled. The validators take the parsed values. The path is
  chosen by the watermark's transparency type (lines 18-22), then by the yes/no answer
  (lines 27, 54). Both are folded into the choice of `Transparency`, and the model lets
  any mode go with any watermark. Answering "no" to the key question
  ends the run without output, and this is not modelled.
- `checkImage("image")` matches neither "file" nor "watermark" and exits at line 71.
  This front-end defect is not modelled.
- File and image I/O are not modelled, because they are library calls: `File.exists`,
  `ImageIO.read`, the colour-component and bit-depth checks (lines 74-90),
  `ImageIO.write` and the final message (lines 115-119).
- `java.awt.Color` packing and `BufferedImage.getRGB`/`setRGB`: the model keeps a
  structured colour in a two-dimensional array. A 24-bit image is taken to deliver
  alpha 255 from `getRGB`. Colour-space conversion inside `getRGB` is not modelled.
- 32-bit integer overflow is not modelled. After the checks, all arithmetic stays far
  below 2^31.
- SetPixel: the program returns the same `newImage` object that it updated. The model
  updates the array in place and returns nothing.
- GetOutputFileName: a name is a sequence of code points, while Kotlin's `length` and
  `substring` count UTF-16 units. A name shorter than four code points that is at least
  four UTF-16 units long (two emoji, say) gets the extension message in the program,
  but `Err(Uncaught)` in the model. The set of accepted names is the same.
