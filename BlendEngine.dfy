/** The whole-image blend: `setPixel` and the pixel loop of `blendingImages`. Images are
    two-dimensional arrays indexed [x, y], x along the width (Length0) and y along the
    height (Length1), holding each pixel as `getRGB` returns it. */
module BlendEngine {
  import opened Wrappers
  import opened ColorBlender
  import opened PlacementResolver
  import opened TransparencyPolicy

  /** The output pixel at (x, y), as the blend is meant to work: a pixel the watermark does
      not cover keeps the base colour; a covered pixel takes the blend of the watermark and
      base colours when the watermark pixel contributes, and the base colour otherwise.
      The output is RGB only, so alpha is always 255. */
  function ExpectedPixel(image: array2<Color>, watermark: array2<Color>, weight: int,
                         placement: Placement, t: Transparency, x: nat, y: nat): (c: Color)
    reads image, watermark
    requires 0 <= weight <= 100
    requires x < image.Length0 && y < image.Length1
    requires 0 < watermark.Length0 && 0 < watermark.Length1
    ensures c.alpha == 255
  {
    var base := image[x, y];
    match Resolve(placement, watermark.Length0, watermark.Length1, x, y)
    case None => AsRgb(base)
    case Some(at) =>
      var raw := watermark[at.x, at.y];
      if Contributes(t, raw) then Blend(weight, raw, base) else AsRgb(base)
  }

  /** `setPixel`: works out the watermark colour `w` and the base colour `i` the way the
      program does (outside a single placement `w` is the base pixel itself), blends them,
      and writes either the blend or the base colour into `newImage` at (x, y). Every other
      cell of `newImage` is left as it was, and the input images are not written. */
  method SetPixel(watermark: array2<Color>, image: array2<Color>, newImage: array2<Color>,
                  weight: int, x: nat, y: nat, placement: Placement, t: Transparency)
    requires 0 <= weight <= 100
    requires x < image.Length0 && y < image.Length1
    requires newImage.Length0 == image.Length0 && newImage.Length1 == image.Length1
    requires 0 < watermark.Length0 && 0 < watermark.Length1
    requires newImage != image && newImage != watermark
    modifies newImage
    ensures newImage[x, y] == ExpectedPixel(image, watermark, weight, placement, t, x, y)
    ensures forall i, j :: 0 <= i < newImage.Length0 && 0 <= j < newImage.Length1 && (i, j) != (x, y)
              ==> newImage[i, j] == old(newImage[i, j])
  {
    var useAlpha := UseAlpha(t);
    var w: Color;
    if placement.Single? && CheckPixelPosition(placement.at, watermark.Length0, watermark.Length1, x, y) {
      w := ReadColor(watermark[x - placement.at.x, y - placement.at.y], useAlpha);
    } else if placement.Grid? {
      w := ReadColor(watermark[x % watermark.Length0, y % watermark.Length1], useAlpha);
    } else {
      w := ReadColor(image[x, y], useAlpha);
    }
    var i := ReadColor(image[x, y], useAlpha);
    var color := Blend(weight, w, i);
    // Outside a single placement the program blends the base colour with itself.
    if SameRgb(w, i) {
      BlendIdentical(weight, w, i);
    }

    if WritesBlend(t, w) {
      newImage[x, y] := color;
    } else {
      newImage[x, y] := AsRgb(image[x, y]);
    }

    match Resolve(placement, watermark.Length0, watermark.Length1, x, y) {
      case None =>
      case Some(at) =>
        WritesBlendMatchesContributes(t, watermark[at.x, at.y]);
        BlendIgnoresAlpha(weight, w, watermark[at.x, at.y], i, image[x, y]);
    }
  }

  /** The cells of column x of height h, top to bottom, as the inner loop visits them. */
  function ColumnOrder(x: nat, h: nat): (s: seq<Coord>)
    ensures |s| == h
  {
    if h == 0 then [] else ColumnOrder(x, h - 1) + [Coord(x, h - 1)]
  }

  /** The y-th cell visited in column x is (x, y). */
  lemma {:induction false} ColumnOrderAt(x: nat, h: nat)
    ensures forall y :: 0 <= y < h ==> ColumnOrder(x, h)[y] == Coord(x, y)
  {
    if h > 0 {
      ColumnOrderAt(x, h - 1);
    }
  }

  /** The cells of a w by h image in the order the two loops of `blendingImages` visit
      them: column by column, each column top to bottom. */
  function VisitOrder(w: nat, h: nat): seq<Coord> {
    if w == 0 then [] else VisitOrder(w - 1, h) + ColumnOrder(w - 1, h)
  }

  /** The loops visit every cell of the image exactly once: each visited cell lies in the
      image, each cell of the image is visited, and no cell is visited twice. */
  lemma {:induction false} VisitOrderExactlyOnce(w: nat, h: nat)
    ensures forall c :: c in VisitOrder(w, h) <==> c.x < w && c.y < h
    ensures forall i, j :: 0 <= i < j < |VisitOrder(w, h)| ==> VisitOrder(w, h)[i] != VisitOrder(w, h)[j]
  {
    if w > 0 {
      VisitOrderExactlyOnce(w - 1, h);
      ColumnOrderAt(w - 1, h);
      var prefix, column := VisitOrder(w - 1, h), ColumnOrder(w - 1, h);
      assert VisitOrder(w, h) == prefix + column;
      forall c: Coord | c.x < w && c.y < h
        ensures c in VisitOrder(w, h)
      {
        if c.x < w - 1 {
          assert c in prefix;
        } else {
          assert column[c.y] == c;
        }
      }
    }
  }

  /** The inner loop of `blendingImages`: `SetPixel` on every cell of column x, top to
      bottom. Afterwards the column holds the expected pixels, every other cell is as it
      was, and `visited` lists the cells written, in order. */
  method FillColumn(image: array2<Color>, watermark: array2<Color>, newImage: array2<Color>,
                    weight: int, placement: Placement, t: Transparency, x: nat)
    returns (ghost visited: seq<Coord>)
    requires 0 <= weight <= 100
    requires x < image.Length0
    requires newImage.Length0 == image.Length0 && newImage.Length1 == image.Length1
    requires 0 < watermark.Length0 && 0 < watermark.Length1
    requires newImage != image && newImage != watermark
    modifies newImage
    ensures forall j: nat :: j < newImage.Length1 ==>
              newImage[x, j] == ExpectedPixel(image, watermark, weight, placement, t, x, j)
    ensures forall i, j :: 0 <= i < newImage.Length0 && 0 <= j < newImage.Length1 && i != x
              ==> newImage[i, j] == old(newImage[i, j])
    ensures visited == ColumnOrder(x, newImage.Length1)
  {
    visited := [];
    for y := 0 to newImage.Length1
      invariant forall j: nat :: j < y ==>
                  newImage[x, j] == ExpectedPixel(image, watermark, weight, placement, t, x, j)
      invariant forall i, j :: 0 <= i < newImage.Length0 && 0 <= j < newImage.Length1 && i != x
                  ==> newImage[i, j] == old(newImage[i, j])
      invariant visited == ColumnOrder(x, y)
    {
      SetPixel(watermark, image, newImage, weight, x, y, placement, t);
      visited := visited + [Coord(x, y)];
    }
  }

  /** `blendingImages` without the file output: a fresh RGB image of the base image's size,
      filled column by column. Every cell ends up holding the expected pixel for its own
      coordinates, the cells are written in `VisitOrder` (so each exactly once), and the
      two input images are not modified. */
  method BlendingImages(image: array2<Color>, watermark: array2<Color>, weight: int,
                        placement: Placement, t: Transparency)
    returns (newImage: array2<Color>, ghost written: seq<Coord>)
    requires 0 <= weight <= 100
    requires 0 < watermark.Length0 && 0 < watermark.Length1
    ensures fresh(newImage)
    ensures newImage.Length0 == image.Length0 && newImage.Length1 == image.Length1
    ensures forall x: nat, y: nat :: x < newImage.Length0 && y < newImage.Length1 ==>
              newImage[x, y] == ExpectedPixel(image, watermark, weight, placement, t, x, y)
    ensures written == VisitOrder(image.Length0, image.Length1)
  {
    newImage := new Color[image.Length0, image.Length1]((_, _) => Color(0, 0, 0, 255));
    written := [];
    for x := 0 to newImage.Length0
      invariant forall i: nat, j: nat :: i < x && j < newImage.Length1 ==>
                  newImage[i, j] == ExpectedPixel(image, watermark, weight, placement, t, i, j)
      invariant written == VisitOrder(x, newImage.Length1)
    {
      ghost var column := FillColumn(image, watermark, newImage, weight, placement, t, x);
      written := written + column;
    }
  }

  /** In a single placement, a base pixel outside the watermark's rectangle keeps its
      colour, whatever the weight and transparency mode. */
  lemma UncoveredPixelKeepsBase(image: array2<Color>, watermark: array2<Color>, weight: int,
                                at: Point, t: Transparency, x: nat, y: nat)
    requires 0 <= weight <= 100
    requires x < image.Length0 && y < image.Length1
    requires 0 < watermark.Length0 && 0 < watermark.Length1
    requires !CheckPixelPosition(at, watermark.Length0, watermark.Length1, x, y)
    ensures ExpectedPixel(image, watermark, weight, Single(at), t, x, y) == AsRgb(image[x, y])
  {
  }

  /** What each transparency mode does with a covered pixel: a key colour leaves the base
      colour wherever the watermark shows exactly that colour and blends elsewhere; the
      alpha channel blends only fully opaque watermark pixels; otherwise every covered
      pixel is blended. */
  lemma TransparencyRule(image: array2<Color>, watermark: array2<Color>, weight: int,
                         placement: Placement, t: Transparency, x: nat, y: nat, at: Coord)
    requires 0 <= weight <= 100
    requires x < image.Length0 && y < image.Length1
    requires 0 < watermark.Length0 && 0 < watermark.Length1
    requires Resolve(placement, watermark.Length0, watermark.Length1, x, y) == Some(at)
    ensures var raw, base := watermark[at.x, at.y], image[x, y];
      var out := ExpectedPixel(image, watermark, weight, placement, t, x, y);
      && (t.Key? ==>
            out == if SameRgb(raw, Color(t.red, t.green, t.blue, 255)) then AsRgb(base)
                   else Blend(weight, raw, base))
      && (t.Alpha? ==> out == if raw.alpha == 255 then Blend(weight, raw, base) else AsRgb(base))
      && (t.Opaque? ==> out == Blend(weight, raw, base))
  {
  }

  /** At weight 0 the output is the base image, in every placement and transparency mode. */
  lemma ZeroWeightKeepsBase(image: array2<Color>, watermark: array2<Color>,
                            placement: Placement, t: Transparency, x: nat, y: nat)
    requires x < image.Length0 && y < image.Length1
    requires 0 < watermark.Length0 && 0 < watermark.Length1
    ensures ExpectedPixel(image, watermark, 0, placement, t, x, y) == AsRgb(image[x, y])
  {
    match Resolve(placement, watermark.Length0, watermark.Length1, x, y) {
      case None =>
      case Some(at) => BlendEndpoints(watermark[at.x, at.y], image[x, y]);
    }
  }

  /** At weight 100 every covered pixel that contributes shows the watermark's colour. */
  lemma FullWeightShowsWatermark(image: array2<Color>, watermark: array2<Color>,
                                 placement: Placement, t: Transparency, x: nat, y: nat, at: Coord)
    requires x < image.Length0 && y < image.Length1
    requires 0 < watermark.Length0 && 0 < watermark.Length1
    requires Resolve(placement, watermark.Length0, watermark.Length1, x, y) == Some(at)
    requires Contributes(t, watermark[at.x, at.y])
    ensures ExpectedPixel(image, watermark, 100, placement, t, x, y) == AsRgb(watermark[at.x, at.y])
  {
    BlendEndpoints(watermark[at.x, at.y], image[x, y]);
  }

  /** A watermark as large as the base, placed once at the origin without transparency,
      reproduces itself at weight 100 and leaves the base at weight 0. */
  lemma WholeImageWatermark(image: array2<Color>, watermark: array2<Color>, x: nat, y: nat)
    requires x < image.Length0 && y < image.Length1
    requires watermark.Length0 == image.Length0 && watermark.Length1 == image.Length1
    ensures ExpectedPixel(image, watermark, 100, Single(Point(0, 0)), Opaque, x, y)
            == AsRgb(watermark[x, y])
    ensures ExpectedPixel(image, watermark, 0, Single(Point(0, 0)), Opaque, x, y)
            == AsRgb(image[x, y])
  {
    FullWeightShowsWatermark(image, watermark, Single(Point(0, 0)), Opaque, x, y, Coord(x, y));
    ZeroWeightKeepsBase(image, watermark, Single(Point(0, 0)), Opaque, x, y);
  }

  /** A 2 by 2 blue watermark at (1, 1) on a 4 by 4 red base at weight 50, read without
      alpha: the covered pixel (1, 1) becomes (127, 0, 127), the corner (0, 0) stays red. */
  lemma RedBaseBlueWatermark(image: array2<Color>, watermark: array2<Color>)
    requires image.Length0 == 4 && image.Length1 == 4
    requires watermark.Length0 == 2 && watermark.Length1 == 2
    requires image[0, 0] == Color(255, 0, 0, 255) && image[1, 1] == Color(255, 0, 0, 255)
    requires watermark[0, 0] == Color(0, 0, 255, 255)
    ensures ExpectedPixel(image, watermark, 50, Single(Point(1, 1)), Opaque, 1, 1)
            == Color(127, 0, 127, 255)
    ensures ExpectedPixel(image, watermark, 50, Single(Point(1, 1)), Opaque, 0, 0)
            == Color(255, 0, 0, 255)
  {
    var red, blue := Color(255, 0, 0, 255), Color(0, 0, 255, 255);
    TransparencyRule(image, watermark, 50, Single(Point(1, 1)), Opaque, 1, 1, Coord(0, 0));
    assert Combine(50, 0, 255) == 127 && Combine(50, 255, 0) == 127 && Combine(50, 0, 0) == 0;
    assert Blend(50, blue, red) == Color(127, 0, 127, 255);
    UncoveredPixelKeepsBase(image, watermark, 50, Point(1, 1), Opaque, 0, 0);
  }
}
