/** The checks the program makes on its inputs before blending, as validators over values
    that have already been read: the dimension check, the opacity percentage, the position,
    the transparency colour and the output file name. Where the program prints a message
    and exits, the validator returns the matching `Error`; where an exception escapes,
    it returns `Uncaught`. */
module Parameters {
  import opened Wrappers
  import opened ColorBlender
  import opened PlacementResolver
  import opened TransparencyPolicy

  datatype Error =
    | DimensionsLarger          // the watermark is wider or taller than the base
    | PercentageNotInteger      // the percentage is not an integer
    | PercentageOutOfRange      // the percentage is outside 0..100
    | PositionInvalid           // a coordinate of the position is not an integer
    | PositionOutOfRange        // the position would push the watermark past the base
    | PositionMethodInvalid     // neither "single" nor "grid"
    | TransparencyColorInvalid  // not three channels, or a channel outside 0..255
    | ExtensionInvalid          // the output name ends in neither ".jpg" nor ".png"
    | Uncaught                  // an exception the program does not catch ends it

  /** `checkImagesDimensions`: the watermark must fit in the base image on both axes. */
  function CheckImagesDimensions(iw: nat, ih: nat, ww: nat, wh: nat): (r: Result<(), Error>)
    ensures r.Ok? <==> ww <= iw && wh <= ih
    ensures r.Err? ==> r.error == DimensionsLarger
  {
    if iw < ww || ih < wh then Err(DimensionsLarger) else Ok(())
  }

  /** `getWatermarkPercentage`; `input` is `toIntOrNull` of the line read, None when it is
      not an integer. */
  function GetWatermarkPercentage(input: Option<int>): (r: Result<int, Error>)
    ensures r.Ok? <==> input.Some? && 0 <= input.value <= 100
    ensures r.Ok? ==> r.value == input.value
    ensures input.None? ==> r == Err(PercentageNotInteger)
    ensures input.Some? && !r.Ok? ==> r == Err(PercentageOutOfRange)
  {
    match input
    case None => Err(PercentageNotInteger)
    case Some(p) => if !(0 <= p <= 100) then Err(PercentageOutOfRange) else Ok(p)
  }

  predicate AllParsed(tokens: seq<Option<int>>) {
    forall k :: 0 <= k < |tokens| ==> tokens[k].Some?
  }

  /** `getWatermarkPosition`. `choice` is the lower-cased answer to the position method
      question and `tokens` the space-separated words of the position line, each as `toInt`
      parses it (None when it fails). A word that fails to parse is caught and reported;
      fewer than two numbers makes the destructuring throw outside the `try`; the values
      of words past the second are ignored. */
  function GetWatermarkPosition(choice: string, tokens: seq<Option<int>>,
                                iw: int, ih: int, ww: int, wh: int): (r: Result<Placement, Error>)
    ensures choice == "grid" ==> r == Ok(Grid)
    ensures choice != "single" && choice != "grid" ==> r == Err(PositionMethodInvalid)
    ensures choice == "single" && !AllParsed(tokens) ==> r == Err(PositionInvalid)
    ensures choice == "single" && AllParsed(tokens) && |tokens| < 2 ==> r == Err(Uncaught)
    ensures choice == "single" && AllParsed(tokens) && 2 <= |tokens| ==>
      r == if 0 <= tokens[0].value <= iw - ww && 0 <= tokens[1].value <= ih - wh
           then Ok(Single(Point(tokens[0].value, tokens[1].value)))
           else Err(PositionOutOfRange)
    ensures r.Ok? && r.value.Single? ==>
      && r.value.at == Point(tokens[0].value, tokens[1].value)
      && 0 <= r.value.at.x && r.value.at.x + ww <= iw
      && 0 <= r.value.at.y && r.value.at.y + wh <= ih
  {
    if choice == "single" then
      var diffX, diffY := iw - ww, ih - wh;
      if !AllParsed(tokens) then Err(PositionInvalid)
      else if |tokens| < 2 then Err(Uncaught)
      else
        var xPos, yPos := tokens[0].value, tokens[1].value;
        if !(0 <= xPos <= diffX) || !(0 <= yPos <= diffY) then Err(PositionOutOfRange)
        else Ok(Single(Point(xPos, yPos)))
    else if choice == "grid" then Ok(Grid)
    else Err(PositionMethodInvalid)
  }

  /** The transparency colour read in `blendingImagesWithTransparencyColor`: the line must
      have exactly three words (checked before parsing), each word must parse (otherwise
      `toInt` throws), and each channel must be in 0..255. */
  function GetTransparencyColor(tokens: seq<Option<int>>): (r: Result<Transparency, Error>)
    ensures r.Ok? <==>
      |tokens| == 3 && AllParsed(tokens) && forall k :: 0 <= k < 3 ==> 0 <= tokens[k].value <= 255
    ensures r.Ok? ==>
      && r.value.Key?
      && r.value.red == tokens[0].value
      && r.value.green == tokens[1].value
      && r.value.blue == tokens[2].value
    ensures |tokens| != 3 ==> r == Err(TransparencyColorInvalid)
    ensures |tokens| == 3 && !AllParsed(tokens) ==> r == Err(Uncaught)
    ensures |tokens| == 3 && AllParsed(tokens) && !r.Ok? ==> r == Err(TransparencyColorInvalid)
  {
    if |tokens| != 3 then Err(TransparencyColorInvalid)
    else if !AllParsed(tokens) then Err(Uncaught)
    else
      var red, green, blue := tokens[0].value, tokens[1].value, tokens[2].value;
      if !(0 <= red <= 255) || !(0 <= green <= 255) || !(0 <= blue <= 255) then
        Err(TransparencyColorInvalid)
      else Ok(Key(red, green, blue))
  }

  predicate EndsWith(s: string, suffix: string) {
    |suffix| <= |s| && s[|s| - |suffix|..] == suffix
  }

  /** `getOutputFileName`: the last four characters must be ".jpg" or ".png"; a name
      shorter than four characters makes `substring` throw. */
  function GetOutputFileName(name: string): (r: Result<string, Error>)
    ensures |name| < 4 ==> r == Err(Uncaught)
    ensures 4 <= |name| ==> (r.Ok? <==> EndsWith(name, ".jpg") || EndsWith(name, ".png"))
    ensures r.Ok? ==> r.value == name
    ensures r.Err? && 4 <= |name| ==> r.error == ExtensionInvalid
  {
    if |name| < 4 then Err(Uncaught)
    else
      var ext := name[|name| - 4..];
      if ext != ".jpg" && ext != ".png" then Err(ExtensionInvalid) else Ok(name)
  }

  /** The format name handed to the image writer: the last three characters of the name. */
  function OutputFormat(name: string): (format: string)
    requires 3 <= |name|
    ensures |format| == 3 && EndsWith(name, format)
  {
    name[|name| - 3..]
  }

  /** An accepted output name always yields the format "jpg" or "png". */
  lemma AcceptedNameHasKnownFormat(name: string)
    requires GetOutputFileName(name).Ok?
    ensures OutputFormat(name) == "jpg" || OutputFormat(name) == "png"
  {
    var ext := name[|name| - 4..];
    assert OutputFormat(name) == ext[1..];
  }

  /** Every integer percentage the check rejects would have driven some channel of the
      blend outside 0..255, so the `Color` constructor would have thrown. */
  lemma RejectedPercentageWouldOverflow(p: int)
    requires GetWatermarkPercentage(Some(p)) == Err(PercentageOutOfRange)
    ensures Combine(p, 255, 0) < 0 || 255 < Combine(p, 255, 0)
  {
    CombineOutsideRangeOverflows(p);
  }

  /** Once the dimension check passes, the origin is an accepted single position; when it
      fails, no single position is accepted. */
  lemma DimensionCheckDecidesPositions(iw: nat, ih: nat, ww: nat, wh: nat, tokens: seq<Option<int>>)
    ensures CheckImagesDimensions(iw, ih, ww, wh).Ok? ==>
      GetWatermarkPosition("single", [Some(0), Some(0)], iw, ih, ww, wh) == Ok(Single(Point(0, 0)))
    ensures CheckImagesDimensions(iw, ih, ww, wh).Err? ==>
      !GetWatermarkPosition("single", tokens, iw, ih, ww, wh).Ok?
  {
  }

  /** With an accepted single position, every pixel of the watermark is drawn on a pixel
      of the base image, and that base pixel resolves back to it. */
  lemma AcceptedPositionDrawsWholeWatermark(choice: string, tokens: seq<Option<int>>,
                                            iw: nat, ih: nat, ww: nat, wh: nat, wx: nat, wy: nat)
    requires 0 < ww && 0 < wh && wx < ww && wy < wh
    requires GetWatermarkPosition(choice, tokens, iw, ih, ww, wh).Ok?
    requires GetWatermarkPosition(choice, tokens, iw, ih, ww, wh).value.Single?
    ensures var at := GetWatermarkPosition(choice, tokens, iw, ih, ww, wh).value.at;
      && 0 <= at.x + wx < iw && 0 <= at.y + wy < ih
      && Resolve(Single(at), ww, wh, at.x + wx, at.y + wy) == Some(Coord(wx, wy))
  {
    var at := GetWatermarkPosition(choice, tokens, iw, ih, ww, wh).value.at;
    SingleCoversWholeWatermark(at, ww, wh, iw, ih, wx, wy);
  }
}
