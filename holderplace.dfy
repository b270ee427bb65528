/** `main` of src/main.rs as a function from the parsed arguments and the
    measured text size to the image it writes, or to the first failure. */
module Holderplace {
  import opened Results
  import opened HexColor
  import opened OutputFormat
  import opened Centering

  /** `struct Args` once the command line is parsed. */
  datatype Args = Args(width: nat, height: nat, bg: string, fg: string, text: string,
                       format: string, output: string)

  const DefaultBg: string := "#cccccc"
  const DefaultFg: string := "#333333"
  const DefaultText: string := "holderplace"
  const DefaultFormat: string := "png"
  const DefaultOutput: string := "out.png"

  /** The arguments when only `--width` and `--height` are given. */
  function WithDefaults(width: nat, height: nat): (a: Args)
    ensures a.width == width && a.height == height
    ensures ParseHexColor(a.bg) == Ok(Rgba(204, 204, 204, 255))
    ensures ParseHexColor(a.fg) == Ok(Rgba(51, 51, 51, 255))
    ensures SelectEncoder(a.format) == Ok(Png)
    ensures a.text == "holderplace" && a.output == "out.png"
  {
    DefaultBackground();
    DefaultForeground();
    DefaultFormatAccepted();
    Args(width, height, DefaultBg, DefaultFg, DefaultText, DefaultFormat, DefaultOutput)
  }

  datatype Role = Background | Foreground

  /** The failures `main` can report from the modelled code. */
  datatype Failure = BadColor(role: Role, color: ColorError) | BadFormat(format: FormatError)

  /** What a successful run writes to `path`: a `width` x `height` canvas
      filled with `background`, with `text` drawn in `foreground` at
      `origin`, encoded by `encoder`. */
  datatype Image = Image(width: nat, height: nat, background: Rgba, foreground: Rgba, text: string,
                         origin: Point, encoder: Encoder, path: string)

  /** `main` after argument parsing. `textWidth` and `textHeight` are what
      the font's `text_size` measures for the text. */
  function Run(args: Args, textWidth: nat, textHeight: nat): (r: Result<Image, Failure>)
    requires FitsI32(args.width) && FitsI32(args.height) && FitsI32(textWidth) && FitsI32(textHeight)
    ensures ParseHexColor(args.bg).Err? ==> r == Err(BadColor(Background, ParseHexColor(args.bg).error))
    ensures ParseHexColor(args.bg).Ok? && ParseHexColor(args.fg).Err? ==>
      r == Err(BadColor(Foreground, ParseHexColor(args.fg).error))
    ensures ParseHexColor(args.bg).Ok? && ParseHexColor(args.fg).Ok? && SelectEncoder(args.format).Err? ==>
      r == Err(BadFormat(SelectEncoder(args.format).error))
    ensures r.Ok? <==> ParseHexColor(args.bg).Ok? && ParseHexColor(args.fg).Ok? && SelectEncoder(args.format).Ok?
    ensures r.Ok? ==> r.value.width == args.width && r.value.height == args.height
    ensures r.Ok? ==> r.value.background == ParseHexColor(args.bg).value
    ensures r.Ok? ==> r.value.foreground == ParseHexColor(args.fg).value
    ensures r.Ok? ==> r.value.text == args.text
    ensures r.Ok? ==> r.value.encoder == SelectEncoder(args.format).value && r.value.path == args.output
    ensures r.Ok? ==> r.value.origin == Origin(args.width, args.height, textWidth, textHeight)
  {
    var bg := ParseHexColor(args.bg);
    if bg.Err? then Err(BadColor(Background, bg.error))
    else
      var fg := ParseHexColor(args.fg);
      if fg.Err? then Err(BadColor(Foreground, fg.error))
      else
        var origin := Origin(args.width, args.height, textWidth, textHeight);
        var encoder := SelectEncoder(args.format);
        if encoder.Err? then Err(BadFormat(encoder.error))
        else Ok(Image(args.width, args.height, bg.value, fg.value, args.text, origin, encoder.value, args.output))
  }

  /** `#` followed by six plain hex digits decodes digit by digit. */
  lemma ParseHashSix(t: string, c: Rgba)
    requires |t| == 6 && forall i :: 0 <= i < 6 ==> IsHexChar(t[i])
    requires c == Rgba(16 * HexDigitValue(t[0]) + HexDigitValue(t[1]),
      16 * HexDigitValue(t[2]) + HexDigitValue(t[3]),
      16 * HexDigitValue(t[4]) + HexDigitValue(t[5]), 255)
    ensures ParseHexColor("#" + t) == Ok(c)
  {
    assert Hashes(1) == "#";
    ParseExact(1, t);
  }

  /** The default background decodes to (204, 204, 204, 255). */
  lemma DefaultBackground()
    ensures ParseHexColor(DefaultBg) == Ok(Rgba(204, 204, 204, 255))
  {
    assert HexDigitValue('c') == 12;
    assert DefaultBg == "#" + "cccccc";
    ParseHashSix("cccccc", Rgba(204, 204, 204, 255));
  }

  /** The default foreground decodes to (51, 51, 51, 255). */
  lemma DefaultForeground()
    ensures ParseHexColor(DefaultFg) == Ok(Rgba(51, 51, 51, 255))
  {
    assert HexDigitValue('3') == 3;
    assert DefaultFg == "#" + "333333";
    ParseHashSix("333333", Rgba(51, 51, 51, 255));
  }

  /** The default format selects the PNG encoder. */
  lemma DefaultFormatAccepted()
    ensures SelectEncoder(DefaultFormat) == Ok(Png)
  {
    SelectEncoderEveryName(Png, DefaultFormat);
  }

  /** With only the dimensions and an output path given, the run succeeds
      and writes a PNG of grey text "holderplace" on light grey to that path. */
  lemma DefaultsSucceed(width: nat, height: nat, path: string, textWidth: nat, textHeight: nat)
    requires FitsI32(width) && FitsI32(height) && FitsI32(textWidth) && FitsI32(textHeight)
    ensures Run(WithDefaults(width, height).(output := path), textWidth, textHeight) == Ok(Image(width, height,
      Rgba(204, 204, 204, 255), Rgba(51, 51, 51, 255), "holderplace",
      Origin(width, height, textWidth, textHeight), Png, path))
  {
    var a := WithDefaults(width, height);
    assert ParseHexColor(a.bg).Ok? && ParseHexColor(a.fg).Ok? && SelectEncoder(a.format).Ok?;
  }

  /** A bad background is reported whatever the foreground and the format. */
  lemma BackgroundCheckedFirst(args: Args, fg: string, format: string, textWidth: nat, textHeight: nat)
    requires FitsI32(args.width) && FitsI32(args.height) && FitsI32(textWidth) && FitsI32(textHeight)
    requires ParseHexColor(args.bg).Err?
    ensures Run(args.(fg := fg, format := format), textWidth, textHeight)
      == Err(BadColor(Background, ParseHexColor(args.bg).error))
  {
  }

  /** With a good background, a bad foreground is reported whatever the format. */
  lemma ForegroundCheckedSecond(args: Args, format: string, textWidth: nat, textHeight: nat)
    requires FitsI32(args.width) && FitsI32(args.height) && FitsI32(textWidth) && FitsI32(textHeight)
    requires ParseHexColor(args.bg).Ok? && ParseHexColor(args.fg).Err?
    ensures Run(args.(format := format), textWidth, textHeight)
      == Err(BadColor(Foreground, ParseHexColor(args.fg).error))
  {
  }

  /** The text shown for each failure. */
  function Diagnostic(f: Failure): (m: string)
    ensures f.BadColor? && f.color.InvalidHexColor? ==>
      StartsWith(m, "Invalid hex color: ") && m[19..] == f.color.stripped
    ensures f.BadFormat? ==> StartsWith(m, "Unsupported format: ") && m[20..] == f.format.given
  {
    match f
    case BadColor(_, e) => HexColor.Diagnostic(e)
    case BadFormat(e) => OutputFormat.Diagnostic(e)
  }

  predicate StartsWith(m: string, prefix: string) {
    |prefix| <= |m| && m[..|prefix|] == prefix
  }

  /** The two messages the program writes itself tell the failures apart:
      "Invalid hex color: " exactly for a colour of the wrong length,
      "Unsupported format: " exactly for a rejected format. */
  lemma DiagnosticKinds(f: Failure)
    ensures StartsWith(Diagnostic(f), "Invalid hex color: ") <==> f.BadColor? && f.color.InvalidHexColor?
    ensures StartsWith(Diagnostic(f), "Unsupported format: ") <==> f.BadFormat?
  {
    match f
    case BadColor(_, e) =>
      DiagnosticInvalidHexColor(e);
      assert Diagnostic(f)[0] != 'U' by {
        match e
        case InvalidHexColor(_) => assert Diagnostic(f)[0] == 'I';
        case NotCharBoundary(_) => assert Diagnostic(f)[0] == 'b';
        case InvalidDigit(_) => assert Diagnostic(f)[0] == 'c';
      }
    case BadFormat(e) =>
      assert Diagnostic(f)[0] == 'U';
  }

  /** `--bg invalidcolor` fails on the length test of the background. */
  lemma InvalidBackgroundRejected(width: nat, height: nat, textWidth: nat, textHeight: nat)
    requires FitsI32(width) && FitsI32(height) && FitsI32(textWidth) && FitsI32(textHeight)
    ensures Run(WithDefaults(width, height).(bg := "invalidcolor"), textWidth, textHeight)
      == Err(BadColor(Background, InvalidHexColor("invalidcolor")))
  {
    InvalidColorRejected();
  }

  /** `-f tiff` with the default colours fails on the format. */
  lemma UnsupportedFormatRejected(width: nat, height: nat, textWidth: nat, textHeight: nat)
    requires FitsI32(width) && FitsI32(height) && FitsI32(textWidth) && FitsI32(textHeight)
    ensures Run(WithDefaults(width, height).(format := "tiff"), textWidth, textHeight)
      == Err(BadFormat(UnsupportedFormat("tiff")))
  {
    DefaultBackground();
    DefaultForeground();
    TiffRejected();
  }

  lemma RedParses()
    ensures ParseHexColor("#ff0000") == Ok(Rgba(255, 0, 0, 255))
  {
    assert HexDigitValue('f') == 15 && HexDigitValue('0') == 0;
    assert "#ff0000" == "#" + "ff0000";
    ParseHashSix("ff0000", Rgba(255, 0, 0, 255));
  }

  lemma GreenParses()
    ensures ParseHexColor("#00ff00") == Ok(Rgba(0, 255, 0, 255))
  {
    assert HexDigitValue('f') == 15 && HexDigitValue('0') == 0;
    assert "#00ff00" == "#" + "00ff00";
    ParseHashSix("00ff00", Rgba(0, 255, 0, 255));
  }

  /** `--bg #ff0000 --fg #00ff00 --text Hello` draws "Hello" in green on red, as a PNG. */
  lemma CustomColorsAccepted(width: nat, height: nat, textWidth: nat, textHeight: nat)
    requires FitsI32(width) && FitsI32(height) && FitsI32(textWidth) && FitsI32(textHeight)
    ensures var r := Run(WithDefaults(width, height).(bg := "#ff0000", fg := "#00ff00", text := "Hello"),
                         textWidth, textHeight);
      r.Ok? && r.value.background == Rgba(255, 0, 0, 255) && r.value.foreground == Rgba(0, 255, 0, 255)
      && r.value.text == "Hello" && r.value.encoder == Png
  {
    RedParses();
    GreenParses();
    DefaultFormatAccepted();
  }
}
