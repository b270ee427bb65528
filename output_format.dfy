/** The `match args.format.to_lowercase().as_str()` at the end of `main`:
    a case-insensitive choice among five encoders. */
module OutputFormat {
  import opened Results

  /** The encoders the match dispatches to; "jpeg" and "jpg" share one. */
  datatype Encoder = Png | Jpeg | Bmp | Gif | WebP

  /** Quality passed to `JpegEncoder::new_with_quality`. */
  const JpegQuality: nat := 80
  /** Quality passed to the WebP encoder (75.0 in the source). */
  const WebPQuality: nat := 75

  /** The quality setting each encoder is run with, on the 0-100 scale; the
      lossless encoders take none. */
  function Quality(e: Encoder): (q: Option<nat>)
    ensures q.Some? <==> e == Jpeg || e == WebP
    ensures q.Some? ==> q.value <= 100
  {
    match e
    case Jpeg => Some(JpegQuality)
    case WebP => Some(WebPQuality)
    case _ => None
  }

  /** The `_` arm keeps the argument as given, not lower-cased. */
  datatype FormatError = UnsupportedFormat(given: string)

  function LowerChar(c: char): char {
    if 'A' <= c <= 'Z' then (c as int - 'A' as int + 'a' as int) as char else c
  }

  function UpperChar(c: char): char {
    if 'a' <= c <= 'z' then (c as int - 'a' as int + 'A' as int) as char else c
  }

  /** `str::to_lowercase` on ASCII letters; every other character is kept. */
  function ToLower(s: string): (r: string)
    ensures |r| == |s| && forall i :: 0 <= i < |s| ==> r[i] == LowerChar(s[i])
  {
    if s == [] then [] else [LowerChar(s[0])] + ToLower(s[1..])
  }

  function ToUpper(s: string): (r: string)
    ensures |r| == |s| && forall i :: 0 <= i < |s| ==> r[i] == UpperChar(s[i])
  {
    if s == [] then [] else [UpperChar(s[0])] + ToUpper(s[1..])
  }

  /** Every spelling each encoder is chosen by, in lower case. */
  function NamesOf(e: Encoder): set<string> {
    match e
    case Png => {"png"}
    case Jpeg => {"jpeg", "jpg"}
    case Bmp => {"bmp"}
    case Gif => {"gif"}
    case WebP => {"webp"}
  }

  const AcceptedNames: set<string> := {"png", "jpeg", "jpg", "bmp", "gif", "webp"}

  /** The format match of `main`. */
  function SelectEncoder(format: string): (r: Result<Encoder, FormatError>)
    ensures r.Ok? <==> ToLower(format) in AcceptedNames
    ensures r.Err? ==> r.error == UnsupportedFormat(format)
  {
    var f := ToLower(format);
    if f == "png" then Ok(Png)
    else if f == "jpeg" || f == "jpg" then Ok(Jpeg)
    else if f == "bmp" then Ok(Bmp)
    else if f == "gif" then Ok(Gif)
    else if f == "webp" then Ok(WebP)
    else Err(UnsupportedFormat(format))
  }

  /** The match agrees with the table of names, in both directions. */
  lemma SelectEncoderMatchesNames(format: string, e: Encoder)
    ensures SelectEncoder(format) == Ok(e) <==> ToLower(format) in NamesOf(e)
  {
  }

  /** The accepted names are exactly the names of the five encoders. */
  lemma AcceptedNamesAreAllNames()
    ensures forall e: Encoder :: NamesOf(e) <= AcceptedNames
    ensures forall n :: n in AcceptedNames ==> exists e: Encoder :: n in NamesOf(e)
  {
    assert "png" in NamesOf(Png) && "jpeg" in NamesOf(Jpeg) && "jpg" in NamesOf(Jpeg);
    assert "bmp" in NamesOf(Bmp) && "gif" in NamesOf(Gif) && "webp" in NamesOf(WebP);
  }

  /** Only the lower-cased argument decides which encoder is chosen. */
  lemma SelectEncoderCaseInsensitive(s: string, t: string)
    requires ToLower(s) == ToLower(t)
    ensures SelectEncoder(s).Ok? == SelectEncoder(t).Ok?
    ensures SelectEncoder(s).Ok? ==> SelectEncoder(s).value == SelectEncoder(t).value
  {
  }

  predicate NoUpper(s: string) {
    forall i :: 0 <= i < |s| ==> !('A' <= s[i] <= 'Z')
  }

  /** Lower-casing leaves a string without upper-case letters alone. */
  lemma {:induction false} LowerOfLower(s: string)
    requires NoUpper(s)
    ensures ToLower(s) == s
  {
    if s != [] {
      LowerOfLower(s[1..]);
    }
  }

  /** Lower-casing undoes upper-casing on a string without upper-case letters. */
  lemma {:induction false} LowerOfUpper(s: string)
    requires NoUpper(s)
    ensures ToLower(ToUpper(s)) == s
  {
    if s != [] {
      LowerOfUpper(s[1..]);
      assert ToUpper(s) == [UpperChar(s[0])] + ToUpper(s[1..]);
      assert ToLower(ToUpper(s)) == [LowerChar(UpperChar(s[0]))] + ToLower(ToUpper(s[1..]));
    }
  }

  lemma AcceptedNamesNoUpper(n: string)
    requires n in AcceptedNames
    ensures NoUpper(n)
  {
  }

  /** Every name, as written and in upper case, selects its encoder. */
  lemma SelectEncoderEveryName(e: Encoder, n: string)
    requires n in NamesOf(e)
    ensures SelectEncoder(n) == Ok(e) && SelectEncoder(ToUpper(n)) == Ok(e)
  {
    AcceptedNamesAreAllNames();
    AcceptedNamesNoUpper(n);
    LowerOfLower(n);
    LowerOfUpper(n);
    SelectEncoderMatchesNames(n, e);
    SelectEncoderMatchesNames(ToUpper(n), e);
  }

  /** "jpeg" and "jpg" reach the same encoder in any case. */
  lemma JpegAndJpgAgree(s: string)
    requires ToLower(s) == "jpeg" || ToLower(s) == "jpg"
    ensures SelectEncoder(s) == Ok(Jpeg)
  {
  }

  /** An unsupported format is reported with the argument exactly as given. */
  lemma TiffRejected()
    ensures SelectEncoder("tiff") == Err(UnsupportedFormat("tiff"))
    ensures SelectEncoder("TIFF") == Err(UnsupportedFormat("TIFF"))
  {
    assert ToLower("tiff") == "tiff";
    assert ToLower("TIFF") == "tiff";
  }

  function Diagnostic(e: FormatError): (m: string)
    ensures |m| >= 20 && m[..20] == "Unsupported format: " && m[20..] == e.given
  {
    "Unsupported format: " + e.given
  }
}
