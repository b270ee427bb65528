/** `parse_hex_color` of src/main.rs: strip leading '#', require six bytes,
    decode three base-16 byte pairs, alpha fixed at 255. Every way the Rust
    function panics is an `Err` here. */
module HexColor {
  import opened Results
  import opened Utf8

  /** `image::Rgba<u8>`. */
  datatype Rgba = Rgba(r: byte, g: byte, b: byte, a: byte)

  const Opaque: byte := 255

  datatype Channel = Red | Green | Blue

  /** The three ways `parse_hex_color` panics. */
  datatype ColorError =
    | InvalidHexColor(stripped: string)  // the `_` arm: the stripped text is not six bytes long
    | NotCharBoundary(index: nat)        // `&s[i..j]` with an end inside a multi-byte character
    | InvalidDigit(channel: Channel)     // `from_str_radix(..).unwrap()` on a pair that is not a number

  /** `n` copies of '#'. */
  function Hashes(n: nat): (h: string)
    ensures |h| == n && forall i :: 0 <= i < n ==> h[i] == '#'
  {
    if n == 0 then [] else ['#'] + Hashes(n - 1)
  }

  /** `str::trim_start_matches('#')`: the longest suffix of `s` that does not
      start with '#'; everything cut off is '#'. */
  function StripHashes(s: string): (r: string)
    ensures |r| <= |s| && r == s[|s| - |r|..]
    ensures forall i :: 0 <= i < |s| - |r| ==> s[i] == '#'
    ensures r == [] || r[0] != '#'
  {
    if s != [] && s[0] == '#' then StripHashes(s[1..]) else s
  }

  /** Any run of leading '#' followed by text not starting with '#' strips to
      exactly that text: '#' characters further in are kept. */
  lemma {:induction false} StripHashesExact(n: nat, t: string)
    requires t == [] || t[0] != '#'
    ensures StripHashes(Hashes(n) + t) == t
  {
    var x := Hashes(n) + t;
    if n == 0 {
      assert x == t;
    } else {
      assert Hashes(n) == ['#'] + Hashes(n - 1);
      assert x == ['#'] + (Hashes(n - 1) + t);
      assert x[1..] == Hashes(n - 1) + t;
      StripHashesExact(n - 1, t);
      assert StripHashes(x) == StripHashes(x[1..]);
    }
  }

  /** Leading '#' characters make no difference: "abcdef", "#abcdef" and
      "##abcdef" strip alike. */
  lemma {:induction false} StripHashesPrefix(n: nat, s: string)
    ensures StripHashes(Hashes(n) + s) == StripHashes(s)
  {
    var x := Hashes(n) + s;
    if n == 0 {
      assert x == s;
    } else {
      assert x[0] == '#';
      assert x[1..] == Hashes(n - 1) + s;
      StripHashesPrefix(n - 1, s);
      assert StripHashes(x) == StripHashes(x[1..]);
    }
  }

  /** `char::is_digit(16)`, which `from_str_radix` applies to each byte. */
  predicate IsHexChar(c: char) {
    ('0' <= c <= '9') || ('a' <= c <= 'f') || ('A' <= c <= 'F')
  }

  function HexDigitValue(c: char): (v: nat)
    requires IsHexChar(c)
    ensures v < 16
  {
    if '0' <= c <= '9' then c as int - '0' as int
    else if 'a' <= c <= 'f' then c as int - 'a' as int + 10
    else c as int - 'A' as int + 10
  }

  /** The digit for `v`, in lower or upper case. */
  function HexDigitChar(v: nat, upper: bool): (c: char)
    requires v < 16
    ensures IsHexChar(c) && HexDigitValue(c) == v
  {
    if v < 10 then ('0' as int + v) as char
    else if upper then ('A' as int + v - 10) as char
    else ('a' as int + v - 10) as char
  }

  /** A two-character pair that `u8::from_str_radix(_, 16)` accepts: two hex
      digits, or '+' and one hex digit (an unsigned type takes a leading '+'
      but not a '-'). */
  predicate AcceptedPair(c0: char, c1: char) {
    (c0 == '+' || IsHexChar(c0)) && IsHexChar(c1)
  }

  function PairValue(c0: char, c1: char): (v: byte)
    requires AcceptedPair(c0, c1)
  {
    if c0 == '+' then HexDigitValue(c1) else 16 * HexDigitValue(c0) + HexDigitValue(c1)
  }

  /** `u8::from_str_radix(p, 16)` on the two-byte slices `parse_hex_color`
      passes (two digits cannot overflow a `u8`). */
  function ParseByteRadix16(p: seq<byte>): (r: Option<byte>)
    requires |p| == 2
    ensures r.Some? <==> AcceptedPair(p[0] as char, p[1] as char)
    ensures r.Some? ==> r.value == PairValue(p[0] as char, p[1] as char)
  {
    var c0, c1 := p[0] as char, p[1] as char;
    if c0 == '+' then
      if IsHexChar(c1) then Some(HexDigitValue(c1)) else None
    else if IsHexChar(c0) && IsHexChar(c1) then Some(16 * HexDigitValue(c0) + HexDigitValue(c1))
    else None
  }

  /** `&s[i..j]` on the byte view: both ends must be character boundaries,
      the start first. */
  function Slice(s: seq<byte>, i: nat, j: nat): (r: Result<seq<byte>, ColorError>)
    requires i <= j <= |s|
    ensures r.Ok? <==> IsCharBoundary(s, i) && IsCharBoundary(s, j)
    ensures r.Ok? ==> r.value == s[i..j]
    ensures r.Err? ==> r.error == NotCharBoundary(if IsCharBoundary(s, i) then j else i)
  {
    if !IsCharBoundary(s, i) then Err(NotCharBoundary(i))
    else if !IsCharBoundary(s, j) then Err(NotCharBoundary(j))
    else Ok(s[i..j])
  }

  /** One `let x = u8::from_str_radix(&s[2k..2k+2], 16).unwrap();` line. */
  function Component(s: seq<byte>, k: nat, ch: Channel): (r: Result<byte, ColorError>)
    requires |s| == 6 && k < 3
    ensures r.Ok? <==> IsCharBoundary(s, 2 * k) && IsCharBoundary(s, 2 * k + 2)
                       && AcceptedPair(s[2 * k] as char, s[2 * k + 1] as char)
    ensures r.Ok? ==> r.value == PairValue(s[2 * k] as char, s[2 * k + 1] as char)
    ensures r.Err? && !IsCharBoundary(s, 2 * k) ==> r.error == NotCharBoundary(2 * k)
    ensures r.Err? && IsCharBoundary(s, 2 * k) && !IsCharBoundary(s, 2 * k + 2) ==>
      r.error == NotCharBoundary(2 * k + 2)
    ensures r.Err? && IsCharBoundary(s, 2 * k) && IsCharBoundary(s, 2 * k + 2) ==> r.error == InvalidDigit(ch)
  {
    assert s[2 * k..2 * k + 2] == [s[2 * k], s[2 * k + 1]];
    var slice := Slice(s, 2 * k, 2 * k + 2);
    if slice.Err? then Err(slice.error)
    else
      var v := ParseByteRadix16(slice.value);
      if v.None? then Err(InvalidDigit(ch)) else Ok(v.value)
  }

  /** The `6 =>` arm: red, then green, then blue. */
  function DecodeSix(s: seq<byte>): (r: Result<Rgba, ColorError>)
    requires |s| == 6
    ensures r.Ok? ==> r.value.a == Opaque
    ensures r.Err? ==> !r.error.InvalidHexColor?
  {
    var red := Component(s, 0, Red);
    if red.Err? then Err(red.error)
    else
      var green := Component(s, 1, Green);
      if green.Err? then Err(green.error)
      else
        var blue := Component(s, 2, Blue);
        if blue.Err? then Err(blue.error)
        else Ok(Rgba(red.value, green.value, blue.value, Opaque))
  }

  /** `parse_hex_color(s)`. The length test is on the UTF-8 byte length, as
      `str::len` is. */
  function ParseHexColor(s: string): (r: Result<Rgba, ColorError>)
    ensures (r.Err? && r.error.InvalidHexColor?) <==> |Encode(StripHashes(s))| != 6
    ensures r.Err? && r.error.InvalidHexColor? ==> r.error.stripped == StripHashes(s)
    ensures r.Ok? ==> r.value.a == Opaque
  {
    var t := StripHashes(s);
    var bytes := Encode(t);
    if |bytes| != 6 then Err(InvalidHexColor(t)) else DecodeSix(bytes)
  }

  /** What the source's callers can rely on: six characters remaining after
      the '#' prefix, forming three accepted pairs. */
  predicate WellFormedHex(t: string) {
    |t| == 6 && AcceptedPair(t[0], t[1]) && AcceptedPair(t[2], t[3]) && AcceptedPair(t[4], t[5])
  }

  /** The colour a well-formed remainder denotes. */
  function Denoted(t: string): Rgba
    requires WellFormedHex(t)
  {
    Rgba(PairValue(t[0], t[1]), PairValue(t[2], t[3]), PairValue(t[4], t[5]), Opaque)
  }

  /** Byte-level form of `WellFormedHex`: the three slices all parse. */
  predicate AcceptedBytes(b: seq<byte>)
    requires |b| == 6
  {
    AcceptedPair(b[0] as char, b[1] as char) && AcceptedPair(b[2] as char, b[3] as char)
    && AcceptedPair(b[4] as char, b[5] as char)
  }

  /** An accepted character is ASCII, so it is never a continuation byte. */
  lemma AcceptedBytesAscii(b: seq<byte>)
    requires |b| == 6 && AcceptedBytes(b)
    ensures forall i :: 0 <= i < 6 ==> b[i] < 0x80
  {
  }

  lemma DecodeSixOkIff(b: seq<byte>)
    requires |b| == 6
    ensures DecodeSix(b).Ok? <==> AcceptedBytes(b)
    ensures DecodeSix(b).Ok? ==> DecodeSix(b).value == Rgba(PairValue(b[0] as char, b[1] as char),
      PairValue(b[2] as char, b[3] as char), PairValue(b[4] as char, b[5] as char), Opaque)
  {
    assert b[0..2] == [b[0], b[1]] && b[2..4] == [b[2], b[3]] && b[4..6] == [b[4], b[5]];
    if AcceptedBytes(b) {
      AcceptedBytesAscii(b);
      assert IsCharBoundary(b, 2) && IsCharBoundary(b, 4);
    }
  }

  lemma ParseWellFormed(s: string)
    requires WellFormedHex(StripHashes(s))
    ensures ParseHexColor(s) == Ok(Denoted(StripHashes(s)))
  {
    var t := StripHashes(s);
    var b := Encode(t);
    assert AllAscii(t);
    assert |b| == 6;
    assert b[0] as char == t[0] && b[1] as char == t[1] && b[2] as char == t[2];
    assert b[3] as char == t[3] && b[4] as char == t[4] && b[5] as char == t[5];
    assert AcceptedBytes(b);
    DecodeSixOkIff(b);
    assert ParseHexColor(s) == DecodeSix(b);
  }

  lemma ParseOkWellFormed(s: string)
    requires ParseHexColor(s).Ok?
    ensures WellFormedHex(StripHashes(s))
  {
    var t := StripHashes(s);
    var b := Encode(t);
    DecodeSixOkIff(b);
    AcceptedBytesAscii(b);
    AsciiBytesAsciiString(t);
    assert forall i :: 0 <= i < 6 ==> b[i] as char == t[i];
  }

  /** The parser succeeds exactly on well-formed input, and then yields the
      colour its digits denote. */
  lemma ParseSucceedsIff(s: string)
    ensures ParseHexColor(s).Ok? <==> WellFormedHex(StripHashes(s))
    ensures ParseHexColor(s).Ok? ==> ParseHexColor(s).value == Denoted(StripHashes(s))
  {
    if WellFormedHex(StripHashes(s)) {
      ParseWellFormed(s);
    } else if ParseHexColor(s).Ok? {
      ParseOkWellFormed(s);
    }
  }

  /** Exact decoding of six plain hex digits, in either case, behind any
      number of '#'. */
  lemma ParseExact(n: nat, t: string)
    requires |t| == 6 && forall i :: 0 <= i < 6 ==> IsHexChar(t[i])
    ensures ParseHexColor(Hashes(n) + t) == Ok(Rgba(
      16 * HexDigitValue(t[0]) + HexDigitValue(t[1]),
      16 * HexDigitValue(t[2]) + HexDigitValue(t[3]),
      16 * HexDigitValue(t[4]) + HexDigitValue(t[5]),
      255))
  {
    StripHashesExact(n, t);
    ParseSucceedsIff(Hashes(n) + t);
  }

  /** Leading '#' characters never change the outcome. */
  lemma ParseIgnoresHashPrefix(n: nat, s: string)
    ensures ParseHexColor(Hashes(n) + s) == ParseHexColor(s)
  {
    StripHashesPrefix(n, s);
  }

  /** Letting through a sign: each pair may be '+' and one digit. */
  lemma ParsePlusQuirk()
    ensures ParseHexColor("+f+f+f") == Ok(Rgba(15, 15, 15, 255))
  {
    StripHashesExact(0, "+f+f+f");
    ParseSucceedsIff("+f+f+f");
  }

  /** Six bytes that are not three accepted pairs are still rejected, but by
      a library panic, not by the "Invalid hex color" arm. */
  lemma ParseLengthSixBadCharacters(s: string)
    requires |Encode(StripHashes(s))| == 6 && !WellFormedHex(StripHashes(s))
    ensures ParseHexColor(s).Err? && !ParseHexColor(s).error.InvalidHexColor?
  {
    ParseSucceedsIff(s);
  }

  /** Pure ASCII: any remainder whose length is not six is reported with the
      remainder itself. */
  lemma ParseWrongLength(s: string)
    requires AllAscii(StripHashes(s)) && |StripHashes(s)| != 6
    ensures ParseHexColor(s) == Err(InvalidHexColor(StripHashes(s)))
  {
  }

  /** The rejected argument of the command-line tests. */
  lemma InvalidColorRejected()
    ensures ParseHexColor("invalidcolor") == Err(InvalidHexColor("invalidcolor"))
  {
    StripHashesExact(0, "invalidcolor");
    assert Hashes(0) + "invalidcolor" == "invalidcolor";
    ParseWrongLength("invalidcolor");
  }

  /** The two hex digits of a byte. */
  function HexPair(v: byte, upper: bool): (p: string)
    ensures |p| == 2 && AcceptedPair(p[0], p[1]) && PairValue(p[0], p[1]) == v
  {
    [HexDigitChar(v / 16, upper), HexDigitChar(v % 16, upper)]
  }

  /** The usual `#rrggbb` spelling of an opaque colour. */
  function FormatHex(c: Rgba, upper: bool): (s: string)
    ensures |s| == 7 && s[0] == '#'
  {
    "#" + HexPair(c.r, upper) + HexPair(c.g, upper) + HexPair(c.b, upper)
  }

  lemma FormatHexBody(c: Rgba, upper: bool)
    requires c.a == Opaque
    ensures FormatHex(c, upper) == "#" + FormatHex(c, upper)[1..]
    ensures WellFormedHex(FormatHex(c, upper)[1..]) && Denoted(FormatHex(c, upper)[1..]) == c
  {
    var pr, pg, pb := HexPair(c.r, upper), HexPair(c.g, upper), HexPair(c.b, upper);
    var body := FormatHex(c, upper)[1..];
    assert body == pr + pg + pb;
    assert body[0] == pr[0] && body[1] == pr[1];
    assert body[2] == pg[0] && body[3] == pg[1];
    assert body[4] == pb[0] && body[5] == pb[1];
  }

  /** Parsing inverts formatting for every opaque colour, in both cases and
      behind any number of extra '#'. */
  lemma ParseFormatRoundTrip(c: Rgba, upper: bool, n: nat)
    requires c.a == Opaque
    ensures ParseHexColor(Hashes(n) + FormatHex(c, upper)) == Ok(c)
  {
    var f := FormatHex(c, upper);
    var body := f[1..];
    FormatHexBody(c, upper);
    assert f == Hashes(1) + body;
    StripHashesExact(1, body);
    StripHashesPrefix(n, f);
    assert StripHashes(Hashes(n) + f) == body;
    ParseWellFormed(Hashes(n) + f);
  }

  /** `n` in decimal. */
  function Decimal(n: nat): (s: string)
    ensures |s| >= 1 && forall i :: 0 <= i < |s| ==> '0' <= s[i] <= '9'
  {
    var d := [('0' as int + n % 10) as char];
    if n < 10 then d else Decimal(n / 10) + d
  }

  /** The text each panic prints. Slicing panics go on to name the character
      and its byte range; only their opening words are given. */
  function Diagnostic(e: ColorError): (m: string)
    ensures e.InvalidHexColor? ==> |m| >= 19 && m[..19] == "Invalid hex color: " && m[19..] == e.stripped
    ensures e.NotCharBoundary? ==> |m| > 11 && m[..11] == "byte index " && '0' <= m[11] <= '9'
    ensures e.InvalidDigit? ==> |m| > 6 && m[..6] == "called"
  {
    match e
    case InvalidHexColor(t) => "Invalid hex color: " + t
    case NotCharBoundary(i) => "byte index " + Decimal(i) + " is not a char boundary"
    // Split so that the verifier sees the first word: it does not look
    // inside a string literal this long.
    case InvalidDigit(_) => "called" + " `Result::unwrap()` on an `Err` value: ParseIntError { kind: InvalidDigit }"
  }

  /** The message starts with "Invalid hex color: " exactly for wrong-length
      input, and then names the stripped text. */
  lemma DiagnosticInvalidHexColor(e: ColorError)
    ensures (|Diagnostic(e)| >= 19 && Diagnostic(e)[..19] == "Invalid hex color: ") <==> e.InvalidHexColor?
    ensures e.InvalidHexColor? ==> Diagnostic(e)[19..] == e.stripped
  {
    match e
    case InvalidHexColor(_) =>
    case NotCharBoundary(i) =>
      assert Diagnostic(e)[0] == 'b';
    case InvalidDigit(_) =>
      assert Diagnostic(e)[0] == 'c';
  }
}
