# holderplace: a verified model of its decision logic

holderplace is a command-line tool that writes one placeholder image: a
canvas of the requested width and height filled with a background colour,
with a line of text centred on it in a foreground colour, saved as PNG,
JPEG, BMP, GIF or WebP. Nearly all of it is glue around argument-parsing,
font and image libraries. This project models the parts of `src/main.rs`
that make decisions of their own, as pure Dafny functions with lemmas:

- `parse_hex_color` (module `HexColor`): strip every leading `#`, require
  exactly six bytes, decode three base-16 pairs into red, green and blue,
  alpha 255. Each way the Rust function panics is an `Err` value:
  `InvalidHexColor(stripped)` for the wrong length (the source's own
  `Invalid hex color: ...` panic), `NotCharBoundary(i)` when a slice end
  falls inside a multi-byte character, `InvalidDigit(channel)` when
  `u8::from_str_radix(..).unwrap()` fails.
- The output-format `match` (module `OutputFormat`): case-insensitive choice
  of one of five encoders, `jpeg` and `jpg` sharing one; anything else is
  `UnsupportedFormat(given)` with the argument as given.
- The text origin (module `Centering`):
  `(dim as i32 - text_dim as i32) / 2` per axis, with Rust's signed
  division, which truncates toward zero (Dafny's `/` is Euclidean, so
  `TruncDiv` is written out).
- `main` after argument parsing (module `Holderplace`): the `Args`
  defaults and the order of the checks (background, then foreground, then
  format). A successful run is described by an `Image` value (size,
  colours, text, origin, encoder, path); a failure carries no image, so an
  unsupported format writes nothing.

Modelling choices:

- A Rust `&str` is UTF-8 bytes: `str::len` counts bytes and `&s[i..j]`
  checks character boundaries on bytes. `trim_start_matches('#')` works on
  characters, so stripping is done on the Dafny `string`, and the remainder
  is then encoded to UTF-8 (module `Utf8`) for the length test, the slicing
  and the digit parsing. The parser is therefore total over all strings; for
  ASCII input the byte view and the character view coincide
  (`Utf8.Encode`, `Utf8.AsciiBytesAsciiString`).
- `u8::from_str_radix(p, 16)` is modelled on the two-byte slices the source
  passes: two hex digits of either case, or `+` followed by one hex digit
  (an unsigned type accepts a leading `+` but not `-`). So `+f+f+f` parses to
  (15, 15, 15, 255). Two digits cannot overflow a `u8`.
- Where a plain reading of the tool ("anything not matching
  `^#?[0-9a-fA-F]{6}$` is reported as an invalid hex colour") and the code
  disagree, the model follows the code: any number of leading `#` is
  accepted, `+` digits are accepted, and six-byte input with bad characters
  fails through a library panic whose message does not contain
  "Invalid hex color" (`HexColor.ParseLengthSixBadCharacters`).
- The text measurement `text_size` is a foreign call; its result is an input
  (`textWidth`, `textHeight`) of `Holderplace.Run`.

## Model

| member | source | states |
|---|---|---|
| `HexColor.StripHashes` | src/main.rs:43 | the result is the longest suffix not starting with `#`, and everything removed is `#` |
| `HexColor.StripHashesExact` | src/main.rs:43 | any number of `#` followed by text not starting with `#` strips to exactly that text, so a `#` further in is kept |
| `HexColor.StripHashesPrefix` | src/main.rs:43 | prepending `#` characters does not change what stripping yields |
| `HexColor.ParseByteRadix16` | src/main.rs:46-48 | a two-byte slice parses exactly when it is two hex digits or `+` and one hex digit, and then to the value of those digits |
| `HexColor.Slice` | src/main.rs:46-48 | `&s[i..j]` succeeds exactly when both ends are character boundaries, yields the bytes between them, and otherwise names the first bad end |
| `HexColor.Component` | src/main.rs:46-48 | one `from_str_radix(&s[2k..2k+2], 16).unwrap()` line succeeds exactly when both slice ends are character boundaries and the pair is accepted, yields the pair's value, and otherwise fails on the start boundary, then the end boundary, then with the channel's digit error |
| `HexColor.DecodeSix` | src/main.rs:45-50 | the six-byte arm yields alpha 255 on success and never the wrong-length error |
| `HexColor.ParseHexColor` | src/main.rs:42-54 | the wrong-length error occurs exactly when the stripped text is not six bytes, and names the stripped text; every colour returned has alpha 255 |
| `HexColor.DecodeSixOkIff` | src/main.rs:45-53 | six bytes decode exactly when all three pairs are accepted, to the colour of the three pair values |
| `HexColor.ParseSucceedsIff` | src/main.rs:42-54 | parsing succeeds exactly when the stripped text is six characters forming three accepted pairs, and then yields the colour they denote |
| `HexColor.ParseExact` | src/main.rs:44-53 | six hex digits of either case behind any number of `#` decode to (16*d0+d1, 16*d2+d3, 16*d4+d5, 255) |
| `HexColor.ParseIgnoresHashPrefix` | src/main.rs:43 | `abcdef`, `#abcdef`, `##abcdef` and every further `#` prefix give the same outcome |
| `HexColor.ParsePlusQuirk` | src/main.rs:46-48 | `+f+f+f` is accepted and decodes to (15, 15, 15, 255) |
| `HexColor.ParseLengthSixBadCharacters` | src/main.rs:44-48 | six bytes that are not three accepted pairs fail, but not with the wrong-length error |
| `HexColor.ParseWrongLength` | src/main.rs:44-51 | an ASCII remainder of any length other than six (the empty one too) fails with the wrong-length error naming the remainder |
| `HexColor.InvalidColorRejected` | tests/cli.rs:100-113 | `invalidcolor` fails with the wrong-length error naming `invalidcolor` |
| `HexColor.ParseFormatRoundTrip` | src/main.rs:42-54 | for every opaque colour, parsing its `#rrggbb` spelling (lower or upper case, behind any number of extra `#`) gives the colour back |
| `HexColor.Diagnostic` | src/main.rs:46-51 | the wrong-length panic prints `Invalid hex color: ` and the stripped text; a slicing panic begins `byte index ` and a digit; the `unwrap` panic begins `called` |
| `HexColor.DiagnosticInvalidHexColor` | src/main.rs:51 | a colour failure's message starts with `Invalid hex color: ` exactly for the wrong-length error, followed by the stripped text |
| `Utf8.IsCharBoundary` | src/main.rs:46-48 | that of `str::is_char_boundary`: no index past the end is a boundary, and a position holding an ASCII byte always is |
| `Utf8.EncodeChar` | src/main.rs:44-48 | an ASCII character is its own single byte; any other character takes two to four bytes, a lead byte of 0xC0 or more followed by continuation bytes, none below 0x80 |
| `Utf8.DecodeEncodeChar` | src/main.rs:44-48 | decoding a character's bytes gives back its code point, so the byte view loses nothing |
| `Utf8.EncodeCharStartsAreBoundaries` | src/main.rs:46-48 | the byte offset where each character starts, and the end, is a character boundary |
| `Utf8.EncodeCharInsidesAreNotBoundaries` | src/main.rs:46-48 | no byte offset inside a multi-byte character is a character boundary, so slicing there panics |
| `Utf8.Encode` | src/main.rs:44 | the byte length is at least the character count, and for ASCII text the bytes are the characters' codes |
| `Utf8.AsciiBytesAsciiString` | src/main.rs:44 | text whose bytes are all ASCII is all ASCII, so its byte length is its character count |
| `OutputFormat.ToLower` | src/main.rs:83 | lower-casing keeps the length and maps each character by ASCII lower-casing |
| `OutputFormat.SelectEncoder` | src/main.rs:83-98 | the format is accepted exactly when its lower-cased form is one of png, jpeg, jpg, bmp, gif, webp, and otherwise rejected with the argument as given |
| `OutputFormat.SelectEncoderMatchesNames` | src/main.rs:84-93 | an encoder is chosen exactly when the lower-cased format is one of its names in the table of arms |
| `OutputFormat.AcceptedNamesAreAllNames` | src/main.rs:84-93 | the accepted names are exactly the names of the five encoders |
| `OutputFormat.SelectEncoderCaseInsensitive` | src/main.rs:83 | two formats equal after lower-casing are accepted alike and select the same encoder |
| `OutputFormat.LowerOfUpper` | src/main.rs:83 | lower-casing undoes upper-casing of text without upper-case letters |
| `OutputFormat.SelectEncoderEveryName` | src/main.rs:83-93 | every name, as written and in upper case, selects its encoder |
| `OutputFormat.JpegAndJpgAgree` | src/main.rs:85 | `jpeg` and `jpg`, in any case, both select the JPEG encoder |
| `OutputFormat.TiffRejected` | src/main.rs:98 | `tiff` and `TIFF` are rejected, each reported as written |
| `OutputFormat.Quality` | src/main.rs:88-95 | exactly the JPEG and WebP encoders take a quality setting, on the 0-100 scale (80 and 75) |
| `OutputFormat.Diagnostic` | src/main.rs:98 | the message is `Unsupported format: ` followed by the argument as given |
| `Centering.TruncDiv` | src/main.rs:76-77 | the remainder has the sign of the dividend and is smaller than the divisor (truncation toward zero) |
| `Centering.TruncDivOdd` | src/main.rs:76-77 | negating the dividend negates the quotient |
| `Centering.StartOffset` | src/main.rs:76-77 | the offset fits an i32; text that fits starts at 0 or more and ends inside the canvas with 2*start + text equal to dim or dim - 1; text wider than the canvas starts at 0 or less with 2*start + text equal to dim or dim + 1 |
| `Centering.StartOffsetNoOverflow` | src/main.rs:76-77 | for dimensions below 2^31 the i32 subtraction cannot overflow |
| `Centering.StartOffsetMargins` | src/main.rs:76-77 | the far margin (or far overhang) is the near one or one more: the odd pixel goes right or down |
| `Centering.StartOffsetAntisymmetric` | src/main.rs:76-77 | swapping canvas and text size negates the offset |
| `Centering.StartOffsetOverhangExample` | src/main.rs:76-77 | text 13 wide on a canvas 10 wide starts at -1 (truncated, not floored to -2) |
| `Centering.Origin` | src/main.rs:76-77 | on each axis the text box lies inside the canvas when it fits, and is centred to within one pixel |
| `Holderplace.Run` | src/main.rs:59-98 | a bad background is reported first, then a bad foreground, then an unsupported format; the run succeeds exactly when all three are accepted, and then writes a canvas of the given size with the parsed colours, the given text at the centred origin, the chosen encoder and the given path |
| `Holderplace.WithDefaults` | src/main.rs:22-39 | with only the dimensions given, the background decodes to (204, 204, 204, 255), the foreground to (51, 51, 51, 255), the format selects PNG, the text is `holderplace` and the output `out.png` |
| `Holderplace.DefaultBackground` | src/main.rs:22-23 | the default background `#cccccc` decodes to (204, 204, 204, 255) |
| `Holderplace.DefaultForeground` | src/main.rs:26-27 | the default foreground `#333333` decodes to (51, 51, 51, 255) |
| `Holderplace.DefaultFormatAccepted` | src/main.rs:34-35 | the default format `png` selects the PNG encoder |
| `Holderplace.DefaultsSucceed` | tests/cli.rs:6-25 | with only width, height and an output path given the run succeeds: PNG, grey text `holderplace` on light grey, written to that path |
| `Holderplace.BackgroundCheckedFirst` | src/main.rs:61-62 | an invalid background is reported whatever the foreground and the format |
| `Holderplace.ForegroundCheckedSecond` | src/main.rs:62-83 | with a valid background, an invalid foreground is reported whatever the format |
| `Holderplace.Diagnostic` | src/main.rs:51-98 | a wrong-length colour is reported as `Invalid hex color: ` and the stripped text, a rejected format as `Unsupported format: ` and the argument as given |
| `Holderplace.DiagnosticKinds` | src/main.rs:42-98 | a message starts with `Invalid hex color: ` exactly for a wrong-length colour and with `Unsupported format: ` exactly for a rejected format |
| `Holderplace.InvalidBackgroundRejected` | tests/cli.rs:100-113 | `--bg invalidcolor` fails on the background with the wrong-length error |
| `Holderplace.UnsupportedFormatRejected` | tests/cli.rs:115-128 | `-f tiff` with the default colours fails on the format, naming `tiff` |
| `Holderplace.RedParses` | tests/cli.rs:60-61 | `#ff0000` decodes to (255, 0, 0, 255) |
| `Holderplace.GreenParses` | tests/cli.rs:62-63 | `#00ff00` decodes to (0, 255, 0, 255) |
| `Holderplace.CustomColorsAccepted` | tests/cli.rs:50-79 | `--bg #ff0000 --fg #00ff00 --text Hello` succeeds with red background, green text `Hello` and the PNG encoder |

## Left out

- Command-line parsing (`clap`, src/main.rs:10-40 and 57): required-argument errors and `--help` output are library behaviour; `Args` starts from parsed values.
- Font loading, text measurement and drawing (`FontRef::try_from_slice`, `text_size`, `draw_text_mut`, src/main.rs:67-79) are foreign calls; the measured size is an input and the embedded font is assumed to load.
- The font scale `(min(W, H) as f32 / 10.0).max(12.0)` (src/main.rs:70) is floating point and only feeds the measurement.
- Canvas allocation (`ImageBuffer::from_pixel`, src/main.rs:64) is recorded only as the width, height and background of the `Image` value; pixels are not modelled.
- The encoders and file writes (src/main.rs:84-96) are external codecs and filesystem effects; only the encoder choice and its quality setting (`OutputFormat.Quality`: 80 for JPEG, 75 for WebP, a float 75.0 in the source) are recorded. No encoder failure is modelled: neither I/O errors nor a codec refusing the image (for example a format's dimension limits). "Succeeds" in `Holderplace.Run` therefore means that every check of the modelled code passes.
- Process exit codes, the panic framing on standard error and the success line (src/main.rs:101) are process plumbing.
- Centering.StartOffset: requires both values below 2^31, so the wrap-around of `as i32` on larger `u32` values, and the i32 subtraction overflow it could then cause, are not modelled; the same precondition sits on `Centering.Origin`, `Holderplace.Run` and the lemmas about it.
- OutputFormat.ToLower: lower-cases ASCII letters only, not the full Unicode mapping of `str::to_lowercase`. Acceptance is unaffected: apart from ASCII upper case, the only characters whose lower case contains an ASCII letter are U+212A (to `k`, in no name) and U+0130 (to `i` plus a combining dot, two characters), so no other string lower-cases to an accepted name.
- HexColor.Diagnostic: gives the full text only for the source's own wrong-length panic and the `unwrap` panic; for a slicing panic it gives only the opening words, not the character and byte range Rust goes on to print.
