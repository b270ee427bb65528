/** The byte view of a Rust `&str`: the UTF-8 encoding of its characters.
    `str::len` counts these bytes and `&s[i..j]` slices them, so the colour
    parser is modelled on this view. */
module Utf8 {

  type byte = x: int | 0 <= x < 256

  /** A byte that can only occur after the first byte of a multi-byte character. */
  predicate IsContinuation(b: byte) {
    0x80 <= b < 0xC0
  }

  /** Rust's `str::is_char_boundary`: index 0, the end, or any position whose
      byte is not a continuation byte; no index past the end. */
  predicate IsCharBoundary(s: seq<byte>, i: nat)
    ensures IsCharBoundary(s, i) ==> i <= |s|
    ensures i < |s| && s[i] < 0x80 ==> IsCharBoundary(s, i)
  {
    i == 0 || i == |s| || (i < |s| && !IsContinuation(s[i]))
  }

  predicate IsAscii(c: char) {
    (c as int) < 0x80
  }

  predicate AllAscii(s: string) {
    forall i :: 0 <= i < |s| ==> IsAscii(s[i])
  }

  /** The UTF-8 encoding of one Unicode scalar value. */
  function EncodeChar(c: char): (r: seq<byte>)
    ensures IsAscii(c) ==> r == [c as int]
    ensures !IsAscii(c) ==> 2 <= |r| <= 4 && 0xC0 <= r[0]
    ensures !IsAscii(c) ==> forall k :: 1 <= k < |r| ==> IsContinuation(r[k])
    ensures !IsAscii(c) ==> forall k :: 0 <= k < |r| ==> 0x80 <= r[k]
  {
    var n := c as int;
    if n < 0x80 then [n]
    else if n < 0x800 then [0xC0 + n / 64, 0x80 + n % 64]
    else if n < 0x1_0000 then [0xE0 + n / 4096, 0x80 + (n / 64) % 64, 0x80 + n % 64]
    else [0xF0 + n / 262144, 0x80 + (n / 4096) % 64, 0x80 + (n / 64) % 64, 0x80 + n % 64]
  }

  /** Decodes one well-formed UTF-8 sequence of one to four bytes back to its code point. */
  function DecodeChar(r: seq<byte>): int
    requires 1 <= |r| <= 4
  {
    var b := seq(|r|, k requires 0 <= k < |r| => r[k] as int);
    if |r| == 1 then b[0]
    else if |r| == 2 then (b[0] - 0xC0) * 64 + (b[1] - 0x80)
    else if |r| == 3 then (b[0] - 0xE0) * 4096 + (b[1] - 0x80) * 64 + (b[2] - 0x80)
    else (b[0] - 0xF0) * 262144 + (b[1] - 0x80) * 4096 + (b[2] - 0x80) * 64 + (b[3] - 0x80)
  }

  lemma DecodeEncodeTwo(c: char)
    requires 0x80 <= c as int < 0x800
    ensures DecodeChar(EncodeChar(c)) == c as int
  {
    var n := c as int;
    assert EncodeChar(c) == [0xC0 + n / 64, 0x80 + n % 64];
    assert n == (n / 64) * 64 + n % 64;
  }

  lemma DecodeEncodeThree(c: char)
    requires 0x800 <= c as int < 0x1_0000
    ensures DecodeChar(EncodeChar(c)) == c as int
  {
    var n := c as int;
    assert EncodeChar(c) == [0xE0 + n / 4096, 0x80 + (n / 64) % 64, 0x80 + n % 64];
    assert n / 64 == (n / 4096) * 64 + (n / 64) % 64;
    assert n == (n / 64) * 64 + n % 64;
  }

  lemma DecodeEncodeFour(c: char)
    requires 0x1_0000 <= c as int
    ensures |EncodeChar(c)| == 4 && DecodeChar(EncodeChar(c)) == c as int
  {
    var n := c as int;
    assert EncodeChar(c) == [0xF0 + n / 262144, 0x80 + (n / 4096) % 64, 0x80 + (n / 64) % 64, 0x80 + n % 64];
    assert n / 4096 == (n / 262144) * 64 + (n / 4096) % 64;
    assert n / 64 == (n / 4096) * 64 + (n / 64) % 64;
    assert n == (n / 64) * 64 + n % 64;
  }

  /** Encoding a character loses nothing: decoding its bytes gives its code point back. */
  lemma DecodeEncodeChar(c: char)
    ensures 1 <= |EncodeChar(c)| <= 4 && DecodeChar(EncodeChar(c)) == c as int
  {
    var n := c as int;
    if n < 0x80 {
    } else if n < 0x800 {
      DecodeEncodeTwo(c);
    } else if n < 0x1_0000 {
      DecodeEncodeThree(c);
    } else {
      DecodeEncodeFour(c);
    }
  }

  /** The UTF-8 encoding of a string: the bytes Rust stores for it. */
  function Encode(s: string): (r: seq<byte>)
    ensures |r| >= |s|
    ensures AllAscii(s) ==> |r| == |s| && forall i :: 0 <= i < |s| ==> r[i] == s[i] as int
  {
    if s == [] then [] else EncodeChar(s[0]) + Encode(s[1..])
  }

  /** A string whose encoding has only ASCII bytes is itself all ASCII, so its
      byte length is its character length. */
  lemma {:induction false} AsciiBytesAsciiString(s: string)
    requires forall i :: 0 <= i < |Encode(s)| ==> Encode(s)[i] < 0x80
    ensures AllAscii(s) && |Encode(s)| == |s|
  {
    if s != [] {
      var e := EncodeChar(s[0]);
      assert Encode(s) == e + Encode(s[1..]);
      assert e[0] == Encode(s)[0];
      forall i | 0 <= i < |Encode(s[1..])|
        ensures Encode(s[1..])[i] < 0x80
      {
        assert Encode(s[1..])[i] == Encode(s)[|e| + i];
      }
      AsciiBytesAsciiString(s[1..]);
      assert IsAscii(s[0]);
      forall i | 0 <= i < |s|
        ensures IsAscii(s[i])
      {
        if i > 0 { assert s[i] == s[1..][i - 1]; }
      }
    }
  }

  lemma {:induction false} EncodeAppend(a: string, b: string)
    ensures Encode(a + b) == Encode(a) + Encode(b)
  {
    if a == [] {
      assert a + b == b;
    } else {
      assert (a + b)[0] == a[0] && (a + b)[1..] == a[1..] + b;
      EncodeAppend(a[1..], b);
    }
  }

  /** Where the `k`-th character's bytes start, and its first byte. */
  lemma EncodeSplit(s: string, k: nat)
    requires k < |s|
    ensures Encode(s) == Encode(s[..k]) + EncodeChar(s[k]) + Encode(s[k + 1..])
  {
    assert s == s[..k] + s[k..];
    EncodeAppend(s[..k], s[k..]);
  }

  /** Every character of a string starts on a character boundary of its
      bytes, and so does the end. */
  lemma EncodeCharStartsAreBoundaries(s: string, k: nat)
    requires k <= |s|
    ensures IsCharBoundary(Encode(s), |Encode(s[..k])|)
  {
    if k == |s| {
      assert s[..k] == s;
    } else {
      EncodeSplit(s, k);
      var e := Encode(s[..k]);
      assert Encode(s)[|e|] == EncodeChar(s[k])[0];
    }
  }

  /** No position inside a multi-byte character is a character boundary. */
  lemma EncodeCharInsidesAreNotBoundaries(before: string, c: char, after: string, j: nat)
    requires 0 < j < |EncodeChar(c)|
    ensures !IsCharBoundary(Encode(before + [c] + after), |Encode(before)| + j)
  {
    ContinuationInside(c, j);
    EncodeAround(before, c, after);
    InsideNotBoundary(Encode(before + [c] + after), Encode(before), EncodeChar(c), Encode(after), j);
  }

  lemma EncodeAround(before: string, c: char, after: string)
    ensures Encode(before + [c] + after) == Encode(before) + EncodeChar(c) + Encode(after)
  {
    EncodeAppend(before + [c], after);
    EncodeAppend(before, [c]);
    assert Encode([c]) == EncodeChar(c) by {
      assert [c][1..] == [];
    }
  }

  lemma ContinuationInside(c: char, j: nat)
    requires 0 < j < |EncodeChar(c)|
    ensures IsContinuation(EncodeChar(c)[j])
  {
  }

  /** A continuation byte inside `c` is no boundary of `b == e + c + rest`. */
  lemma InsideNotBoundary(b: seq<byte>, e: seq<byte>, c: seq<byte>, rest: seq<byte>, j: nat)
    requires b == e + c + rest && 0 < j < |c| && IsContinuation(c[j])
    ensures !IsCharBoundary(b, |e| + j)
  {
    assert b[|e| + j] == c[j];
  }
}
