/**
  The decode branch shared by both copies of the `uxreplace` error handler:
  the bytes the decoder could not handle are replaced by a prefix character
  and their uppercase hexadecimal, and decoding resumes where the error
  ends.  Also the host's ASCII decoder as it drives such a handler.
*/
module HexReplace {
  import opened Basics

  /** The fields of a UnicodeDecodeError the handler reads. */
  datatype DecodeError = DecodeError(obj: seq<byte>, start: int, end: int)

  /** What a handler returns: the replacement text and the index to resume at. */
  datatype Replacement = Replacement(text: string, resume: int)

  /** A slice bound as Python normalises it: negatives count from the end, then clamp to `0..n`. */
  function ClampIndex(i: int, n: nat): (r: nat)
    ensures r <= n
    ensures 0 <= i <= n ==> r == i
  {
    if i < 0 then (if i + n < 0 then 0 else i + n)
    else if i > n then n
    else i
  }

  /** Python's `s[start:end]`: never fails, empty when the bounds cross. */
  function PySlice(s: seq<byte>, start: int, end: int): (r: seq<byte>)
    ensures |r| <= |s|
    ensures 0 <= start <= end <= |s| ==> r == s[start..end]
  {
    var a := ClampIndex(start, |s|);
    var b := ClampIndex(end, |s|);
    if b <= a then [] else s[a..b]
  }

  /** `bytes.hex().upper()`: two uppercase digits per byte, high nibble first. */
  function HexUpper(bs: seq<byte>): (s: string)
    ensures |s| == 2 * |bs|
    ensures forall k :: 0 <= k < |s| ==> IsUpperHexDigit(s[k]) && IsAscii(s[k])
    decreases |bs|
  {
    if |bs| == 0 then "" else [UpperHexDigit(bs[0] / 16), UpperHexDigit(bs[0] % 16)] + HexUpper(bs[1..])
  }

  /** Reads a string as consecutive base-16 pairs; `None` if it is odd or holds a non-digit. */
  function ParseHexPairs(s: string): (r: Option<seq<byte>>)
    ensures r.Some? ==> 2 * |r.value| == |s|
    ensures r.Some? <==> |s| % 2 == 0 && forall k :: 0 <= k < |s| ==> HexDigitValue(s[k]).Some?
    decreases |s|
  {
    if |s| == 0 then Some([])
    else if |s| == 1 then None
    else
      assert forall k :: 2 <= k < |s| ==> s[k] == s[2..][k - 2];
      match (ParseHexPair(s[0], s[1]), ParseHexPairs(s[2..]))
      case (Some(b), Some(rest)) => Some([b] + rest)
      case _ => None
  }

  /** Reading the hex back pair by pair recovers the bytes, in order. */
  lemma {:induction false} HexUpperParses(bs: seq<byte>)
    ensures ParseHexPairs(HexUpper(bs)) == Some(bs)
    decreases |bs|
  {
    if |bs| > 0 {
      var s := HexUpper(bs);
      HexUpperParses(bs[1..]);
      assert s[2..] == HexUpper(bs[1..]);
      assert ParseHexPair(s[0], s[1]) == Some(bs[0]);
      assert [bs[0]] + bs[1..] == bs;
    }
  }

  /**
    The decode branch of x_code_escape_errors with prefix `prefix`: one
    prefix for the whole range, then the uppercase hex of every byte in
    `object[start:end]` (the `obj` field), resuming at `end`.  It is total.
  */
  function Substitute(prefix: char, e: DecodeError): (r: Replacement)
    ensures r.resume == e.end
    ensures |r.text| >= 1 && r.text[0] == prefix
    ensures forall k :: 1 <= k < |r.text| ==> IsUpperHexDigit(r.text[k])
    ensures ParseHexPairs(r.text[1..]) == Some(PySlice(e.obj, e.start, e.end))
    ensures 0 <= e.start <= e.end <= |e.obj| ==>
      |r.text| == 1 + 2 * (e.end - e.start) && ParseHexPairs(r.text[1..]) == Some(e.obj[e.start..e.end])
  {
    var slice := PySlice(e.obj, e.start, e.end);
    HexUpperParses(slice);
    var text := [prefix] + HexUpper(slice);
    assert text[1..] == HexUpper(slice);
    Replacement(text, e.end)
  }

  /**
    The host's `bytes.decode("ascii", errors)` with this handler: each byte
    at or above 128 raises an error over that one byte, the replacement is
    appended, and decoding resumes at the index the handler returns.
  */
  function AsciiDecodeFrom(prefix: char, data: seq<byte>, i: nat): string
    requires i <= |data|
    decreases |data| - i
  {
    if i == |data| then ""
    else if data[i] < 128 then [data[i] as char] + AsciiDecodeFrom(prefix, data, i + 1)
    else
      var r := Substitute(prefix, DecodeError(data, i, i + 1));
      r.text + AsciiDecodeFrom(prefix, data, r.resume)
  }

  function AsciiDecode(prefix: char, data: seq<byte>): string {
    AsciiDecodeFrom(prefix, data, 0)
  }

  /** What one byte becomes: itself if ASCII, else the prefix and its two uppercase digits. */
  function AsciiShow(prefix: char, b: byte): (s: string)
    ensures b < 128 ==> s == [b as char]
    ensures b >= 128 ==> s == [prefix, UpperHexDigit(b / 16), UpperHexDigit(b % 16)]
  {
    if b < 128 then [b as char] else [prefix] + HexUpper([b])
  }

  /** Byte by byte, independently of any error machinery. */
  function ShowAll(prefix: char, data: seq<byte>): string
    decreases |data|
  {
    if |data| == 0 then "" else AsciiShow(prefix, data[0]) + ShowAll(prefix, data[1..])
  }

  lemma {:induction false} AsciiDecodeFromIsShowAll(prefix: char, data: seq<byte>, i: nat)
    requires i <= |data|
    ensures AsciiDecodeFrom(prefix, data, i) == ShowAll(prefix, data[i..])
    decreases |data| - i
  {
    if i < |data| {
      AsciiDecodeFromIsShowAll(prefix, data, i + 1);
      assert data[i..][1..] == data[i + 1..];
      assert data[i..i + 1] == [data[i]];
    }
  }

  /**
    The driver replaces each non-ASCII byte on its own and keeps every ASCII
    byte: the decoding is the byte-by-byte rendering.
  */
  lemma {:induction false} AsciiDecodeIsShowAll(prefix: char, data: seq<byte>)
    ensures AsciiDecode(prefix, data) == ShowAll(prefix, data)
  {
    AsciiDecodeFromIsShowAll(prefix, data, 0);
    assert data[0..] == data;
  }

  /** A single byte is rendered as AsciiShow says. */
  lemma {:induction false} ShowOne(prefix: char, b: byte)
    ensures ShowAll(prefix, [b]) == AsciiShow(prefix, b)
  {
    assert ShowAll(prefix, [b]) == AsciiShow(prefix, b) + ShowAll(prefix, []);
  }

  lemma {:induction false} ShowAllAppend(prefix: char, a: seq<byte>, b: seq<byte>)
    ensures ShowAll(prefix, a + b) == ShowAll(prefix, a) + ShowAll(prefix, b)
    decreases |a|
  {
    if |a| == 0 {
      assert a + b == b;
    } else {
      assert (a + b)[1..] == a[1..] + b;
      ShowAllAppend(prefix, a[1..], b);
    }
  }

  /** Valid ASCII text passes through the driver unchanged. */
  lemma {:induction false} ShowAllAscii(prefix: char, s: string)
    requires forall k :: 0 <= k < |s| ==> IsAscii(s[k])
    ensures ShowAll(prefix, AsciiBytes(s)) == s
    decreases |s|
  {
    if |s| > 0 {
      ShowAllAscii(prefix, s[1..]);
      assert AsciiBytes(s)[1..] == AsciiBytes(s[1..]);
    }
  }
}
