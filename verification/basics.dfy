/** Shared vocabulary: bytes, optional values, results and hexadecimal digits. */
module Basics {

  /** One octet of raw data. */
  type byte = b: int | 0 <= b < 256

  datatype Option<+T> = None | Some(value: T)

  /** The outcome of an operation that can fail with an error value. */
  datatype Result<+T, +E> = Ok(value: T) | Err(error: E)

  /** The code point of `c` is in the 7-bit ASCII range. */
  predicate IsAscii(c: char) {
    (c as int) < 128
  }

  /** The lowercase hexadecimal digit for `d`, as Python's `format(n, "x")` writes it. */
  function LowerHexDigit(d: int): (c: char)
    requires 0 <= d < 16
    ensures IsAscii(c)
    ensures HexDigitValue(c) == Some(d)
    ensures d >= 10 <==> 'a' <= c <= 'f'
  {
    if d < 10 then ('0' as int + d) as char else ('a' as int + d - 10) as char
  }

  /** The uppercase hexadecimal digit for `d`, as `bytes.hex().upper()` writes it. */
  function UpperHexDigit(d: int): (c: char)
    requires 0 <= d < 16
    ensures IsAscii(c)
    ensures IsUpperHexDigit(c)
    ensures HexDigitValue(c) == Some(d)
  {
    if d < 10 then ('0' as int + d) as char else ('A' as int + d - 10) as char
  }

  /** Only `0`-`9` and `A`-`F`. */
  predicate IsUpperHexDigit(c: char) {
    '0' <= c <= '9' || 'A' <= c <= 'F'
  }

  /** The value of a hexadecimal digit of either case; `None` for any other character. */
  function HexDigitValue(c: char): (r: Option<int>)
    ensures r.Some? ==> 0 <= r.value < 16 && IsAscii(c)
    ensures r.Some? <==> ('0' <= c <= '9' || 'a' <= c <= 'f' || 'A' <= c <= 'F')
  {
    if '0' <= c <= '9' then Some(c as int - '0' as int)
    else if 'a' <= c <= 'f' then Some(c as int - 'a' as int + 10)
    else if 'A' <= c <= 'F' then Some(c as int - 'A' as int + 10)
    else None
  }

  /** Two hexadecimal digits read as one byte, most significant digit first. */
  function ParseHexPair(hi: char, lo: char): (r: Option<byte>)
    ensures r.Some? <==> HexDigitValue(hi).Some? && HexDigitValue(lo).Some?
    ensures r.Some? ==> r.value == 16 * HexDigitValue(hi).value + HexDigitValue(lo).value
  {
    match (HexDigitValue(hi), HexDigitValue(lo))
    case (Some(h), Some(l)) => Some(16 * h + l)
    case _ => None
  }

  /** The bytes of a string of ASCII characters, one byte per character. */
  function AsciiBytes(s: string): (r: seq<byte>)
    requires forall k :: 0 <= k < |s| ==> IsAscii(s[k])
    ensures |r| == |s|
    ensures forall k :: 0 <= k < |s| ==> r[k] == s[k] as int
  {
    if |s| == 0 then [] else assert IsAscii(s[0]); [s[0] as int] + AsciiBytes(s[1..])
  }

  /** The head and tail of `a + b` when `a` is not empty. */
  lemma {:induction false} FirstOfAppend<T>(a: seq<T>, b: seq<T>)
    requires |a| > 0
    ensures (a + b)[0] == a[0] && (a + b)[1..] == a[1..] + b
  {
    assert (a + b)[1..] == a[1..] + b;
  }
}
