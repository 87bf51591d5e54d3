/**
  The `uxreplace` handler of x_code_escape_errors.py, whose prefix is the
  configured BYTESTRING_CHARACTER, and how its output relates to the
  pretty codec's own escapes.
*/
module EscapeErrors {
  import opened Basics
  import opened GlyphTable
  import opened PrettyDecoder
  import opened PrettyEncoder
  import opened RoundTrip
  import opened HexReplace
  import PrettyCodec

  /**
    The decode branch: the configured prefix, then the uppercase hex of
    `object[start:end]`, resuming at `end`.  Never fails, for any range.
  */
  function XCodeEscapeErrors(cfg: Config, e: DecodeError): (r: Replacement)
    ensures r.resume == e.end
    ensures |r.text| >= 1 && r.text[0] == cfg.bytestring
    ensures forall k :: 1 <= k < |r.text| ==> IsUpperHexDigit(r.text[k])
    ensures ParseHexPairs(r.text[1..]) == Some(PySlice(e.obj, e.start, e.end))
    ensures 0 <= e.start <= e.end <= |e.obj| ==>
      |r.text| == 1 + 2 * (e.end - e.start) && ParseHexPairs(r.text[1..]) == Some(e.obj[e.start..e.end])
  {
    Substitute(cfg.bytestring, e)
  }

  /** With the default prefix the two near-duplicate handlers agree on every error. */
  lemma {:induction false} HandlersAgree(e: DecodeError)
    ensures XCodeEscapeErrors(Default, e) == PrettyCodec.XCodeEscapeErrors(e)
  {
  }

  /**
    The pretty encoder reads the handler's text for one byte back as that
    byte: the prefix and two uppercase digits form one escape.
  */
  lemma {:induction false} HandlerTextEncodes(cfg: Config, bs: seq<byte>)
    requires Valid(cfg) && |bs| > 0
    ensures Encode(cfg, XCodeEscapeErrors(cfg, DecodeError(bs, 0, |bs|)).text)
         == Ok([bs[0]] + AsciiBytes(HexUpper(bs[1..])))
  {
    var hex := HexUpper(bs);
    var d1 := UpperHexDigit(bs[0] / 16);
    var d2 := UpperHexDigit(bs[0] % 16);
    var text := XCodeEscapeErrors(cfg, DecodeError(bs, 0, |bs|)).text;
    assert bs[0..|bs|] == bs;
    assert text == [cfg.bytestring] + hex;
    var rest := HexUpper(bs[1..]);
    assert text == [cfg.bytestring, d1, d2] + rest;
    assert Run(cfg, Init, [cfg.bytestring, d1, d2], 0) == Ok(Emit(Init, [bs[0]])) by {
      EscapePairEmitsByte(cfg, Init, d1, d2, 0);
      assert Init.(skipNewlines := false) == Init;
    }
    assert Run(cfg, Init, rest, 3) == Ok(Emit(Init, AsciiBytes(rest))) by {
      AsciiRun(cfg, rest, 3);
    }
    RunAppendOk(cfg, Init, [cfg.bytestring, d1, d2], rest, 0, Init, [bs[0]], Emit(Init, AsciiBytes(rest)));
  }

  /**
    A range of several bytes is not read back as those bytes: after the first,
    the digits are taken as plain ASCII characters, because the handler
    writes one prefix for the whole range.
  */
  lemma {:induction false} MultiByteRangeNotReadBack(cfg: Config)
    requires Valid(cfg)
    ensures Encode(cfg, XCodeEscapeErrors(cfg, DecodeError([0x81, 0x82], 0, 2)).text)
         == Ok([0x81, 0x38, 0x32])
  {
    var bs: seq<byte> := [0x81, 0x82];
    HandlerTextEncodes(cfg, bs);
    assert bs[1..] == [0x82];
    assert 0x82 / 16 == 8 && 0x82 % 16 == 2;
    var h := HexUpper([0x82]);
    assert h == [UpperHexDigit(8), UpperHexDigit(2)] + HexUpper([]);
    assert h == "82";
    assert AsciiBytes(h) == [0x38, 0x32];
    assert [bs[0]] + AsciiBytes(h) == [0x81, 0x38, 0x32];
  }

  /** The two digit alphabets agree exactly on the decimal digits. */
  lemma {:induction false} DigitCases(d: int)
    requires 0 <= d < 16
    ensures UpperHexDigit(d) == LowerHexDigit(d) <==> d < 10
  {
  }

  /** The handler's text for one byte: the prefix and the byte's two uppercase digits. */
  lemma {:induction false} HandlerTextOneByte(cfg: Config, b: byte)
    ensures XCodeEscapeErrors(cfg, DecodeError([b], 0, 1)).text
         == [cfg.bytestring, UpperHexDigit(b / 16), UpperHexDigit(b % 16)]
  {
    assert [b][0..1] == [b];
    assert HexUpper([b]) == [UpperHexDigit(b / 16), UpperHexDigit(b % 16)] + HexUpper([]);
  }

  /**
    For a non-ASCII byte the handler writes uppercase digits where the pretty
    table writes lowercase ones: the two texts coincide exactly when both
    digits are decimal, and either encodes back to the byte.
  */
  lemma {:induction false} HandlerVersusTable(cfg: Config, b: byte)
    requires Valid(cfg) && 128 <= b
    ensures var t := XCodeEscapeErrors(cfg, DecodeError([b], 0, 1)).text;
      && (t == Glyph(cfg, b) <==> b / 16 < 10 && b % 16 < 10)
      && Encode(cfg, t) == Ok([b])
      && Encode(cfg, Glyph(cfg, b)) == Ok([b])
  {
    var t := XCodeEscapeErrors(cfg, DecodeError([b], 0, 1)).text;
    HandlerTextOneByte(cfg, b);
    EscapeSequenceHigh(cfg, b);
    var g := Glyph(cfg, b);
    assert g == [cfg.bytestring, LowerHexDigit(b / 16), LowerHexDigit(b % 16)];
    DigitCases(b / 16);
    DigitCases(b % 16);
    assert t == g <==> t[1] == g[1] && t[2] == g[2];
    HandlerTextEncodes(cfg, [b]);
    assert [b][1..] == [];
    assert [b] + AsciiBytes(HexUpper([])) == [b];
    EscapeGlyphEncodes(cfg, false, b, 0);
    assert Clean(false) == Init;
  }
}
