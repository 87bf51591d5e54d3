/**
  decode_pretty followed by encode_pretty.  Every glyph encodes back to its
  byte, the inserted breaks are swallowed by line-end suppression, and each
  maximal run of CR/LF bytes comes back as a single 0x0A.
*/
module RoundTrip {
  import opened Basics
  import opened GlyphTable
  import opened PrettyDecoder
  import opened PrettyEncoder

  /** The encoder state between two glyphs: nothing pending, suppression as given. */
  function Clean(suppressing: bool): EncState {
    EncState(false, suppressing, 0, "")
  }

  /** `bs` without its leading CR/LF bytes. */
  function DropNewlines(bs: seq<byte>): (r: seq<byte>)
    ensures |r| <= |bs| && r == bs[|bs| - |r|..]
    ensures |r| > 0 ==> !IsNewlineByte(r[0])
    ensures forall k :: 0 <= k < |bs| - |r| ==> IsNewlineByte(bs[k])
    decreases |bs|
  {
    if |bs| > 0 && IsNewlineByte(bs[0]) then DropNewlines(bs[1..]) else bs
  }

  /** `bs` with every maximal run of CR/LF bytes replaced by one 0x0A. */
  function CollapseRuns(bs: seq<byte>): (r: seq<byte>)
    ensures |r| <= |bs|
    decreases |bs|
  {
    if |bs| == 0 then []
    else if IsNewlineByte(bs[0]) then [0x0A] + CollapseRuns(DropNewlines(bs[1..]))
    else [bs[0]] + CollapseRuns(bs[1..])
  }

  /** What the encoder emits for one decoded byte, given whether the byte before it was CR/LF. */
  function CollapseByte(wasNewline: bool, b: byte): seq<byte> {
    if IsNewlineByte(b) then (if wasNewline then [] else [0x0A]) else [b]
  }

  /** The collapse computed left to right with the decoder's flag. */
  function CollapseFrom(wasNewline: bool, bs: seq<byte>): seq<byte>
    decreases |bs|
  {
    if |bs| == 0 then [] else CollapseByte(wasNewline, bs[0]) + CollapseFrom(IsNewlineByte(bs[0]), bs[1..])
  }

  /** The left-to-right collapse agrees with the run-by-run one. */
  lemma {:induction false} CollapseFromIsCollapseRuns(bs: seq<byte>)
    ensures CollapseFrom(false, bs) == CollapseRuns(bs)
    ensures CollapseFrom(true, bs) == CollapseRuns(DropNewlines(bs))
    decreases |bs|
  {
    if |bs| > 0 {
      CollapseFromIsCollapseRuns(bs[1..]);
      if !IsNewlineByte(bs[0]) {
        assert CollapseFrom(true, bs) == [bs[0]] + CollapseFrom(false, bs[1..]);
      }
    }
  }

  /** Bytes the round trip returns unchanged: no CR and no two CR/LF bytes in a row. */
  predicate CollapseFixed(bs: seq<byte>) {
    forall i :: 0 <= i < |bs| ==>
      bs[i] != 0x0D && (i + 1 < |bs| && IsNewlineByte(bs[i]) ==> !IsNewlineByte(bs[i + 1]))
  }

  /** CollapseFixed, one byte at a time. */
  lemma {:induction false} FixedCons(b: byte, rest: seq<byte>)
    ensures CollapseFixed([b] + rest)
        <==> b != 0x0D && (|rest| > 0 && IsNewlineByte(b) ==> !IsNewlineByte(rest[0])) && CollapseFixed(rest)
  {
    var bs := [b] + rest;
    if CollapseFixed(bs) {
      forall i | 0 <= i < |rest|
        ensures rest[i] != 0x0D && (i + 1 < |rest| && IsNewlineByte(rest[i]) ==> !IsNewlineByte(rest[i + 1]))
      {
        assert rest[i] == bs[i + 1];
        if i + 1 < |rest| {
          assert rest[i + 1] == bs[i + 2];
        }
      }
      assert bs[0] != 0x0D;
      if |rest| > 0 {
        assert rest[0] == bs[1];
      }
    }
    if b != 0x0D && (|rest| > 0 && IsNewlineByte(b) ==> !IsNewlineByte(rest[0])) && CollapseFixed(rest) {
      forall i | 0 <= i < |bs|
        ensures bs[i] != 0x0D && (i + 1 < |bs| && IsNewlineByte(bs[i]) ==> !IsNewlineByte(bs[i + 1]))
      {
        if i > 0 {
          assert bs[i] == rest[i - 1];
        }
        if i + 1 < |bs| {
          assert bs[i + 1] == rest[i];
        }
      }
    }
  }

  /** The collapse leaves `bs` unchanged exactly when `bs` has no CR and no two adjacent CR/LF bytes. */
  lemma {:induction false} CollapseRunsFixed(bs: seq<byte>)
    ensures CollapseRuns(bs) == bs <==> CollapseFixed(bs)
    decreases |bs|
  {
    if |bs| > 0 {
      var rest := bs[1..];
      assert bs == [bs[0]] + rest;
      FixedCons(bs[0], rest);
      CollapseRunsFixed(rest);
      if bs[0] == 0x0D {
        assert CollapseRuns(bs)[0] != bs[0];
      } else if bs[0] == 0x0A && |rest| > 0 && IsNewlineByte(rest[0]) {
        assert |DropNewlines(rest)| < |rest|;
        assert |CollapseRuns(bs)| < |bs|;
      } else if bs[0] == 0x0A {
        assert DropNewlines(rest) == rest;
        assert CollapseRuns(bs) == [bs[0]] + CollapseRuns(rest);
      } else {
        assert CollapseRuns(bs) == [bs[0]] + CollapseRuns(rest);
      }
    }
  }

  /** A CR/LF glyph (␍ or ␊) emits one 0x0A unless a line end was already being suppressed. */
  lemma {:induction false} NewlineGlyphEncodes(cfg: Config, w: bool, b: byte, base: nat)
    requires Valid(cfg) && IsNewlineByte(b)
    ensures Run(cfg, Clean(w), Glyph(cfg, b), base) == Ok(Emit(Clean(true), CollapseByte(w, b)))
  {
    var g := Glyph(cfg, b);
    assert g == (if b == 0x0A then "\U{240D}" else "\U{240A}");
    assert IsNewlineChar(g[0]) && g == [g[0]];
    RunOneThenNothing(cfg, Clean(w), g[0], base);
  }

  /** An escape glyph (prefix and two lowercase digits) encodes back to its byte. */
  lemma {:induction false} EscapeGlyphEncodes(cfg: Config, w: bool, b: byte, base: nat)
    requires Valid(cfg) && 128 <= b
    ensures Run(cfg, Clean(w), Glyph(cfg, b), base) == Ok(Emit(Clean(false), [b]))
  {
    var d1 := LowerHexDigit(b / 16);
    var d2 := LowerHexDigit(b % 16);
    assert Glyph(cfg, b) == [cfg.bytestring, d1, d2] by {
      EscapeSequenceHigh(cfg, b);
    }
    EscapePairEmitsByte(cfg, Clean(w), d1, d2, base);
    assert Clean(w).(skipNewlines := false) == Clean(false);
  }

  /** The tab pair: the tab emits 0x09 and the arrow is dropped. */
  lemma {:induction false} TabGlyphEncodes(cfg: Config, w: bool, base: nat)
    requires Valid(cfg)
    ensures Run(cfg, Clean(w), Glyph(cfg, 0x09), base) == Ok(Emit(Clean(false), [0x09]))
  {
    var g := Glyph(cfg, 0x09);
    assert g == ['\t', TabArrow];
    assert Step(cfg, Clean(w), base, '\t') == Ok(Emit(Clean(false), [0x09]));
    RunCons(cfg, Clean(w), g, base);
    assert g[1..] == [TabArrow] + [];
    TabArrowDropped(cfg, Clean(false), [], base + 1);
    assert [0x09] + [] == [0x09];
  }

  /** Any other glyph is one character that the inverse table maps back to its byte. */
  lemma {:induction false} SingleGlyphEncodes(cfg: Config, w: bool, b: byte, base: nat)
    requires Valid(cfg) && b < 128 && b != 0x09 && !IsNewlineByte(b)
    ensures Run(cfg, Clean(w), Glyph(cfg, b), base) == Ok(Emit(Clean(false), [b]))
  {
    var g := Glyph(cfg, b);
    MultiCharGlyphs(cfg);
    assert |g| == 1 && g == [g[0]];
    SingleGlyphInverse(cfg, b);
    var c := g[0];
    if IsAscii(c) {
      assert c as int == b;
    } else {
      assert OverrideByte(c) == Some(b);
    }
    assert !IsNewlineChar(c) && c != cfg.newline && c != cfg.bytestring && c != TabArrow;
    assert Step(cfg, Clean(w), base, c) == Ok(Emit(Clean(false), [b]));
    RunOneThenNothing(cfg, Clean(w), c, base);
  }

  /** Every glyph encodes back: a non-CR/LF byte to itself, a CR/LF byte per suppression. */
  lemma {:induction false} GlyphEncodes(cfg: Config, w: bool, b: byte, base: nat)
    requires Valid(cfg)
    ensures Run(cfg, Clean(w), Glyph(cfg, b), base) == Ok(Emit(Clean(IsNewlineByte(b)), CollapseByte(w, b)))
  {
    if IsNewlineByte(b) {
      NewlineGlyphEncodes(cfg, w, b, base);
    } else if 128 <= b {
      EscapeGlyphEncodes(cfg, w, b, base);
    } else if b == 0x09 {
      TabGlyphEncodes(cfg, w, base);
    } else {
      SingleGlyphEncodes(cfg, w, b, base);
    }
  }

  /** The text one decoded byte adds encodes to what the collapse emits for that byte. */
  lemma {:induction false} DecodedByteEncodes(cfg: Config, w: bool, b: byte, base: nat)
    requires Valid(cfg)
    ensures Run(cfg, Clean(w), DecodeByte(GlyphOf(cfg), w, b), base) == Ok(Emit(Clean(IsNewlineByte(b)), CollapseByte(w, b)))
  {
    var g := Glyph(cfg, b);
    if !IsNewlineByte(b) && w {
      RunAppend(cfg, Clean(true), "\n", g, base);
      assert Step(cfg, Clean(true), base, '\n') == Ok(Emit(Clean(true), []));
      RunOneThenNothing(cfg, Clean(true), '\n', base);
      GlyphEncodes(cfg, true, b, base + 1);
      PrefixNil(Run(cfg, Clean(true), g, base + 1));
    } else {
      assert DecodeByte(GlyphOf(cfg), w, b) == g;
      GlyphEncodes(cfg, w, b, base);
    }
  }

  /**
    The property of a glyph table the round trip rests on: every decoded
    byte, from either suppression state, encodes to its collapse and leaves
    suppression set exactly when the byte was CR/LF.
  */
  ghost predicate PiecesEncode(cfg: Config, glyph: byte -> string) {
    forall w: bool, b: byte, base: nat ::
      Run(cfg, Clean(w), DecodeByte(glyph, w, b), base) == Ok(Emit(Clean(IsNewlineByte(b)), CollapseByte(w, b)))
  }

  /** The configured table has that property. */
  lemma {:induction false} GlyphOfPiecesEncode(cfg: Config)
    requires Valid(cfg)
    ensures PiecesEncode(cfg, GlyphOf(cfg))
  {
    forall w: bool, b: byte, base: nat
      ensures Run(cfg, Clean(w), DecodeByte(GlyphOf(cfg), w, b), base) == Ok(Emit(Clean(IsNewlineByte(b)), CollapseByte(w, b)))
    {
      DecodedByteEncodes(cfg, w, b, base);
    }
  }

  /** Whatever follows one decoded byte is encoded from the state that byte leaves. */
  lemma {:induction false} DecodedByteThen(cfg: Config, glyph: byte -> string, w: bool, b: byte, tail: string, base: nat)
    requires PiecesEncode(cfg, glyph)
    ensures Run(cfg, Clean(w), DecodeByte(glyph, w, b) + tail, base)
         == Prefix(CollapseByte(w, b), Run(cfg, Clean(IsNewlineByte(b)), tail, base + |DecodeByte(glyph, w, b)|))
  {
    var piece := DecodeByte(glyph, w, b);
    RunAppend(cfg, Clean(w), piece, tail, base);
  }

  /**
    Encoding the decoder's output from the matching state yields the
    collapse of the bytes, leaving the encoder clean with suppression set
    exactly when the last byte was CR/LF.
  */
  lemma {:induction false} RoundTripFrom(cfg: Config, glyph: byte -> string, w: bool, bs: seq<byte>, base: nat)
    requires PiecesEncode(cfg, glyph)
    ensures Run(cfg, Clean(w), DecodeFrom(glyph, w, bs), base)
         == Ok(Emit(Clean(LastNewline(w, bs)), CollapseFrom(w, bs)))
    decreases |bs|
  {
    if |bs| == 0 {
    } else {
      var b := bs[0];
      var nl := IsNewlineByte(b);
      var piece := DecodeByte(glyph, w, b);
      var tail := DecodeFrom(glyph, nl, bs[1..]);
      assert DecodeFrom(glyph, w, bs) == piece + tail;
      var first := CollapseByte(w, b);
      var restOut := CollapseFrom(nl, bs[1..]);
      assert CollapseFrom(w, bs) == first + restOut;
      assert LastNewline(nl, bs[1..]) == LastNewline(w, bs);
      DecodedByteThen(cfg, glyph, w, b, tail, base);
      RoundTripFrom(cfg, glyph, nl, bs[1..], base + |piece|);
    }
  }

  /**
    encode_pretty(decode_pretty(bs)) never fails and equals `bs` with every
    maximal run of CR/LF bytes replaced by a single 0x0A.
  */
  lemma {:induction false} EncodeDecode(cfg: Config, bs: seq<byte>)
    requires Valid(cfg)
    ensures Encode(cfg, Decode(cfg, bs)) == Ok(CollapseRuns(bs))
  {
    GlyphOfPiecesEncode(cfg);
    RoundTripFrom(cfg, GlyphOf(cfg), false, bs, 0);
    CollapseFromIsCollapseRuns(bs);
  }

  /** Without CR/LF bytes the round trip is exact. */
  lemma {:induction false} EncodeDecodeWithoutNewlines(cfg: Config, bs: seq<byte>)
    requires Valid(cfg)
    requires forall k :: 0 <= k < |bs| ==> !IsNewlineByte(bs[k])
    ensures Encode(cfg, Decode(cfg, bs)) == Ok(bs)
  {
    EncodeDecode(cfg, bs);
    CollapseRunsFixed(bs);
  }

  /**
    The round trip is exact precisely for the bytes with no CR and no two
    adjacent CR/LF bytes; a lone LF survives, anything else CR/LF-shaped
    does not.
  */
  lemma {:induction false} EncodeDecodeExactIff(cfg: Config, bs: seq<byte>)
    requires Valid(cfg)
    ensures Encode(cfg, Decode(cfg, bs)) == Ok(bs) <==> CollapseFixed(bs)
  {
    EncodeDecode(cfg, bs);
    CollapseRunsFixed(bs);
  }

  /** Byte 200 decodes to "˟c8", which encodes back to byte 200. */
  lemma {:induction false} ExampleByte200()
    ensures Decode(Default, [200]) == "\U{02DF}c8"
    ensures Encode(Default, "\U{02DF}c8") == Ok([200])
  {
    DefaultIsValid();
    EscapeSequenceHigh(Default, 200);
    assert LowerHexDigit(12) == 'c' && LowerHexDigit(8) == '8';
    assert Glyph(Default, 200) == "\U{02DF}c8";
    assert Decode(Default, [200]) == Glyph(Default, 200) + "";
    EncodeDecodeWithoutNewlines(Default, [200]);
  }
}
