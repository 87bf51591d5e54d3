/**
  decode_pretty: raw bytes to pretty text.  Every byte is shown by its
  glyph, and one plain line break is inserted before the first byte that
  follows a run of CR/LF bytes.  The only state is whether the previous
  byte was CR or LF.
*/
module PrettyDecoder {
  import opened Basics
  import opened GlyphTable

  /** Carriage return and line feed, the bytes after which a break is due. */
  predicate IsNewlineByte(b: byte) {
    b == 0x0A || b == 0x0D
  }

  /** The text that one byte adds, given whether the previous byte was CR/LF. */
  function DecodeByte(glyph: byte -> string, wasNewline: bool, b: byte): string {
    (if !IsNewlineByte(b) && wasNewline then "\n" else "") + glyph(b)
  }

  /**
    The decoding loop, continued from state `wasNewline` over `data`.  When
    no glyph is empty, no byte is lost: the text is at least as long.
  */
  function DecodeFrom(glyph: byte -> string, wasNewline: bool, data: seq<byte>): (r: string)
    ensures (forall b: byte :: |glyph(b)| >= 1) ==> |r| >= |data|
    decreases |data|
  {
    if |data| == 0 then ""
    else DecodeByte(glyph, wasNewline, data[0]) + DecodeFrom(glyph, IsNewlineByte(data[0]), data[1..])
  }

  /** The flag after `bs`: whether its last byte is CR/LF (or `wasNewline` if it is empty). */
  function LastNewline(wasNewline: bool, bs: seq<byte>): bool {
    if |bs| == 0 then wasNewline else IsNewlineByte(bs[|bs| - 1])
  }

  /** byte_to_chars as a function, the table the decoder reads. */
  function GlyphOf(cfg: Config): byte -> string {
    (b: byte) => Glyph(cfg, b)
  }

  /** Every byte has a glyph of at least one character. */
  lemma {:induction false} GlyphsNonEmpty(cfg: Config)
    ensures forall b: byte :: |GlyphOf(cfg)(b)| >= 1
  {
  }


  /** decode_pretty(data): never shorter than the data, one glyph or more per byte. */
  function Decode(cfg: Config, data: seq<byte>): (r: string)
    ensures |r| >= |data|
  {
    GlyphsNonEmpty(cfg);
    DecodeFrom(GlyphOf(cfg), false, data)
  }

  /**
    Decoding in two pieces, carrying the flag across, gives the decoding of
    the whole: the one boolean is all the state a chunked decoder needs.
  */
  lemma {:induction false} DecodeFromAppend(glyph: byte -> string, wasNewline: bool, a: seq<byte>, b: seq<byte>)
    ensures DecodeFrom(glyph, wasNewline, a + b)
         == DecodeFrom(glyph, wasNewline, a) + DecodeFrom(glyph, LastNewline(wasNewline, a), b)
    decreases |a|
  {
    if |a| == 0 {
      assert a + b == b;
    } else {
      var nl := IsNewlineByte(a[0]);
      DecodeFromAppend(glyph, nl, a[1..], b);
      DecodeFromCons(glyph, wasNewline, a, b);
    }
  }

  /** The inductive step of DecodeFromAppend: one byte off the front of the first piece. */
  lemma {:induction false} DecodeFromCons(glyph: byte -> string, wasNewline: bool, a: seq<byte>, b: seq<byte>)
    requires |a| > 0
    requires DecodeFrom(glyph, IsNewlineByte(a[0]), a[1..] + b)
          == DecodeFrom(glyph, IsNewlineByte(a[0]), a[1..]) + DecodeFrom(glyph, LastNewline(IsNewlineByte(a[0]), a[1..]), b)
    ensures DecodeFrom(glyph, wasNewline, a + b)
         == DecodeFrom(glyph, wasNewline, a) + DecodeFrom(glyph, LastNewline(wasNewline, a), b)
  {
    var nl := IsNewlineByte(a[0]);
    var p := DecodeByte(glyph, wasNewline, a[0]);
    var x := DecodeFrom(glyph, nl, a[1..]);
    var y := DecodeFrom(glyph, LastNewline(wasNewline, a), b);
    calc {
      DecodeFrom(glyph, wasNewline, a + b);
    == { FirstOfAppend(a, b); }
      p + DecodeFrom(glyph, nl, a[1..] + b);
    == { assert LastNewline(nl, a[1..]) == LastNewline(wasNewline, a); }
      p + (x + y);
    == { assert p + (x + y) == (p + x) + y; }
      (p + x) + y;
    }
  }

  /** The glyphs of `data`, concatenated, with no breaks. */
  function Glyphs(glyph: byte -> string, data: seq<byte>): string
    decreases |data|
  {
    if |data| == 0 then "" else glyph(data[0]) + Glyphs(glyph, data[1..])
  }

  /** A break belongs before `data[i]`: it is not CR/LF and the byte before it is. */
  predicate BreakBefore(data: seq<byte>, i: nat)
    requires i < |data|
  {
    0 < i && IsNewlineByte(data[i - 1]) && !IsNewlineByte(data[i])
  }

  /**
    The intended layout, stated position by position: for each byte in
    order, a break if one belongs before it, then its glyph.
  */
  function Layout(glyph: byte -> string, data: seq<byte>): string
    decreases |data|
  {
    if |data| == 0 then ""
    else
      var n := |data| - 1;
      Layout(glyph, data[..n]) + (if BreakBefore(data, n) then "\n" else "") + glyph(data[n])
  }

  /** decode_pretty as written: one pass over the bytes with a single flag. */
  method DecodePretty(cfg: Config, data: seq<byte>) returns (out: string)
    ensures out == Decode(cfg, data)
    ensures out == Layout(GlyphOf(cfg), data)
  {
    out := "";
    var wasNewline := false;
    var i := 0;
    while i < |data|
      invariant 0 <= i <= |data|
      invariant wasNewline == (0 < i && IsNewlineByte(data[i - 1]))
      invariant Decode(cfg, data) == out + DecodeFrom(GlyphOf(cfg), wasNewline, data[i..])
    {
      var b := data[i];
      var isNewline := IsNewlineByte(b);
      var nextChars := Glyph(cfg, b);
      ghost var before := out;
      DecodeFromStep(GlyphOf(cfg), wasNewline, data, i);
      if !isNewline && wasNewline {
        out := out + "\n";
      }
      out := out + nextChars;
      AppendPiece(before, !isNewline && wasNewline, nextChars, out,
        DecodeFrom(GlyphOf(cfg), isNewline, data[i + 1..]));
      wasNewline := isNewline;
      i := i + 1;
    }
    DecodeIsLayout(GlyphOf(cfg), data);
  }

  /** One iteration of the loop: the next byte's text, then the rest. */
  lemma {:induction false} DecodeFromStep(glyph: byte -> string, wasNewline: bool, data: seq<byte>, i: nat)
    requires i < |data|
    ensures DecodeFrom(glyph, wasNewline, data[i..])
         == DecodeByte(glyph, wasNewline, data[i]) + DecodeFrom(glyph, IsNewlineByte(data[i]), data[i + 1..])
  {
    assert data[i..][1..] == data[i + 1..];
  }

  /** The loop's two appends add exactly one byte's text. */
  lemma {:induction false} AppendPiece(before: string, brk: bool, glyph: string, out: string, tail: string)
    requires out == (if brk then before + "\n" else before) + glyph
    ensures before + (((if brk then "\n" else "") + glyph) + tail) == out + tail
  {
    var piece := (if brk then "\n" else "") + glyph;
    assert out == before + piece;
    assert before + (piece + tail) == (before + piece) + tail;
  }

  /** Laying out one more byte adds exactly the text the loop adds for it. */
  lemma {:induction false} LayoutStep(glyph: byte -> string, data: seq<byte>, k: nat)
    requires 0 < k <= |data|
    ensures Layout(glyph, data[..k])
         == Layout(glyph, data[..k - 1]) + DecodeByte(glyph, 0 < k - 1 && IsNewlineByte(data[k - 2]), data[k - 1])
  {
    var p := data[..k];
    assert p[..k - 1] == data[..k - 1];
    assert BreakBefore(p, k - 1) == (!IsNewlineByte(data[k - 1]) && 0 < k - 1 && IsNewlineByte(data[k - 2]));
    var brk := if BreakBefore(p, k - 1) then "\n" else "";
    var g := glyph(data[k - 1]);
    var l := Layout(glyph, data[..k - 1]);
    assert Layout(glyph, p) == l + brk + g;
    assert l + brk + g == l + (brk + g);
  }

  /** Decoding a prefix by layout and the rest by the loop gives the whole decoding. */
  lemma {:induction false} LayoutThenDecode(glyph: byte -> string, data: seq<byte>, k: nat)
    requires k <= |data|
    ensures Layout(glyph, data[..k]) + DecodeFrom(glyph, 0 < k && IsNewlineByte(data[k - 1]), data[k..])
         == DecodeFrom(glyph, false, data)
    decreases k
  {
    if k == 0 {
      assert data[..0] == [];
      assert data[0..] == data;
    } else {
      var wn := 0 < k - 1 && IsNewlineByte(data[k - 2]);
      var l := Layout(glyph, data[..k - 1]);
      var piece := DecodeByte(glyph, wn, data[k - 1]);
      var rest := DecodeFrom(glyph, IsNewlineByte(data[k - 1]), data[k..]);
      LayoutThenDecode(glyph, data, k - 1);
      assert l + DecodeFrom(glyph, wn, data[k - 1..]) == DecodeFrom(glyph, false, data);
      assert DecodeFrom(glyph, wn, data[k - 1..]) == piece + rest by {
        DecodeFromStep(glyph, wn, data, k - 1);
      }
      assert Layout(glyph, data[..k]) == l + piece by {
        LayoutStep(glyph, data, k);
      }
      assert (l + piece) + rest == l + (piece + rest);
    }
  }

  /**
    The decoder's output is exactly the intended layout: each byte's glyph
    in order, with one break before each non-CR/LF byte that directly
    follows a CR/LF byte, and nowhere else.
  */
  lemma {:induction false} DecodeIsLayout(glyph: byte -> string, data: seq<byte>)
    ensures DecodeFrom(glyph, false, data) == Layout(glyph, data)
  {
    LayoutThenDecode(glyph, data, |data|);
    assert data[..|data|] == data;
  }

  /** Without CR/LF bytes the decoder inserts nothing: the output is the glyphs alone. */
  lemma {:induction false} DecodeWithoutNewlines(glyph: byte -> string, wasNewline: bool, data: seq<byte>)
    requires forall k :: 0 <= k < |data| ==> !IsNewlineByte(data[k])
    requires |data| > 0 ==> !wasNewline
    ensures DecodeFrom(glyph, wasNewline, data) == Glyphs(glyph, data)
    decreases |data|
  {
    if |data| > 0 {
      DecodeWithoutNewlines(glyph, false, data[1..]);
    }
  }

  /** A run of CR/LF bytes shows every glyph of the run, with no break inside it. */
  lemma {:induction false} NewlineRunGlyphs(glyph: byte -> string, wasNewline: bool, run: seq<byte>, rest: seq<byte>)
    requires |run| > 0
    requires forall k :: 0 <= k < |run| ==> IsNewlineByte(run[k])
    ensures DecodeFrom(glyph, wasNewline, run + rest) == Glyphs(glyph, run) + DecodeFrom(glyph, true, rest)
    decreases |run|
  {
    assert (run + rest)[1..] == run[1..] + rest;
    if |run| > 1 {
      NewlineRunGlyphs(glyph, true, run[1..], rest);
    } else {
      assert run[1..] + rest == rest;
    }
  }

  /**
    The collapse law: a run of n >= 1 CR/LF bytes, whatever their mix,
    followed by another byte, decodes to the run's glyphs, exactly one
    break, and then that byte's glyph.
  */
  lemma {:induction false} NewlineRunThenByte(glyph: byte -> string, wasNewline: bool, run: seq<byte>, b: byte, rest: seq<byte>)
    requires |run| > 0
    requires forall k :: 0 <= k < |run| ==> IsNewlineByte(run[k])
    requires !IsNewlineByte(b)
    ensures DecodeFrom(glyph, wasNewline, run + [b] + rest)
         == Glyphs(glyph, run) + "\n" + glyph(b) + DecodeFrom(glyph, false, rest)
  {
    assert run + [b] + rest == run + ([b] + rest);
    NewlineRunGlyphs(glyph, wasNewline, run, [b] + rest);
    assert ([b] + rest)[1..] == rest;
  }

  /** A trailing run of CR/LF bytes shows its glyphs and no break. */
  lemma {:induction false} TrailingNewlineRun(glyph: byte -> string, wasNewline: bool, run: seq<byte>)
    requires |run| > 0
    requires forall k :: 0 <= k < |run| ==> IsNewlineByte(run[k])
    ensures DecodeFrom(glyph, wasNewline, run) == Glyphs(glyph, run)
  {
    NewlineRunGlyphs(glyph, wasNewline, run, []);
    assert run + [] == run;
  }

  /** `s` with every plain line break removed. */
  function RemoveBreaks(s: string): (r: string)
    decreases |s|
  {
    if |s| == 0 then "" else (if s[0] == '\n' then "" else [s[0]]) + RemoveBreaks(s[1..])
  }

  lemma {:induction false} RemoveBreaksAppend(s: string, t: string)
    ensures RemoveBreaks(s + t) == RemoveBreaks(s) + RemoveBreaks(t)
    decreases |s|
  {
    if |s| == 0 {
      assert s + t == t;
    } else {
      assert (s + t)[1..] == s[1..] + t;
      RemoveBreaksAppend(s[1..], t);
    }
  }

  /** With valid constants no glyph contains a plain line break. */
  lemma {:induction false} GlyphHasNoBreak(cfg: Config, b: byte)
    requires Valid(cfg)
    ensures '\n' !in Glyph(cfg, b)
    ensures RemoveBreaks(Glyph(cfg, b)) == Glyph(cfg, b)
  {
    var g := Glyph(cfg, b);
    if b >= 128 {
      EscapeSequenceHigh(cfg, b);
      assert RemoveBreaks(g[2..]) == g[2..];
      assert RemoveBreaks(g[1..]) == g[1..];
    } else if b == 0x09 {
      assert g == ['\t', TabArrow];
      assert RemoveBreaks(g[1..]) == g[1..];
    } else if DisplayGlyph(b).Some? {
      OverrideByteInvertsDict();
      assert b in CharUpdateDict();
      assert |g| == 1 && !IsAscii(g[0]);
    } else {
      assert g == Chr(b);
    }
  }

  /**
    The inserted breaks are the only thing the decoder adds: with them
    removed, the output is the glyphs of the input in order.
  */
  lemma {:induction false} DecodeAddsOnlyBreaks(cfg: Config, wasNewline: bool, data: seq<byte>)
    requires Valid(cfg)
    ensures RemoveBreaks(DecodeFrom(GlyphOf(cfg), wasNewline, data)) == Glyphs(GlyphOf(cfg), data)
    decreases |data|
  {
    if |data| > 0 {
      var brk := if !IsNewlineByte(data[0]) && wasNewline then "\n" else "";
      var g := Glyph(cfg, data[0]);
      var rest := DecodeFrom(GlyphOf(cfg), IsNewlineByte(data[0]), data[1..]);
      assert DecodeFrom(GlyphOf(cfg), wasNewline, data) == (brk + g) + rest;
      assert RemoveBreaks(brk + g) == g by {
        RemoveBreaksAppend(brk, g);
        GlyphHasNoBreak(cfg, data[0]);
        assert RemoveBreaks(brk) == "";
      }
      RemoveBreaksAppend(brk + g, rest);
      DecodeAddsOnlyBreaks(cfg, IsNewlineByte(data[0]), data[1..]);
      assert Glyphs(GlyphOf(cfg), data) == g + Glyphs(GlyphOf(cfg), data[1..]);
    }
  }

  /** "A", NUL, space, "B" decodes to "A␀·B": no break without a newline. */
  lemma {:induction false} ExampleNulSpace()
    ensures Decode(Default, [0x41, 0x00, 0x20, 0x42]) == "A\U{2400}\U{00B7}B"
  {
  }

  /** "A", CR, LF, "B" decodes to "A␊␍", one break, then "B". */
  lemma {:induction false} ExampleCrLf()
    ensures Decode(Default, [0x41, 0x0D, 0x0A, 0x42]) == "A\U{240A}\U{240D}\nB"
  {
  }
}
