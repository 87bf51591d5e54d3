/**
  The fixed byte <-> glyph table of the pretty codec.

  The forward table is built in three layers, each overwriting the one
  before: an escape string for every byte, the character itself for every
  ASCII byte, and a sixteen-entry table of display glyphs.  The inverse
  table maps every single-character glyph back to its byte.
*/
module GlyphTable {
  import opened Basics

  /** The cosmetic companion of the tab glyph; the encoder drops it. */
  const TabArrow: char := '\U{2192}'  // →

  /**
    The two package-level glyph constants: the escape prefix
    (BYTESTRING_CHARACTER) and the line-continuation marker
    (NEWLINE_CHARACTER).
  */
  datatype Config = Config(bytestring: char, newline: char)

  /** The package defaults: "˟" and "↲". */
  const Default: Config := Config('\U{02DF}', '\U{21B2}')

  /**
    The assumptions the codec makes of its constants: they differ from each
    other, lie outside ASCII, and are neither the tab arrow nor one of the
    display glyphs.
  */
  predicate Valid(cfg: Config) {
    && cfg.bytestring != cfg.newline
    && !IsAscii(cfg.bytestring) && !IsAscii(cfg.newline)
    && cfg.bytestring != TabArrow && cfg.newline != TabArrow
    && OverrideByte(cfg.bytestring).None? && OverrideByte(cfg.newline).None?
  }

  lemma {:induction false} DefaultIsValid()
    ensures Valid(Default)
  {
  }

  /** The entries of CHAR_UPDATE_DICT, entry for entry. */
  function DisplayGlyph(b: byte): (r: Option<string>)
    ensures r.Some? ==> b < 128 && 1 <= |r.value| <= 2
    ensures (r.Some? && |r.value| == 2) <==> b == 0x09
  {
    match b
    case 0x00 => Some("\U{2400}")    // ␀
    case 0x08 => Some("\U{2408}")    // ␈
    case 0x09 => Some("\t\U{2192}")  // tab, →
    case 0x0A => Some("\U{240D}")    // ␍ (shown for line feed)
    case 0x0B => Some("\U{240B}")    // ␋
    case 0x0C => Some("\U{240C}")    // ␌
    case 0x0D => Some("\U{240A}")    // ␊ (shown for carriage return)
    case 0x0E => Some("\U{240E}")    // ␎
    case 0x0F => Some("\U{240F}")    // ␏
    case 0x1C => Some("\U{241C}")    // ␜
    case 0x1D => Some("\U{241D}")    // ␝
    case 0x1E => Some("\U{241E}")    // ␞
    case 0x1F => Some("\U{241F}")    // ␟
    case 0x20 => Some("\U{00B7}")    // ·
    case 0x24 => Some("\U{2424}")    // ␤
    case 0x7F => Some("\U{2421}")    // ␡
    case _ => None
  }

  /** CHAR_UPDATE_DICT as a map. */
  function CharUpdateDict(): (m: map<byte, string>)
    ensures forall b :: b in m ==> b < 128 && 1 <= |m[b]| <= 2
  {
    map b: byte | 0 <= b < 256 && DisplayGlyph(b).Some? :: DisplayGlyph(b).value
  }

  /**
    The byte whose display glyph is the single character `c`, if any.  The
    tab entry is two characters long and so has no inverse here.
  */
  function OverrideByte(c: char): Option<byte> {
    match c
    case '\U{2400}' => Some(0x00)
    case '\U{2408}' => Some(0x08)
    case '\U{240D}' => Some(0x0A)
    case '\U{240B}' => Some(0x0B)
    case '\U{240C}' => Some(0x0C)
    case '\U{240A}' => Some(0x0D)
    case '\U{240E}' => Some(0x0E)
    case '\U{240F}' => Some(0x0F)
    case '\U{241C}' => Some(0x1C)
    case '\U{241D}' => Some(0x1D)
    case '\U{241E}' => Some(0x1E)
    case '\U{241F}' => Some(0x1F)
    case '\U{00B7}' => Some(0x20)
    case '\U{2424}' => Some(0x24)
    case '\U{2421}' => Some(0x7F)
    case _ => None
  }

  /** OverrideByte inverts exactly the single-character entries of CHAR_UPDATE_DICT. */
  lemma {:induction false} OverrideByteInvertsDict()
    ensures forall b :: b in CharUpdateDict() && |CharUpdateDict()[b]| == 1 ==>
      OverrideByte(CharUpdateDict()[b][0]) == Some(b)
    ensures forall c :: OverrideByte(c).Some? ==>
      OverrideByte(c).value in CharUpdateDict() && CharUpdateDict()[OverrideByte(c).value] == [c]
    ensures forall c :: OverrideByte(c).Some? ==> !IsAscii(c) && c != TabArrow
    ensures 0x09 in CharUpdateDict() && CharUpdateDict()[0x09] == ['\t', TabArrow]
  {
    forall b | b in CharUpdateDict() && |CharUpdateDict()[b]| == 1
      ensures OverrideByte(CharUpdateDict()[b][0]) == Some(b)
    {
      OverrideByteOfEntry(b);
    }
    forall c | OverrideByte(c).Some?
      ensures OverrideByte(c).value in CharUpdateDict() && CharUpdateDict()[OverrideByte(c).value] == [c]
      ensures !IsAscii(c) && c != TabArrow
    {
      EntryOfOverrideByte(c);
    }
  }

  lemma {:induction false} OverrideByteOfEntry(b: byte)
    requires DisplayGlyph(b).Some? && |DisplayGlyph(b).value| == 1
    ensures OverrideByte(DisplayGlyph(b).value[0]) == Some(b)
  {
  }

  lemma {:induction false} EntryOfOverrideByte(c: char)
    requires OverrideByte(c).Some?
    ensures DisplayGlyph(OverrideByte(c).value) == Some([c])
    ensures !IsAscii(c) && c != TabArrow
  {
  }

  /** Python's `format(n, "x")`: lowercase hexadecimal without padding. */
  function LowerHex(n: nat): (s: string)
    ensures |s| >= 1 && (n < 16 <==> |s| == 1)
    ensures forall k :: 0 <= k < |s| ==> HexDigitValue(s[k]).Some?
    decreases n
  {
    if n < 16 then [LowerHexDigit(n)] else LowerHex(n / 16) + [LowerHexDigit(n % 16)]
  }

  /** ESCAPE_SEQUENCES[n]: the escape prefix followed by the hex digits of `n`. */
  function EscapeSequence(cfg: Config, n: byte): (s: string)
    ensures |s| >= 2 && s[0] == cfg.bytestring
    ensures forall k :: 1 <= k < |s| ==> HexDigitValue(s[k]).Some?
    ensures |s| == (if n < 16 then 2 else 3)
  {
    [cfg.bytestring] + LowerHex(n)
  }

  /** Bytes 128-255 escape to the prefix and exactly two lowercase hex digits. */
  lemma {:induction false} EscapeSequenceHigh(cfg: Config, n: byte)
    requires n >= 16
    ensures EscapeSequence(cfg, n) == [cfg.bytestring, LowerHexDigit(n / 16), LowerHexDigit(n % 16)]
  {
    assert LowerHex(n / 16) == [LowerHexDigit(n / 16)];
  }

  function EscapeSequences(cfg: Config): map<byte, string> {
    map n: byte | 0 <= n < 256 :: EscapeSequence(cfg, n)
  }

  /** BASE_ASCII[n]: the character with code `n`. */
  function Chr(n: byte): string
    requires n < 128
  {
    [n as char]
  }

  function BaseAscii(): (m: map<byte, string>)
    ensures forall n: int :: n in m <==> 0 <= n < 128
    ensures forall n :: n in m ==> |m[n]| == 1 && m[n][0] as int == n
  {
    map n: byte | 0 <= n < 128 :: Chr(n)
  }

  /** byte_to_chars: the three layers, each later one overriding the earlier. */
  function ByteToChars(cfg: Config): (m: map<byte, string>)
    ensures forall b: int :: 0 <= b < 256 ==> b in m
  {
    EscapeSequences(cfg) + BaseAscii() + CharUpdateDict()
  }

  /** The glyph of one byte, resolved case by case. */
  function Glyph(cfg: Config, b: byte): string {
    match DisplayGlyph(b)
    case Some(g) => g
    case None => if b < 128 then Chr(b) else EscapeSequence(cfg, b)
  }

  /**
    Every byte has a glyph; bytes 128-255 show as the prefix and two
    lowercase hex digits; bytes 0-127 show as themselves unless the display
    table overrides them.
  */
  lemma {:induction false} ByteToCharsShape(cfg: Config)
    ensures forall b: int :: 0 <= b < 256 ==> b in ByteToChars(cfg) && ByteToChars(cfg)[b] == Glyph(cfg, b)
    ensures forall b: byte :: 128 <= b ==>
      Glyph(cfg, b) == [cfg.bytestring, LowerHexDigit(b / 16), LowerHexDigit(b % 16)]
    ensures forall b: byte :: b < 128 && b !in CharUpdateDict() ==> Glyph(cfg, b) == Chr(b)
    ensures forall b: byte :: b in CharUpdateDict() ==> Glyph(cfg, b) == CharUpdateDict()[b]
  {
    forall b: byte | 128 <= b
      ensures Glyph(cfg, b) == [cfg.bytestring, LowerHexDigit(b / 16), LowerHexDigit(b % 16)]
    {
      EscapeSequenceHigh(cfg, b);
    }
  }

  /** The byte a single character stands for, resolved case by case. */
  function CharToByte(c: char): Option<byte> {
    if IsAscii(c) then Some(c as int) else OverrideByte(c)
  }

  /** A single-character glyph is read back by CharToByte as its own byte. */
  lemma {:induction false} SingleGlyphInverse(cfg: Config, b: byte)
    requires |Glyph(cfg, b)| == 1
    ensures CharToByte(Glyph(cfg, b)[0]) == Some(b)
  {
    if b >= 128 {
      EscapeSequenceHigh(cfg, b);
    }
  }

  lemma {:induction false} SingleGlyphsInverse(cfg: Config)
    ensures forall b: byte :: |Glyph(cfg, b)| == 1 ==> CharToByte(Glyph(cfg, b)[0]) == Some(b)
  {
    forall b: byte | |Glyph(cfg, b)| == 1
      ensures CharToByte(Glyph(cfg, b)[0]) == Some(b)
    {
      SingleGlyphInverse(cfg, b);
    }
  }

  /** The single-character entries of byte_to_chars, inverted. */
  function GlyphInverse(cfg: Config): map<char, byte> {
    var t := ByteToChars(cfg);
    ByteToCharsShape(cfg);
    SingleGlyphsInverse(cfg);
    map b: byte | b in t && |t[b]| == 1 :: t[b][0] := b
  }

  /** BASE_ASCII inverted: every ASCII character to its own code. */
  function AsciiCodes(): map<char, byte> {
    map c: char | IsAscii(c) :: c as int
  }

  /**
    char_to_bytes: every single-character entry of byte_to_chars inverted,
    then every ASCII character mapped to its own code, applied last.
  */
  function CharToBytes(cfg: Config): (m: map<char, byte>)
    ensures forall c: char :: IsAscii(c) ==> c in m && m[c] == c as int
  {
    GlyphInverse(cfg) + AsciiCodes()
  }

  /** Each single-character glyph leads back to its byte. */
  lemma {:induction false} CharToBytesInvertsGlyphs(cfg: Config)
    ensures forall b: byte :: |Glyph(cfg, b)| == 1 ==>
      Glyph(cfg, b)[0] in CharToBytes(cfg) && CharToBytes(cfg)[Glyph(cfg, b)[0]] == b
  {
    ByteToCharsShape(cfg);
    SingleGlyphsInverse(cfg);
    var m := CharToBytes(cfg);
    forall b: byte | |Glyph(cfg, b)| == 1
      ensures Glyph(cfg, b)[0] in m && m[Glyph(cfg, b)[0]] == b
    {
      assert b in ByteToChars(cfg);
      if IsAscii(Glyph(cfg, b)[0]) {
        assert m[Glyph(cfg, b)[0]] == Glyph(cfg, b)[0] as int;
      }
    }
  }

  /**
    The keys of char_to_bytes are exactly the characters CharToByte knows:
    every ASCII character, mapped to its own code, and the single-character
    display glyphs, mapped to their bytes.
  */
  lemma {:induction false} CharToBytesMatchesCharToByte(cfg: Config)
    ensures forall c: char :: IsAscii(c) ==> c in CharToBytes(cfg) && CharToBytes(cfg)[c] == c as int
    ensures forall c :: c in CharToBytes(cfg) <==> CharToByte(c).Some?
    ensures forall c :: c in CharToBytes(cfg) ==> CharToBytes(cfg)[c] == CharToByte(c).value
  {
    CharToBytesCovers(cfg);
    CharToBytesKeysKnown(cfg);
  }

  /** Every character CharToByte knows is a key of char_to_bytes, with the same byte. */
  lemma {:induction false} CharToBytesCovers(cfg: Config)
    ensures forall c :: CharToByte(c).Some? ==> c in CharToBytes(cfg) && CharToBytes(cfg)[c] == CharToByte(c).value
  {
    ByteToCharsShape(cfg);
    SingleGlyphsInverse(cfg);
    OverrideByteInvertsDict();
    var m := CharToBytes(cfg);
    var t := ByteToChars(cfg);
    forall c | CharToByte(c).Some?
      ensures c in m && m[c] == CharToByte(c).value
    {
      if !IsAscii(c) {
        var b := OverrideByte(c).value;
        assert Glyph(cfg, b) == [c];
        assert b in t && |t[b]| == 1 && t[b][0] == c;
      }
    }
  }

  /** Every key of char_to_bytes is a character CharToByte knows. */
  lemma {:induction false} CharToBytesKeysKnown(cfg: Config)
    ensures forall c :: c in CharToBytes(cfg) ==> CharToByte(c).Some?
  {
    ByteToCharsShape(cfg);
    SingleGlyphsInverse(cfg);
    var m := CharToBytes(cfg);
    var t := ByteToChars(cfg);
    forall c | c in m
      ensures CharToByte(c).Some?
    {
      if !IsAscii(c) {
        var b :| b in t && |t[b]| == 1 && t[b][0] == c;
        assert CharToByte(Glyph(cfg, b)[0]) == Some(b);
      }
    }
  }

  /** The tab pair and the escapes are the multi-character glyphs. */
  lemma {:induction false} MultiCharGlyphs(cfg: Config)
    ensures forall b: byte :: |Glyph(cfg, b)| > 1 <==> b == 0x09 || 128 <= b
  {
    forall b: byte
      ensures |Glyph(cfg, b)| > 1 <==> b == 0x09 || 128 <= b
    {
      if b >= 128 {
        EscapeSequenceHigh(cfg, b);
      }
    }
  }

  /**
    The multi-character glyphs have no entry in char_to_bytes: neither the
    tab arrow nor either configured constant is a key.
  */
  lemma {:induction false} CharToBytesOmitsMultiCharGlyphs(cfg: Config)
    requires Valid(cfg)
    ensures TabArrow !in CharToBytes(cfg) && cfg.bytestring !in CharToBytes(cfg) && cfg.newline !in CharToBytes(cfg)
  {
    CharToBytesKeysKnown(cfg);
    assert CharToByte(TabArrow).None?;
  }
}
