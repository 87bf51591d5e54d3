# Pretty codec of serial-hunter, in Dafny

serial-hunter shows raw serial traffic as readable text. Its "pretty" codec
turns each byte into a glyph:
- NUL, BS, 0x0A–0x0F, 0x1C–0x1F and DEL become Unicode control pictures (NUL shows as `␀`);
- tab shows as a tab followed by `→`, space as `·` and `$` as `␤`;
- the other control bytes, 0x01–0x07 and 0x10–0x1B, show as themselves, like the rest of ASCII;
- bytes 128–255 become the escape prefix `˟` and two lowercase hex digits;
- one plain line break is inserted after each run of CR/LF bytes that is followed by another byte.

The reverse direction reads that text back into bytes:
- it collapses line ends;
- it drops the tab arrow, and drops the line-continuation marker `↲` together with the character after it;
- it parses `˟xx` escapes;
- it fails on anything it cannot map.

A separate error handler, `uxreplace`, lets a strict decoder (ASCII, say) replace undecodable bytes with `˟` and their uppercase hex.

The project models:
- the glyph tables (`GlyphTable`);
- `decode_pretty` (`PrettyDecoder`);
- `encode_pretty` (`PrettyEncoder`);
- the round trip from bytes to text and back (`RoundTrip`);
- the decode branch of both copies of `x_code_escape_errors`:
  - the shared part is `HexReplace`;
  - `PrettyCodec` is the copy with the literal `˟`;
  - `EscapeErrors` is the copy with the configured prefix.

`Basics` holds bytes, `Option`, `Result` and hex digits.

Both loops are written over their table or iteration as a value. The decoder takes the glyph table as a function `byte -> string`; `Decode` passes it the configured table. The encoder's loop `RunWith` folds any iteration that meets `StepContract`; `Run` passes it `Step`. The lemmas about how the loops are put together are proved once for any such value.

Two package constants are defined in the package root, outside the modelled modules: `BYTESTRING_CHARACTER` (default `˟`, U+02DF) and `NEWLINE_CHARACTER` (default `↲`, U+21B2). They are a `Config` parameter instead. `Valid(cfg)` states what the codec relies on: the two constants differ, lie outside ASCII, and are neither `→` nor a display glyph.

The display table is copied as the code has it. LF (0x0A) shows as `␍`, the symbol for carriage return. CR (0x0D) shows as `␊`, the symbol for line feed. `$` (0x24) shows as `␤`.

Some behaviours worth knowing, each proved as stated:
- An escape that is still open at the end of the input raises nothing; the encoder drops it, whatever the captured character is (`UnfinishedEscapeIsDropped`).
- A trailing run of CR/LF bytes gets no line break (`TrailingNewlineRun`). A break goes only before a later non-CR/LF byte. The module docstring (src/serialhunter/pretty_unicode_codec.py:9-10) describes every CR/LF as followed by one inserted LF.
- The same docstring line (src/serialhunter/pretty_unicode_codec.py:10) groups `↲` with CR and LF as collapsing to a single LF. The encoder instead drops the marker and skips the next character, whatever it is, and emits nothing for either (`ContinuationSkipsNext`, from :73-75).
- The incremental encoder and decoder classes are commented out in the source, so the loops keep their state in local variables only. `RunAppend` threads the encoder state across two pieces of input, and `DecodeFromAppend` does the same for the decoder's one flag.
- The docstring (src/serialhunter/pretty_unicode_codec.py:12-16) promises pretty then depretty for valid data except line terminators. The exact condition is proved by `EncodeDecodeExactIff`: the round trip returns the bytes unchanged if and only if they hold no CR and no two CR/LF bytes next to each other. A lone LF survives.

The handler's test writes the prefix as mojibake (`ËŸ`). That is the UTF-8 encoding of `˟` read as cp1252. `PrettyCodec.ErrorDecodeExample` states the test with the real `˟`. The test's assertion as written is under "## Findings".

## Model

| member | source | states |
|---|---|---|
| GlyphTable.DisplayGlyph | src/serialhunter/pretty_unicode_codec.py:27-44 | the display table has entries only below 128, each one or two characters long, and the two-character one is exactly the tab's |
| GlyphTable.CharUpdateDict | src/serialhunter/pretty_unicode_codec.py:27-44 | every key of CHAR_UPDATE_DICT is below 128 and every value is one or two characters |
| GlyphTable.LowerHex | src/serialhunter/pretty_unicode_codec.py:25 | `{n:x}` is unpadded: one digit below 16, more from 16 up, every one a hex digit |
| GlyphTable.EscapeSequence | src/serialhunter/pretty_unicode_codec.py:25 | an escape is the prefix followed by hex digits only: two characters below 16, three from 16 up |
| GlyphTable.BaseAscii | src/serialhunter/pretty_unicode_codec.py:26 | BASE_ASCII has exactly the keys 0–127, each mapped to the one character chr(n) |
| GlyphTable.ByteToChars | src/serialhunter/pretty_unicode_codec.py:46-48 | after the three layered updates every byte 0–255 has an entry |
| GlyphTable.CharToBytes | src/serialhunter/pretty_unicode_codec.py:53-57 | every ASCII character maps to its own code, because the ASCII layer is applied last |
| GlyphTable.ByteToCharsShape | src/serialhunter/pretty_unicode_codec.py:25-48 | every byte 0–255 has a glyph in byte_to_chars; bytes 128–255 show as the prefix and exactly two lowercase hex digits; bytes 0–127 show as chr(b) unless the display table overrides them, in which case they show its entry |
| GlyphTable.EscapeSequenceHigh | src/serialhunter/pretty_unicode_codec.py:25 | the unpadded `{n:x}` escape of any byte from 16 up is the prefix and exactly two digits: high nibble, then low |
| GlyphTable.OverrideByteInvertsDict | src/serialhunter/pretty_unicode_codec.py:27-44 | each single-character entry of CHAR_UPDATE_DICT is inverted exactly; the inverted glyphs are non-ASCII and not the arrow; the tab entry is the two characters tab and `→` |
| GlyphTable.DefaultIsValid | src/serialhunter/pretty_unicode_codec.py:21 | the default constants ˟ and ↲ meet every assumption the codec makes of them |
| GlyphTable.SingleGlyphInverse | src/serialhunter/pretty_unicode_codec.py:53-57 | a single-character glyph is read back as its own byte |
| GlyphTable.SingleGlyphsInverse | src/serialhunter/pretty_unicode_codec.py:53-57 | the same, for all bytes at once |
| GlyphTable.CharToBytesInvertsGlyphs | src/serialhunter/pretty_unicode_codec.py:53-57 | for every byte whose glyph is one character g, char_to_bytes[g] is that byte |
| GlyphTable.CharToBytesMatchesCharToByte | src/serialhunter/pretty_unicode_codec.py:53-57 | char_to_bytes maps every ASCII character to its own code (the ASCII layer applied last wins), and its keys are exactly the ASCII characters and the single-character display glyphs |
| GlyphTable.CharToBytesCovers | src/serialhunter/pretty_unicode_codec.py:53-57 | every ASCII character and every single-character display glyph is a key of char_to_bytes, mapped to the byte CharToByte gives |
| GlyphTable.CharToBytesKeysKnown | src/serialhunter/pretty_unicode_codec.py:53-57 | char_to_bytes has no other keys |
| GlyphTable.MultiCharGlyphs | src/serialhunter/pretty_unicode_codec.py:25-48 | the glyphs longer than one character are exactly those of tab and of bytes 128–255 |
| GlyphTable.CharToBytesOmitsMultiCharGlyphs | src/serialhunter/pretty_unicode_codec.py:53-57 | neither `→`, nor the prefix, nor the continuation marker has an entry in char_to_bytes |
| PrettyDecoder.DecodeFrom | src/serialhunter/pretty_unicode_codec.py:117-133 | when every glyph is non-empty, the loop's output is at least as long as its input |
| PrettyDecoder.GlyphsNonEmpty | src/serialhunter/pretty_unicode_codec.py:25-48 | every byte's glyph has at least one character |
| PrettyDecoder.Decode | src/serialhunter/pretty_unicode_codec.py:115-134 | decode_pretty's output is never shorter than the data: each byte contributes at least one character |
| PrettyDecoder.DecodePretty | src/serialhunter/pretty_unicode_codec.py:115-134 | the one-flag loop computes the layout: each byte's glyph in order, with a break before exactly the non-CR/LF bytes whose predecessor is CR/LF |
| PrettyDecoder.LayoutThenDecode | src/serialhunter/pretty_unicode_codec.py:119-133 | laying out a prefix position by position and then running the loop on the rest gives the whole decoding |
| PrettyDecoder.DecodeIsLayout | src/serialhunter/pretty_unicode_codec.py:115-134 | the decoder equals the position-by-position layout, an independent statement of where breaks go |
| PrettyDecoder.DecodeFromAppend | src/serialhunter/pretty_unicode_codec.py:117-131 | decoding two pieces with the flag carried across equals decoding their concatenation |
| PrettyDecoder.DecodeWithoutNewlines | src/serialhunter/pretty_unicode_codec.py:128-133 | without CR/LF bytes the output is exactly the concatenated glyphs |
| PrettyDecoder.NewlineRunGlyphs | src/serialhunter/pretty_unicode_codec.py:120-133 | a run of CR/LF bytes shows each byte's glyph with no break inside the run |
| PrettyDecoder.NewlineRunThenByte | src/serialhunter/pretty_unicode_codec.py:120-133 | a run of n ≥ 1 CR/LF bytes of any mix, followed by another byte, gives the run's glyphs, exactly one break, then that byte's glyph |
| PrettyDecoder.TrailingNewlineRun | src/serialhunter/pretty_unicode_codec.py:128-133 | a run of CR/LF bytes at the end of the input gets no break |
| PrettyDecoder.GlyphHasNoBreak | src/serialhunter/pretty_unicode_codec.py:25-48 | with valid constants no glyph contains a plain line break |
| PrettyDecoder.DecodeAddsOnlyBreaks | src/serialhunter/pretty_unicode_codec.py:115-134 | with the breaks removed, the output is the glyphs of the input in order, so breaks are all the decoder adds |
| PrettyDecoder.ExampleNulSpace | src/serialhunter/pretty_unicode_codec.py:115-134 | "A", NUL, space, "B" decodes to "A␀·B" |
| PrettyDecoder.ExampleCrLf | src/serialhunter/pretty_unicode_codec.py:115-134 | "A", CR, LF, "B" decodes to "A␊␍", one break, then "B" |
| PrettyEncoder.NewlineCharsAreLineEnds | src/serialhunter/pretty_unicode_codec.py:78 | the four line-end characters are exactly those that char_to_bytes reads as CR or LF |
| PrettyEncoder.Step | src/serialhunter/pretty_unicode_codec.py:67-110 | one iteration keeps the capture bookkeeping consistent and emits at most one byte; no byte comes from a swallowed character or from the marker |
| PrettyEncoder.RunWith | src/serialhunter/pretty_unicode_codec.py:67-112 | the loop, for any iteration that keeps the state consistent and emits at most one byte, emits at most one byte per character and leaves a consistent state |
| PrettyEncoder.Run | src/serialhunter/pretty_unicode_codec.py:67-112 | the loop of encode_pretty over a string emits at most one byte per character and leaves a consistent state |
| PrettyEncoder.Encode | src/serialhunter/pretty_unicode_codec.py:60-112 | the output is never longer than the input |
| PrettyEncoder.EncodePretty | src/serialhunter/pretty_unicode_codec.py:60-112 | the loop as written, stopping at the first failure, computes the step-by-step definition |
| PrettyEncoder.RunOneThenNothing | src/serialhunter/pretty_unicode_codec.py:67 | a one-character input is exactly one step |
| PrettyEncoder.RunWithAppend | src/serialhunter/pretty_unicode_codec.py:63-110 | for any iteration, running over two pieces with the state carried across equals running over their concatenation |
| PrettyEncoder.RunAppend | src/serialhunter/pretty_unicode_codec.py:63-110 | encoding two pieces with the four state variables carried across equals encoding their concatenation |
| PrettyEncoder.RunAppendOk | src/serialhunter/pretty_unicode_codec.py:63-110 | two successful runs chain: their bytes are concatenated and the second run's final state is kept |
| PrettyEncoder.AsciiRun | src/serialhunter/pretty_unicode_codec.py:83-110 | ASCII text without CR or LF, from the initial state, emits its own bytes and returns to the initial state |
| PrettyEncoder.EncodeAscii | src/serialhunter/pretty_unicode_codec.py:16 | for ASCII text without CR or LF, encode_pretty returns exactly its ASCII bytes |
| PrettyEncoder.NewlineRunEmitsOneLineFeed | src/serialhunter/pretty_unicode_codec.py:78-82 | an uninterrupted run of CR, LF, ␍ and ␊ emits one 0x0A, or none if suppression was already on, and leaves suppression on |
| PrettyEncoder.ContinuationSkipsNext | src/serialhunter/pretty_unicode_codec.py:68-75 | the continuation marker drops itself and the next character, whatever it is, and leaves the rest of the state as it was |
| PrettyEncoder.SwallowedCharKeepsSuppression | src/serialhunter/pretty_unicode_codec.py:68-70 | a swallowed character emits nothing and does not reset suppression |
| PrettyEncoder.OtherCharResetsSuppression | src/serialhunter/pretty_unicode_codec.py:83 | any other character that gets past the line-end check turns suppression off |
| PrettyEncoder.EscapePairEmitsByte | src/serialhunter/pretty_unicode_codec.py:86-104 | the prefix and two hex digits of either case emit the single byte 16·hi + lo |
| PrettyEncoder.CaptureDigit | src/serialhunter/pretty_unicode_codec.py:98-100 | the first character after the prefix, digit or not, is buffered and nothing is emitted, unless an earlier check (marker, line end, prefix) takes it |
| PrettyEncoder.EscapeBadDigitsFail | src/serialhunter/pretty_unicode_codec.py:98-102 | if either captured character is not a hex digit, encoding fails at the second one, carrying the buffer |
| PrettyEncoder.PrefixInsideEscapeFails | src/serialhunter/pretty_unicode_codec.py:86-95 | a prefix while a capture is open fails, with start i − len(buffer) − 1 and end i + 1 |
| PrettyEncoder.DoublePrefixFails | src/serialhunter/pretty_unicode_codec.py:86-95 | a prefix with zero or one buffered character after it, then another prefix, fails over exactly that span |
| PrettyEncoder.OpenCaptureEmitsNothing | src/serialhunter/pretty_unicode_codec.py:96-104 | a prefix with fewer than two buffered characters after it, digits or not, emits nothing and raises nothing |
| PrettyEncoder.UnfinishedEscapeIsDropped | src/serialhunter/pretty_unicode_codec.py:96-112 | an escape still open at the end of the input is dropped without error, whatever character it has buffered |
| PrettyEncoder.TabArrowDropped | src/serialhunter/pretty_unicode_codec.py:107-108 | `→` outside a capture emits nothing |
| PrettyEncoder.UnmappedCharFails | src/serialhunter/pretty_unicode_codec.py:110 | any other character with no char_to_bytes entry fails at its index |
| PrettyEncoder.RaisedAsWritten | src/serialhunter/pretty_unicode_codec.py:89-95 | as written, a prefix inside an open escape reaches the caller as TypeError, and no failure reaches it as a UnicodeEncodeError with a range |
| PrettyEncoder.RaisedIntended | src/serialhunter/pretty_unicode_codec.py:89-95 | with positional arguments, exactly the prefix-inside-escape failures reach the caller as UnicodeEncodeError, carrying the reported start and end; the other failures are unchanged |
| PrettyEncoder.DoublePrefixRaisesTypeError | src/serialhunter/pretty_unicode_codec.py:86-95 | "˟˟" fails to encode, and as written the caller gets a TypeError without the range |
| PrettyEncoder.DoublePrefixRaisesRange | src/serialhunter/pretty_unicode_codec.py:86-95 | with the intended raise, a prefix, at most one buffered character and a second prefix reach the caller as a UnicodeEncodeError over the whole input |
| RoundTrip.DropNewlines | src/serialhunter/pretty_unicode_codec.py:10 | the leading CR/LF bytes are removed, and only those |
| RoundTrip.CollapseFromIsCollapseRuns | src/serialhunter/pretty_unicode_codec.py:9-10 | the left-to-right collapse with a flag agrees with collapsing each maximal CR/LF run |
| RoundTrip.FixedCons | src/serialhunter/pretty_unicode_codec.py:9-10 | the exactness condition, checked one byte at a time |
| RoundTrip.CollapseRunsFixed | src/serialhunter/pretty_unicode_codec.py:9-10 | collapsing changes nothing exactly when there is no CR and no two adjacent CR/LF bytes |
| RoundTrip.NewlineGlyphEncodes | src/serialhunter/pretty_unicode_codec.py:31-34 | the glyphs ␍ and ␊ encode to one 0x0A, or to nothing under suppression |
| RoundTrip.EscapeGlyphEncodes | src/serialhunter/pretty_unicode_codec.py:25 | the `˟xx` glyph of a byte from 128 up encodes back to that byte |
| RoundTrip.TabGlyphEncodes | src/serialhunter/pretty_unicode_codec.py:30 | the tab glyph encodes back to 0x09 |
| RoundTrip.SingleGlyphEncodes | src/serialhunter/pretty_unicode_codec.py:53-57 | every other glyph is one character that encodes back to its byte |
| RoundTrip.GlyphEncodes | src/serialhunter/pretty_unicode_codec.py:25-57 | every glyph encodes back: a non-CR/LF byte to itself, a CR/LF byte to 0x0A or nothing |
| RoundTrip.DecodedByteEncodes | src/serialhunter/pretty_unicode_codec.py:128-133 | one byte's decoded text, break included, encodes to what the collapse emits for it |
| RoundTrip.GlyphOfPiecesEncode | src/serialhunter/pretty_unicode_codec.py:25-57 | with the configured tables, each byte's decoded text, break included, encodes to what the collapse emits for it, from either suppression state |
| RoundTrip.DecodedByteThen | src/serialhunter/pretty_unicode_codec.py:128-133 | whatever text follows one decoded byte is encoded from the state that byte leaves, after the byte's collapse |
| RoundTrip.RoundTripFrom | src/serialhunter/pretty_unicode_codec.py:60-134 | for any table whose decoded bytes encode to their collapse, encoding the decoder's output yields the collapse of the bytes and leaves the encoder with nothing pending and suppression set exactly when the last byte was CR/LF |
| RoundTrip.EncodeDecode | src/serialhunter/pretty_unicode_codec.py:9-16 | encode_pretty(decode_pretty(bs)) never fails and is bs with every maximal CR/LF run replaced by one 0x0A |
| RoundTrip.EncodeDecodeWithoutNewlines | src/serialhunter/pretty_unicode_codec.py:12-16 | without CR/LF bytes the round trip is exact |
| RoundTrip.EncodeDecodeExactIff | src/serialhunter/pretty_unicode_codec.py:9-16 | the round trip is exact if and only if the bytes have no CR and no two adjacent CR/LF bytes |
| RoundTrip.ExampleByte200 | src/serialhunter/pretty_unicode_codec.py:25 | byte 200 decodes to "˟c8", which encodes back to byte 200 |
| HexReplace.PySlice | src/serialhunter/pretty_codec.py:35 | `object[start:end]` never fails and is the plain slice when the bounds are in range |
| HexReplace.HexUpper | src/serialhunter/pretty_codec.py:35 | `.hex().upper()` writes two characters per byte, all from 0-9 and A-F |
| HexReplace.ParseHexPairs | src/serialhunter/pretty_codec.py:35 | reading pairs back succeeds exactly on even-length strings of hex digits, giving one byte per pair |
| HexReplace.HexUpperParses | src/serialhunter/pretty_codec.py:35 | reading the uppercase hex back pair by pair recovers the bytes in order |
| HexReplace.Substitute | src/serialhunter/pretty_codec.py:35-36 | one prefix, then only uppercase digits that read back as the slice; resume index exactly end; length 1 + 2·(end − start) for an in-range error |
| HexReplace.AsciiShow | src/serialhunter/pretty_codec.py:35 | an ASCII byte is itself; a non-ASCII byte becomes the prefix and its two uppercase digits |
| HexReplace.AsciiDecodeFromIsShowAll | tests/test_pretty_codec.py:16-17 | the ASCII decoder with the handler, from any position, renders the rest byte by byte |
| HexReplace.AsciiDecodeIsShowAll | tests/test_pretty_codec.py:16-17 | each undecodable byte is replaced on its own, in order, and all valid text is kept |
| HexReplace.ShowAllAscii | tests/test_pretty_codec.py:8-9 | ASCII text passes through unchanged |
| PrettyCodec.XCodeEscapeErrors | src/serialhunter/pretty_codec.py:35-36 | the literal "˟", then uppercase digits that read back as object[start:end]; resumes at end; total |
| PrettyCodec.AsciiAroundByte | tests/test_pretty_codec.py:6-20 | a non-ASCII byte between two ASCII texts: both texts are kept and the byte becomes "˟" and its two uppercase digits |
| PrettyCodec.ErrorDecodeExample | tests/test_pretty_codec.py:6-20 | the test's input decodes to "this is a bad character: 0123456789˟810123456789" |
| PrettyCodec.TestAssertionAsWrittenFails | tests/test_pretty_codec.py:16-20 | the decoded test input does not contain "0123456789ËŸ810123456789", the assertion as the file spells it |
| PrettyCodec.TestAssertionIntendedHolds | tests/test_pretty_codec.py:16-20 | the decoded test input contains "0123456789˟810123456789" |
| EscapeErrors.XCodeEscapeErrors | src/serialhunter/x_code_escape_errors.py:29-30 | BYTESTRING_CHARACTER, then uppercase digits that read back as object[start:end]; resumes at end; length 1 + 2·(end − start); total |
| EscapeErrors.HandlersAgree | src/serialhunter/x_code_escape_errors.py:29-30 | with the default prefix the two copies of the handler agree on every error |
| EscapeErrors.HandlerTextOneByte | src/serialhunter/x_code_escape_errors.py:29 | for one byte the handler writes the prefix and the byte's two uppercase digits |
| EscapeErrors.HandlerTextEncodes | src/serialhunter/x_code_escape_errors.py:29 | encode_pretty reads the handler's text as the first byte of the range, then the remaining digits as plain ASCII |
| EscapeErrors.MultiByteRangeNotReadBack | src/serialhunter/x_code_escape_errors.py:29 | a two-byte range 0x81 0x82 comes back from encode_pretty as 0x81, '8', '2', because the whole range gets only one prefix |
| EscapeErrors.DigitCases | src/serialhunter/x_code_escape_errors.py:29 | uppercase and lowercase hex digits coincide exactly on 0–9 |
| EscapeErrors.HandlerVersusTable | src/serialhunter/x_code_escape_errors.py:29 | for a byte from 128 up, the handler's uppercase text equals the table's lowercase glyph exactly when both digits are decimal, and both encode back to the byte |

## Left out

- The encode branch of both handlers (the `str` case) is left out. It depends on the host's `backslashreplace` encoding and on the target codec.
- `codecs.register_error` is left out; it is host registry plumbing.
- The commented-out code in pretty_unicode_codec.py is left out: the hexlify codec and incremental coder classes, and the column-width wrapping. None of it runs, so there is no session `reset`/`getstate`/`setstate` and no final-chunk flag to model.
- The `errors` parameter of `encode_pretty` and `decode_pretty` is not modelled; neither function reads it.
- `tests/mock_serial.py` is not part of this model. It is a stub over a serial port (I/O).
- The constants `BYTESTRING_CHARACTER` and `NEWLINE_CHARACTER` are a parameter, because their definition is not part of this model.
- Python's exception classes become `EncodeError` variants. Each variant carries the index and buffer where it arose. Any message text is dropped.
- PrettyEncoder.Step: it fails with `InvalidHexDigits` on any captured pair that is not two ASCII hex digits. Python's `int(buffer, 16)` is more lenient on a two-character buffer:
  - it strips whitespace around the digit: any Unicode whitespace, including tab, VT, FF and 0x1C–0x1F, so `˟ f` emits 0x0F;
  - it accepts a `+` sign, so `˟+f` emits 0x0F;
  - it accepts `-0` as 0, so `˟-0` emits 0x00;
  - it takes non-ASCII decimal digits at their decimal value.
  The model fails on all of these buffers.
- PrettyEncoder.EscapeBadDigitsFail: it inherits the gap above. For a buffer such as ` f`, `+f` or `-0`, it states a failure where the source emits a byte.
- PrettyEncoder.RaisedAsWritten: it names every `InvalidHexDigits` failure a ValueError. For `-1` to `-f`, `int()` gives a negative number and `to_bytes` raises OverflowError instead.
- HexReplace.AsciiDecodeFrom: it models the host's ASCII decoder only with these handlers. That decoder reports each non-ASCII byte as its own error, and the handler resumes right after it. A handler that jumps elsewhere, or a negative resume index, is not modelled.

## Findings

| source | as written | input that shows it | evidently intended | confidence | as-written member | corrected member |
|---|---|---|---|---|---|---|
| src/serialhunter/pretty_unicode_codec.py:89-95 | the prefix-inside-escape raise passes UnicodeEncodeError's arguments by keyword (`__encoding=`, `__start=`, …); the constructor takes positional arguments only, so building the exception raises TypeError and start and end never reach the caller | `encode_pretty("˟˟")` | `UnicodeEncodeError("prettyascii", data, start, end, reason)` with positional arguments, reporting characters 0..2 | not executed; rests on CPython's constructor accepting no keywords | PrettyEncoder.DoublePrefixRaisesTypeError | PrettyEncoder.DoublePrefixRaisesRange |
| tests/test_pretty_codec.py:20 | asserts that the decoded text contains "0123456789ËŸ810123456789" | the fixture's bytes: "this is a bad character: 0123456789", 0x81, "0123456789" | "0123456789˟810123456789", the handler's real output; "ËŸ" is the UTF-8 encoding of "˟" read as cp1252 | not executed | PrettyCodec.TestAssertionAsWrittenFails | PrettyCodec.TestAssertionIntendedHolds |
