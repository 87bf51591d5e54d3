/** The `uxreplace` handler of pretty_codec.py, whose prefix is the literal "˟". */
module PrettyCodec {
  import opened Basics
  import opened HexReplace

  /** The prefix written into the handler's source. */
  const Cross: char := '\U{02DF}'  // ˟

  /**
    The decode branch: "˟", then the uppercase hex of `object[start:end]`,
    resuming at `end`.  Never fails, for any range.
  */
  function XCodeEscapeErrors(e: DecodeError): (r: Replacement)
    ensures r.resume == e.end
    ensures |r.text| >= 1 && r.text[0] == Cross
    ensures forall k :: 1 <= k < |r.text| ==> IsUpperHexDigit(r.text[k])
    ensures ParseHexPairs(r.text[1..]) == Some(PySlice(e.obj, e.start, e.end))
    ensures 0 <= e.start <= e.end <= |e.obj| ==>
      |r.text| == 1 + 2 * (e.end - e.start) && ParseHexPairs(r.text[1..]) == Some(e.obj[e.start..e.end])
  {
    Substitute(Cross, e)
  }

  /** A non-ASCII byte between two ASCII texts: the texts are kept and the byte is replaced. */
  lemma {:induction false} AsciiAroundByte(s1: string, b: byte, s2: string)
    requires forall k :: 0 <= k < |s1| ==> IsAscii(s1[k])
    requires forall k :: 0 <= k < |s2| ==> IsAscii(s2[k])
    requires 128 <= b
    ensures AsciiDecode(Cross, AsciiBytes(s1) + [b] + AsciiBytes(s2))
         == s1 + [Cross, UpperHexDigit(b / 16), UpperHexDigit(b % 16)] + s2
  {
    var a := AsciiBytes(s1);
    var c := AsciiBytes(s2);
    var hex := [Cross, UpperHexDigit(b / 16), UpperHexDigit(b % 16)];
    calc {
      AsciiDecode(Cross, a + [b] + c);
    == { AsciiDecodeIsShowAll(Cross, a + [b] + c); }
      ShowAll(Cross, a + [b] + c);
    == { ShowAllAppend(Cross, a + [b], c); }
      ShowAll(Cross, a + [b]) + ShowAll(Cross, c);
    == { ShowAllAppend(Cross, a, [b]); }
      ShowAll(Cross, a) + ShowAll(Cross, [b]) + ShowAll(Cross, c);
    == { ShowAllAscii(Cross, s1); ShowAllAscii(Cross, s2); ShowOne(Cross, b); }
      s1 + hex + s2;
    }
  }

  /** The test's input: ASCII text, byte 0x81, more ASCII text. */
  const Lead: string := "this is a bad character: "
  const Digits: string := "0123456789"
  const TestHead: string := Lead + Digits
  const TestTail: string := Digits

  lemma {:induction false} TestTextsAreAscii()
    ensures forall k :: 0 <= k < |TestHead| ==> IsAscii(TestHead[k])
    ensures forall k :: 0 <= k < |TestTail| ==> IsAscii(TestTail[k])
  {
  }

  /**
    The handler's test: the ASCII text around byte 0x81 is kept and the byte
    becomes "˟81".
  */
  lemma {:induction false} ErrorDecodeExample()
    ensures (forall k :: 0 <= k < |TestHead| ==> IsAscii(TestHead[k]))
    ensures (forall k :: 0 <= k < |TestTail| ==> IsAscii(TestTail[k]))
      && AsciiDecode(Cross, AsciiBytes(TestHead) + [0x81] + AsciiBytes(TestTail))
         == TestHead + "\U{02DF}81" + TestTail
  {
    TestTextsAreAscii();
    Around81(TestHead, TestTail);
  }

  /** Byte 0x81 between two ASCII texts becomes "˟81". */
  lemma {:induction false} Around81(s1: string, s2: string)
    requires forall k :: 0 <= k < |s1| ==> IsAscii(s1[k])
    requires forall k :: 0 <= k < |s2| ==> IsAscii(s2[k])
    ensures AsciiDecode(Cross, AsciiBytes(s1) + [0x81] + AsciiBytes(s2)) == s1 + "\U{02DF}81" + s2
  {
    AsciiAroundByte(s1, 0x81, s2);
    Replacement81();
  }

  /** Byte 0x81 becomes "˟81". */
  lemma {:induction false} Replacement81()
    ensures [Cross, UpperHexDigit(0x81 / 16), UpperHexDigit(0x81 % 16)] == "\U{02DF}81"
  {
    assert 0x81 / 16 == 8 && 0x81 % 16 == 1;
  }

  /** `needle` occurs in `hay` as one contiguous piece: Python's `in` on strings. */
  predicate Contains(hay: string, needle: string) {
    exists i :: 0 <= i <= |hay| && needle <= hay[i..]
  }

  /**
    The second assertion of the test as its file spells it: the prefix is
    written as the two characters "ËŸ", which is the UTF-8 encoding of "˟"
    read as cp1252.
  */
  const AssertedAsWritten: string := Digits + "\U{00CB}\U{0178}81" + Digits

  /** The same assertion with the prefix the handler writes. */
  const AssertedIntended: string := Digits + "\U{02DF}81" + Digits

  /** The test's layout: the asserted piece starts after the leading words. */
  lemma {:induction false} ContainsAfterLead(lead: string, digits: string, x: string)
    ensures Contains(lead + digits + x + digits, digits + x + digits)
  {
    var t := digits + x + digits;
    assert lead + digits + x + digits == lead + t;
    assert (lead + t)[|lead|..] == t;
  }

  /** A text none of whose characters is `needle[j]` does not contain `needle`. */
  lemma {:induction false} MissingCharNotContained(hay: string, needle: string, j: nat)
    requires j < |needle|
    requires forall k :: 0 <= k < |hay| ==> hay[k] != needle[j]
    ensures !Contains(hay, needle)
  {
    forall i | 0 <= i <= |hay|
      ensures !(needle <= hay[i..])
    {
      if |needle| <= |hay| - i {
        assert hay[i..][j] == hay[i + j];
      }
    }
  }

  /** ASCII text around "˟81" holds no character outside ASCII other than the prefix. */
  lemma {:induction false} OnlyCrossOutsideAscii(s1: string, s2: string, c: char)
    requires forall k :: 0 <= k < |s1| ==> IsAscii(s1[k])
    requires forall k :: 0 <= k < |s2| ==> IsAscii(s2[k])
    requires !IsAscii(c) && c != Cross
    ensures forall k :: 0 <= k < |s1 + "\U{02DF}81" + s2| ==> (s1 + "\U{02DF}81" + s2)[k] != c
  {
    var out := s1 + "\U{02DF}81" + s2;
    forall k | 0 <= k < |out|
      ensures out[k] != c
    {
      if k >= |s1| + 3 {
        assert out[k] == s2[k - |s1| - 3];
      } else if k < |s1| {
        assert out[k] == s1[k];
      }
    }
  }

  /** ASCII text around "˟81" does not contain a needle with some other non-ASCII character. */
  lemma {:induction false} AroundCrossLacks(s1: string, s2: string, needle: string, j: nat)
    requires forall k :: 0 <= k < |s1| ==> IsAscii(s1[k])
    requires forall k :: 0 <= k < |s2| ==> IsAscii(s2[k])
    requires j < |needle| && !IsAscii(needle[j]) && needle[j] != Cross
    ensures !Contains(s1 + "\U{02DF}81" + s2, needle)
  {
    OnlyCrossOutsideAscii(s1, s2, needle[j]);
    MissingCharNotContained(s1 + "\U{02DF}81" + s2, needle, j);
  }

  /** The decoded text holds no "Ë", so the assertion as written does not hold. */
  lemma {:induction false} TestAssertionAsWrittenFails()
    ensures (forall k :: 0 <= k < |TestHead| ==> IsAscii(TestHead[k]))
    ensures (forall k :: 0 <= k < |TestTail| ==> IsAscii(TestTail[k]))
      && !Contains(AsciiDecode(Cross, AsciiBytes(TestHead) + [0x81] + AsciiBytes(TestTail)), AssertedAsWritten)
  {
    ErrorDecodeExample();
    assert AssertedAsWritten[|Digits|] == '\U{00CB}';
    AroundCrossLacks(TestHead, TestTail, AssertedAsWritten, |Digits|);
  }

  /** With the real prefix the test's assertion holds. */
  lemma {:induction false} TestAssertionIntendedHolds()
    ensures (forall k :: 0 <= k < |TestHead| ==> IsAscii(TestHead[k]))
    ensures (forall k :: 0 <= k < |TestTail| ==> IsAscii(TestTail[k]))
      && Contains(AsciiDecode(Cross, AsciiBytes(TestHead) + [0x81] + AsciiBytes(TestTail)), AssertedIntended)
  {
    ErrorDecodeExample();
    ContainsAfterLead(Lead, Digits, "\U{02DF}81");
  }
}
