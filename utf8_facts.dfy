/** What `extract_character` does, stated in terms of the continuation-byte
    count `UTF8_BYTES` gives its lead byte: the failure cases, the bytes it
    consumes, and the range of the value it hands to `from_u32_unchecked`. */
module Utf8Facts {
  import opened Utf8

  /** The count the table gives the first byte of `bytes`. */
  function Count(bytes: seq<u8>): nat
    requires |bytes| > 0
  {
    UTF8_BYTES[bytes[0]] as nat
  }

  /** Empty input has no character to read. */
  lemma EmptyInput()
    ensures Decode([]) == None
  {
  }

  /** A lead byte 0x00-0xBF has count 0 and is returned as its own value,
      consuming one byte; this includes the lone continuation bytes
      0x80-0xBF, which are passed through rather than refused. */
  lemma SingleBytePassThrough(bytes: seq<u8>)
    requires |bytes| > 0 && bytes[0] <= 0xBF
    ensures Count(bytes) == 0
    ensures Decode(bytes) == Some((bytes[0] as u32, bytes[1..]))
  {
    TableCount(bytes[0]);
  }

  /** A lead byte 0xF8-0xFF has count 4 or 5 and always fails, so
      `UTF8_OFFSETS` is only ever indexed at 0 to 3 on the way to a result. */
  lemma RejectedLead(bytes: seq<u8>)
    requires |bytes| > 0
    ensures Count(bytes) >= 4 <==> bytes[0] >= 0xF8
    ensures Count(bytes) >= 4 ==> Count(bytes) <= 5 && Decode(bytes).None?
    ensures Decode(bytes).Some? ==> Count(bytes) <= 3
  {
    TableCount(bytes[0]);
  }

  /** One of the `count` bytes after the lead byte is not a continuation
      byte. */
  predicate BadFollower(bytes: seq<u8>, count: nat)
    requires count < |bytes|
  {
    exists i :: 1 <= i <= count && !IsContinuationByte(bytes[i])
  }

  /** For a lead byte with count 1 to 3, decoding fails exactly when fewer
      than `count` bytes follow it or one of them is not a continuation
      byte. */
  lemma ShortOrBadContinuation(bytes: seq<u8>)
    requires |bytes| > 0 && 1 <= Count(bytes) <= 3
    ensures Decode(bytes).None? <==>
      |bytes| <= Count(bytes) || BadFollower(bytes, Count(bytes))
  {
    TableCount(bytes[0]);
    var n := Count(bytes) + 1;
    assert SequenceLength(bytes[0]) == n;
    if n <= |bytes| {
      if !ContinuationsFollow(bytes, n) {
        var i :| 1 <= i < n && !IsContinuationByte(bytes[i]);
        assert BadFollower(bytes, n - 1);
      }
    }
  }

  /** On success exactly `count + 1` bytes are consumed and the rest of the
      input is returned untouched. */
  lemma RemainingSlice(bytes: seq<u8>)
    requires Decode(bytes).Some?
    ensures Count(bytes) + 1 <= |bytes|
    ensures Decode(bytes).value.1 == bytes[Count(bytes) + 1..]
  {
    TableCount(bytes[0]);
  }

  /** The payload bits of a lead byte are the byte minus its length
      marker. */
  lemma LeadBitsValue(lead: u8)
    ensures lead < 0xC0 ==> LeadBits(lead) == lead as int
    ensures 0xC0 <= lead < 0xE0 ==> LeadBits(lead) == lead as int - 0xC0
    ensures 0xE0 <= lead < 0xF0 ==> LeadBits(lead) == lead as int - 0xE0
    ensures 0xF0 <= lead ==> LeadBits(lead) == lead as int % 8
    ensures 0xF0 <= lead < 0xF8 ==> LeadBits(lead) == lead as int - 0xF0
  {
  }

  /** The payload bits of a continuation byte are the byte minus its `10`
      tag. */
  lemma ContinuationBits(b: u8)
    requires IsContinuationByte(b)
    ensures b as int % 64 == b as int - 0x80
  {
  }

  /** A successful decode consumed a whole sequence of the length its lead
      byte announces, and its value is that sequence's payload. */
  lemma DecodeSome(bytes: seq<u8>)
    requires Decode(bytes).Some?
    ensures Count(bytes) <= 3 && Count(bytes) < |bytes|
    ensures SequenceLength(bytes[0]) == Count(bytes) + 1
    ensures ContinuationsFollow(bytes, Count(bytes) + 1)
    ensures Decode(bytes).value.0 as int == Payload(LeadBits(bytes[0]), bytes[1..Count(bytes) + 1])
  {
    TableCount(bytes[0]);
  }

  /** The decoded value written out for each count: the lead byte minus its
      length marker, followed by each continuation byte minus its `10` tag. */
  lemma DecodedValue(bytes: seq<u8>)
    requires Decode(bytes).Some?
    ensures Count(bytes) <= 3 && Count(bytes) < |bytes|
    ensures Count(bytes) == 0 ==>
      Decode(bytes).value.0 as int == bytes[0] as int && bytes[0] <= 0xBF
    ensures Count(bytes) == 1 ==>
      && 0xC0 <= bytes[0] <= 0xDF && IsContinuationByte(bytes[1])
      && Decode(bytes).value.0 as int == (bytes[0] as int - 0xC0) * 64 + (bytes[1] as int - 0x80)
    ensures Count(bytes) == 2 ==>
      && 0xE0 <= bytes[0] <= 0xEF && IsContinuationByte(bytes[1]) && IsContinuationByte(bytes[2])
      && Decode(bytes).value.0 as int ==
           (bytes[0] as int - 0xE0) * 0x1000 + (bytes[1] as int - 0x80) * 64 + (bytes[2] as int - 0x80)
    ensures Count(bytes) == 3 ==>
      && 0xF0 <= bytes[0] <= 0xF7
      && IsContinuationByte(bytes[1]) && IsContinuationByte(bytes[2]) && IsContinuationByte(bytes[3])
      && Decode(bytes).value.0 as int ==
           (bytes[0] as int - 0xF0) * 0x4_0000 + (bytes[1] as int - 0x80) * 0x1000
           + (bytes[2] as int - 0x80) * 64 + (bytes[3] as int - 0x80)
  {
    DecodeSome(bytes);
    var n := Count(bytes) + 1;
    var conts := bytes[1..n];
    PayloadClosedForm(LeadBits(bytes[0]), conts);
    LeadBitsValue(bytes[0]);
    if n >= 2 {
      assert conts[0] == bytes[1] && IsContinuationByte(bytes[1]);
      ContinuationBits(bytes[1]);
    }
    if n >= 3 {
      assert conts[1] == bytes[2] && IsContinuationByte(bytes[2]);
      ContinuationBits(bytes[2]);
    }
    if n == 4 {
      assert conts[2] == bytes[3] && IsContinuationByte(bytes[3]);
      ContinuationBits(bytes[3]);
    }
  }

  /** Range of a 2-byte value `(b0 - 0xC0) * 64 + (b1 - 0x80)`. */
  lemma TwoByteRange(b0: int, b1: int)
    requires 0xC0 <= b0 <= 0xDF && 0x80 <= b1 <= 0xBF
    ensures var v := (b0 - 0xC0) * 64 + (b1 - 0x80);
      0 <= v <= 0x7FF && (0x80 <= v <==> b0 >= 0xC2)
  {
  }

  /** Range of a 3-byte value. */
  lemma ThreeByteRange(b0: int, b1: int, b2: int)
    requires 0xE0 <= b0 <= 0xEF && 0x80 <= b1 <= 0xBF && 0x80 <= b2 <= 0xBF
    ensures var v := (b0 - 0xE0) * 0x1000 + (b1 - 0x80) * 64 + (b2 - 0x80);
      0 <= v <= 0xFFFF && (0x800 <= v <==> b0 > 0xE0 || b1 >= 0xA0)
  {
  }

  /** Range of a 4-byte value. */
  lemma FourByteRange(b0: int, b1: int, b2: int, b3: int)
    requires 0xF0 <= b0 <= 0xF7 && 0x80 <= b1 <= 0xBF && 0x80 <= b2 <= 0xBF && 0x80 <= b3 <= 0xBF
    ensures var v := (b0 - 0xF0) * 0x4_0000 + (b1 - 0x80) * 0x1000 + (b2 - 0x80) * 64 + (b3 - 0x80);
      0 <= v <= 0x1F_FFFF && (0x1_0000 <= v <==> b0 > 0xF0 || b1 >= 0x90)
  {
  }

  /** The range of the decoded value for each count, and where the table's
      ranges let through what section 3 of RFC 3629 forbids: overlong
      2-, 3- and 4-byte forms (lead 0xC0/0xC1, 0xE0 with a second byte
      below 0xA0, 0xF0 with a second byte below 0x90) decode below the
      range of their length. */
  lemma ValueBounds(bytes: seq<u8>)
    requires Decode(bytes).Some?
    ensures Count(bytes) < |bytes|
    ensures Count(bytes) == 0 ==> Decode(bytes).value.0 as int == bytes[0] as int <= 0xBF
    ensures Count(bytes) == 1 ==>
      Decode(bytes).value.0 <= 0x7FF && (0x80 <= Decode(bytes).value.0 <==> bytes[0] >= 0xC2)
    ensures Count(bytes) == 2 ==>
      Decode(bytes).value.0 <= 0xFFFF && (0x800 <= Decode(bytes).value.0 <==> bytes[0] > 0xE0 || bytes[1] >= 0xA0)
    ensures Count(bytes) == 3 ==>
      Decode(bytes).value.0 <= 0x1F_FFFF && (0x1_0000 <= Decode(bytes).value.0 <==> bytes[0] > 0xF0 || bytes[1] >= 0x90)
  {
    DecodedValue(bytes);
    if Count(bytes) == 1 {
      TwoByteRange(bytes[0] as int, bytes[1] as int);
    } else if Count(bytes) == 2 {
      ThreeByteRange(bytes[0] as int, bytes[1] as int, bytes[2] as int);
    } else if Count(bytes) == 3 {
      FourByteRange(bytes[0] as int, bytes[1] as int, bytes[2] as int, bytes[3] as int);
    }
  }

  /** The value is beyond the Unicode range 0..0x10FFFF exactly for a 4-byte
      sequence led by 0xF5-0xF7, or by 0xF4 with a second byte of 0x90 or
      more; `from_u32_unchecked` then receives a value that is no `char`. */
  lemma AboveUnicodeRange(bytes: seq<u8>)
    requires Decode(bytes).Some?
    ensures Count(bytes) < |bytes|
    ensures Decode(bytes).value.0 > 0x10_FFFF <==>
      Count(bytes) == 3 && (bytes[0] > 0xF4 || (bytes[0] == 0xF4 && bytes[1] >= 0x90))
  {
    DecodedValue(bytes);
  }

  /** The value is a UTF-16 surrogate 0xD800-0xDFFF exactly for a 3-byte
      sequence led by 0xED with a second byte of 0xA0 or more, or for its
      overlong 4-byte form F0 8D A0-BF xx. */
  lemma SurrogateAccepted(bytes: seq<u8>)
    requires Decode(bytes).Some?
    ensures Count(bytes) < |bytes|
    ensures 0xD800 <= Decode(bytes).value.0 <= 0xDFFF <==>
      || (Count(bytes) == 2 && bytes[0] == 0xED && bytes[1] >= 0xA0)
      || (Count(bytes) == 3 && bytes[0] == 0xF0 && bytes[1] == 0x8D && bytes[2] >= 0xA0)
  {
    DecodedValue(bytes);
  }

  /** The two examples the source's test module checks, through the
      `is_alphabetic` wrapper: `a` is one byte, and the Hangul syllable
      U+C870 is the three bytes EC A1 B0; each is consumed whole and
      classified by the classifier's verdict on its code point. */
  lemma TestExamples(rest: seq<u8>, isAlpha: u32 -> bool)
    ensures Decode([0x61] + rest) == Some((0x61, rest))
    ensures Decode([0xEC, 0xA1, 0xB0] + rest) == Some((0xC870, rest))
    ensures IsAlphabetic([0x61], isAlpha) == Some((isAlpha(0x61), []))
    ensures IsAlphabetic([0xEC, 0xA1, 0xB0], isAlpha) == Some((isAlpha(0xC870), []))
  {
    var hangul := [0xEC, 0xA1, 0xB0] + rest;
    assert hangul[1..3] == [0xA1, 0xB0];
    assert ContinuationsFollow(hangul, 3);
    PayloadClosedForm(LeadBits(0xEC), [0xA1, 0xB0]);
    assert [0x61 as u8] + rest == [0x61] + rest;
    assert [0xEC, 0xA1, 0xB0] + [] == [0xEC as u8, 0xA1, 0xB0];
    assert [0x61] + [] == [0x61 as u8];
  }

  /** A lone byte 0x80-0xBF reads back as the scalar value it names, although
      that value's shortest form is two bytes: the decoder's one deviation
      that is neither an overlong form, nor a surrogate, nor a value above
      0x10FFFF. */
  lemma LoneContinuationByte(b: u8, rest: seq<u8>)
    requires IsContinuationByte(b)
    ensures Decode([b] + rest) == Some((b as u32, rest))
  {
    SingleBytePassThrough([b] + rest);
    assert ([b] + rest)[1..] == rest;
  }
}
