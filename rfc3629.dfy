/** The UTF-8 encoding of section 3 of RFC 3629, used as the reference the
    decoder of src/lib.rs is measured against: it reads back every
    encoding, and it reads back nothing else as a scalar value of the
    right length. */
module Rfc3629 {
  import opened Utf8
  import opened Utf8Facts

  /** A Unicode scalar value: a code point that is not a surrogate. */
  predicate IsScalarValue(c: int) {
    0 <= c <= 0x10_FFFF && !(0xD800 <= c <= 0xDFFF)
  }

  /** A continuation byte carrying the six payload bits `bits`. */
  function Cont(bits: int): (b: u8)
    requires 0 <= bits < 64
    ensures IsContinuationByte(b) && b as int % 64 == bits
  {
    (0x80 + bits) as u8
  }

  /** The shortest form of `c`: one byte below 0x80, then two, three or
      four bytes with the payload bits spread 5/6, 4/6/6 and 3/6/6/6. */
  function Encode(c: int): (r: seq<u8>)
    requires IsScalarValue(c)
    ensures 1 <= |r| <= 4 && SequenceLength(r[0]) == |r| && ContinuationsFollow(r, |r|)
    ensures IsAsciiByte(r[0]) <==> |r| == 1
  {
    if c < 0x80 then [c as u8]
    else if c < 0x800 then [(0xC0 + c / 64) as u8, Cont(c % 64)]
    else if c < 0x1_0000 then [(0xE0 + c / 0x1000) as u8, Cont(c / 64 % 64), Cont(c % 64)]
    else [(0xF0 + c / 0x4_0000) as u8, Cont(c / 0x1000 % 64), Cont(c / 64 % 64), Cont(c % 64)]
  }

  /** The 6-bit groups of `c` put back together. */
  lemma Regroup(c: int)
    requires 0 <= c < 0x20_0000
    ensures c == c / 64 * 64 + c % 64
    ensures c / 64 == c / 0x1000 * 64 + c / 64 % 64
    ensures c / 0x1000 == c / 0x4_0000 * 64 + c / 0x1000 % 64
  {
  }

  /** The payload of an encoding is the encoded value. */
  lemma EncodedPayload(c: int)
    requires IsScalarValue(c)
    ensures Payload(LeadBits(Encode(c)[0]), Encode(c)[1..]) == c
  {
    var e := Encode(c);
    PayloadClosedForm(LeadBits(e[0]), e[1..]);
    LeadBitsValue(e[0]);
    Regroup(c);
  }

  /** Decoding the encoding of any scalar value gives the value back and
      consumes the whole encoding, leaving what followed it. */
  lemma {:induction false} RoundTrip(c: int, rest: seq<u8>)
    requires IsScalarValue(c)
    ensures Decode(Encode(c) + rest) == Some((c as u32, rest))
  {
    var e := Encode(c);
    var bytes := e + rest;
    var n := |e|;
    assert bytes[n..] == rest;
    assert bytes[1..n] == e[1..];
    assert ContinuationsFollow(bytes, n) by {
      forall i | 1 <= i < n ensures IsContinuationByte(bytes[i]) {
        assert bytes[i] == e[i];
      }
    }
    EncodedPayload(c);
  }

  /** The other direction: whenever the decoder reads a scalar value from
      exactly as many bytes as its shortest form takes, those bytes are that
      shortest form. Together with `RoundTrip`, the inputs on which the
      decoder deviates from section 3 of RFC 3629 are exactly the overlong
      forms, the surrogates, the values above 0x10FFFF, and the lone bytes
      0x80-0xBF, which are read from one byte as their own value although
      their shortest form takes two (`LoneContinuationByte`). */
  lemma {:induction false} DecodeAcceptsOnlyEncodings(bytes: seq<u8>)
    requires Decode(bytes).Some?
    requires IsScalarValue(Decode(bytes).value.0 as int)
    requires |bytes| - |Decode(bytes).value.1| == |Encode(Decode(bytes).value.0 as int)|
    ensures bytes == Encode(Decode(bytes).value.0 as int) + Decode(bytes).value.1
  {
    var v := Decode(bytes).value.0 as int;
    var rest := Decode(bytes).value.1;
    var e := Encode(v);
    var n := |e|;
    DecodedValue(bytes);
    RemainingSlice(bytes);
    assert Count(bytes) + 1 == n;
    if n == 1 {
      assert bytes[..1] == [bytes[0]];
    } else if n == 2 {
      DecodedTwoBytes(bytes, v);
    } else if n == 3 {
      DecodedThreeBytes(bytes, v);
    } else {
      DecodedFourBytes(bytes, v);
    }
    assert bytes == bytes[..n] + bytes[n..];
  }

  /** Payload bits recovered from a value built out of them. */
  lemma Digits(d0: int, d1: int, d2: int, d3: int)
    requires 0 <= d0 < 8 && 0 <= d1 < 64 && 0 <= d2 < 64 && 0 <= d3 < 64
    ensures var v := d0 * 0x4_0000 + d1 * 0x1000 + d2 * 64 + d3;
      v / 0x4_0000 == d0 && v / 0x1000 % 64 == d1 && v / 64 % 64 == d2 && v % 64 == d3
    ensures var v := d1 * 0x1000 + d2 * 64 + d3;
      v / 0x1000 == d1 && v / 64 % 64 == d2 && v % 64 == d3
    ensures var v := d2 * 64 + d3; v / 64 == d2 && v % 64 == d3
  {
    var low := d2 * 64 + d3;
    DivMod64(d2, d3);
    var mid := d1 * 0x1000 + low;
    assert mid == (d1 * 64 + d2) * 64 + d3;
    DivMod64(d1 * 64 + d2, d3);
    DivMod64(d1, d2);
    var high := d0 * 0x4_0000 + mid;
    assert high == ((d0 * 64 + d1) * 64 + d2) * 64 + d3;
    DivMod64((d0 * 64 + d1) * 64 + d2, d3);
    DivMod64(d0 * 64 + d1, d2);
    DivMod64(d0, d1);
    assert high / 0x1000 == high / 64 / 64;
    assert high / 0x4_0000 == high / 64 / 64 / 64;
    assert mid / 0x1000 == mid / 64 / 64;
  }

  /** Splitting `q * 64 + r` by 64 gives back `q` and `r`. */
  lemma DivMod64(q: int, r: int)
    requires 0 <= r < 64
    ensures (q * 64 + r) / 64 == q && (q * 64 + r) % 64 == r
  {
  }

  /** A decoded 2-byte sequence is the encoder's 2-byte form of its value. */
  lemma DecodedTwoBytes(bytes: seq<u8>, v: int)
    requires Decode(bytes).Some? && Count(bytes) == 1
    requires v == Decode(bytes).value.0 as int && IsScalarValue(v) && |Encode(v)| == 2
    ensures bytes[..2] == Encode(v)
  {
    DecodedValue(bytes);
    var d2, d3 := bytes[0] as int - 0xC0, bytes[1] as int - 0x80;
    Digits(0, 0, d2, d3);
    assert Encode(v) == [(0xC0 + d2) as u8, Cont(d3)];
  }

  /** A decoded 3-byte sequence is the encoder's 3-byte form of its value. */
  lemma DecodedThreeBytes(bytes: seq<u8>, v: int)
    requires Decode(bytes).Some? && Count(bytes) == 2
    requires v == Decode(bytes).value.0 as int && IsScalarValue(v) && |Encode(v)| == 3
    ensures bytes[..3] == Encode(v)
  {
    DecodedValue(bytes);
    var d1, d2, d3 := bytes[0] as int - 0xE0, bytes[1] as int - 0x80, bytes[2] as int - 0x80;
    Digits(0, d1, d2, d3);
    assert Encode(v) == [(0xE0 + d1) as u8, Cont(d2), Cont(d3)];
  }

  /** A decoded 4-byte sequence is the encoder's 4-byte form of its value. */
  lemma DecodedFourBytes(bytes: seq<u8>, v: int)
    requires Decode(bytes).Some? && Count(bytes) == 3
    requires v == Decode(bytes).value.0 as int && IsScalarValue(v) && |Encode(v)| == 4
    ensures bytes[..4] == Encode(v)
  {
    DecodedValue(bytes);
    var d0, d1, d2, d3 := bytes[0] as int - 0xF0, bytes[1] as int - 0x80, bytes[2] as int - 0x80, bytes[3] as int - 0x80;
    Digits(d0, d1, d2, d3);
    assert Encode(v) == [(0xF0 + d0) as u8, Cont(d1), Cont(d2), Cont(d3)];
  }
}
