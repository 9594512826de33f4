/** The single-character UTF-8 decoder of src/lib.rs and the classifier
    wrapper built on it. Bytes and the accumulator are the source's `u8` and
    `u32`: Dafny checks every `+` and `-` on these newtypes for range, which
    is the overflow check Rust makes on `+=` and `-` in debug builds, so
    verifying the decoder shows that neither the accumulation nor the offset
    subtraction ever leaves the `u32` range. */
module Utf8 {

  newtype u8 = b: int | 0 <= b < 0x100
  newtype u32 = x: int | 0 <= x < 0x1_0000_0000

  datatype Option<+T> = None | Some(value: T) {
    predicate IsFailure() { None? }
    function PropagateFailure<U>(): Option<U> requires None? { None }
    function Extract(): T requires Some? { value }
  }

  /** Number of continuation bytes announced by each lead byte, written as
      eight rows of 32 entries. */
  const UTF8_BYTES: seq<u8> :=
      [0, 0, 0, 0, 0, 0, 0, 0, 0, 0, 0, 0, 0, 0, 0, 0, 0, 0, 0, 0, 0, 0, 0, 0, 0, 0, 0, 0, 0, 0, 0, 0]
    + [0, 0, 0, 0, 0, 0, 0, 0, 0, 0, 0, 0, 0, 0, 0, 0, 0, 0, 0, 0, 0, 0, 0, 0, 0, 0, 0, 0, 0, 0, 0, 0]
    + [0, 0, 0, 0, 0, 0, 0, 0, 0, 0, 0, 0, 0, 0, 0, 0, 0, 0, 0, 0, 0, 0, 0, 0, 0, 0, 0, 0, 0, 0, 0, 0]
    + [0, 0, 0, 0, 0, 0, 0, 0, 0, 0, 0, 0, 0, 0, 0, 0, 0, 0, 0, 0, 0, 0, 0, 0, 0, 0, 0, 0, 0, 0, 0, 0]
    + [0, 0, 0, 0, 0, 0, 0, 0, 0, 0, 0, 0, 0, 0, 0, 0, 0, 0, 0, 0, 0, 0, 0, 0, 0, 0, 0, 0, 0, 0, 0, 0]
    + [0, 0, 0, 0, 0, 0, 0, 0, 0, 0, 0, 0, 0, 0, 0, 0, 0, 0, 0, 0, 0, 0, 0, 0, 0, 0, 0, 0, 0, 0, 0, 0]
    + [1, 1, 1, 1, 1, 1, 1, 1, 1, 1, 1, 1, 1, 1, 1, 1, 1, 1, 1, 1, 1, 1, 1, 1, 1, 1, 1, 1, 1, 1, 1, 1]
    + [2, 2, 2, 2, 2, 2, 2, 2, 2, 2, 2, 2, 2, 2, 2, 2, 3, 3, 3, 3, 3, 3, 3, 3, 4, 4, 4, 4, 5, 5, 5, 5]

  /** What the add-then-shift accumulation of a sequence with the given
      number of continuation bytes adds on top of its payload bits. */
  const UTF8_OFFSETS: seq<u32> := [0x00000000, 0x00003080, 0x000E2080, 0x03C82080, 0xFA082080, 0x82082080]

  predicate IsAsciiByte(byte: u8) { byte <= 0x7F }

  predicate IsStartByte(byte: u8) { byte > 0xBF }

  predicate IsContinuationByte(byte: u8) { 0x80 <= byte <= 0xBF }

  /** Every byte is exactly one of ASCII, continuation byte or start byte. */
  lemma ByteClasses(byte: u8)
    ensures IsAsciiByte(byte) <==> !IsContinuationByte(byte) && !IsStartByte(byte)
    ensures IsContinuationByte(byte) <==> !IsAsciiByte(byte) && !IsStartByte(byte)
    ensures IsStartByte(byte) <==> !IsAsciiByte(byte) && !IsContinuationByte(byte)
  {
  }

  /** `x <<= 6` on a `u32`: bits shifted past bit 31 are dropped silently. */
  function Shl6(x: u32): (r: u32)
    ensures x < 0x400_0000 ==> r as int == x as int * 64
    ensures r as int == x as int * 64 % 0x1_0000_0000
  {
    ((x as int * 64) % 0x1_0000_0000) as u32
  }

  /** The `add_start_byte!` macro: give up unless `byte` is a start byte,
      otherwise add it to the accumulator (a `+=` that must not overflow). */
  function AddStartByte(result: u32, byte: u8): (r: Option<u32>)
    requires result as int + byte as int < 0x1_0000_0000
    ensures r.Some? <==> IsStartByte(byte)
    ensures r.Some? ==> r.value as int == result as int + byte as int
  {
    if !IsStartByte(byte) then None else Some(result + byte as u32)
  }

  /** The `add_continuation_byte!` macro, same shape as `AddStartByte`. */
  function AddContinuationByte(result: u32, byte: u8): (r: Option<u32>)
    requires result as int + byte as int < 0x1_0000_0000
    ensures r.Some? <==> IsContinuationByte(byte)
    ensures r.Some? ==> r.value as int == result as int + byte as int
  {
    if !IsContinuationByte(byte) then None else Some(result + byte as u32)
  }

  /** `iter.next()` on a byte iterator whose unread part is `iter`. */
  function Next(iter: seq<u8>): (r: Option<u8>)
    ensures r.Some? <==> |iter| > 0
    ensures r.Some? ==> r.value == iter[0]
  {
    if |iter| == 0 then None else Some(iter[0])
  }

  // ---------------------------------------------------------------------
  // Specification of the decoder, written from the byte patterns of
  // section 3 of RFC 3629 and the deviations the table builds in.

  /** Length of the sequence a lead byte starts, 0 when it starts none.
      Bytes 0x00-0xBF stand alone (ASCII, and lone continuation bytes,
      which the table passes through); 0xC0-0xDF, 0xE0-0xEF and 0xF0-0xF7
      start 2-, 3- and 4-byte sequences; 0xF8-0xFF are refused. */
  function SequenceLength(lead: u8): (n: nat)
    ensures n <= 4
    ensures n == 0 <==> lead >= 0xF8
  {
    if lead < 0xC0 then 1
    else if lead < 0xE0 then 2
    else if lead < 0xF0 then 3
    else if lead < 0xF8 then 4
    else 0
  }

  /** The payload bits of a lead byte: the whole byte when it stands alone,
      else the low 5, 4 or 3 bits after the length marker. */
  function LeadBits(lead: u8): (r: int)
    ensures 0 <= r < 0xC0
  {
    if lead < 0xC0 then lead as int
    else if lead < 0xE0 then lead as int % 0x20
    else if lead < 0xF0 then lead as int % 0x10
    else lead as int % 0x08
  }

  /** `acc` followed by the low 6 bits of each byte of `conts`. */
  function Payload(acc: int, conts: seq<u8>): int
    decreases |conts|
  {
    if |conts| == 0 then acc else Payload(acc * 64 + conts[0] as int % 64, conts[1..])
  }

  /** Bytes 1 to n - 1 of `bytes` are continuation bytes. */
  predicate ContinuationsFollow(bytes: seq<u8>, n: nat)
    requires n <= |bytes|
  {
    forall i :: 1 <= i < n ==> IsContinuationByte(bytes[i])
  }

  /** `Payload` written out for the lengths the decoder uses. */
  lemma PayloadClosedForm(acc: int, conts: seq<u8>)
    requires |conts| <= 3
    decreases |conts|
    ensures |conts| == 0 ==> Payload(acc, conts) == acc
    ensures |conts| == 1 ==> Payload(acc, conts) == acc * 64 + conts[0] as int % 64
    ensures |conts| == 2 ==>
      Payload(acc, conts) == acc * 0x1000 + conts[0] as int % 64 * 64 + conts[1] as int % 64
    ensures |conts| == 3 ==>
      Payload(acc, conts) == acc * 0x4_0000 + conts[0] as int % 64 * 0x1000 + conts[1] as int % 64 * 64 + conts[2] as int % 64
  {
    if |conts| > 0 {
      var next := acc * 64 + conts[0] as int % 64;
      PayloadClosedForm(next, conts[1..]);
    }
  }

  /** The code point the decoder reads from the front of `bytes` with the
      unread rest, or None: empty input, a refused lead byte, too few
      bytes, or a follower that is not a continuation byte. */
  function Decode(bytes: seq<u8>): (r: Option<(u32, seq<u8>)>)
    ensures r.Some? ==> 0 < |bytes| && |r.value.1| < |bytes|
    ensures r.Some? ==> r.value.1 == bytes[|bytes| - |r.value.1|..]
    ensures r.Some? ==> r.value.0 <= 0x1F_FFFF
  {
    if |bytes| == 0 then None
    else
      var n := SequenceLength(bytes[0]);
      if n == 0 || |bytes| < n || !ContinuationsFollow(bytes, n) then None
      else
        var code := Payload(LeadBits(bytes[0]), bytes[1..n]);
        PayloadClosedForm(LeadBits(bytes[0]), bytes[1..n]);
        Some((code as u32, bytes[n..]))
  }

  // ---------------------------------------------------------------------
  // The decoder as written.

  /** The table agrees with the lead-byte ranges of `SequenceLength`. The
      lookup is proved one range of the table at a time. */
  lemma TableCount(b: u8)
    ensures UTF8_BYTES[b] as int == if b < 0xC0 then 0 else if b < 0xE0 then 1
      else if b < 0xF0 then 2 else if b < 0xF8 then 3 else if b < 0xFC then 4 else 5
  {
    if b < 0x40 { TableCount00To3F(b); } else if b < 0x80 { TableCount40To7F(b); }
    else if b < 0xC0 { TableCount80ToBF(b); } else if b < 0xE0 { TableCountC0ToDF(b); }
    else { TableCountE0ToFF(b); }
  }

  lemma TableCount00To3F(b: u8)
    requires b < 0x40
    ensures UTF8_BYTES[b] == 0
  {
  }

  lemma TableCount40To7F(b: u8)
    requires 0x40 <= b < 0x80
    ensures UTF8_BYTES[b] == 0
  {
  }

  lemma TableCount80ToBF(b: u8)
    requires 0x80 <= b < 0xC0
    ensures UTF8_BYTES[b] == 0
  {
  }

  lemma TableCountC0ToDF(b: u8)
    requires 0xC0 <= b < 0xE0
    ensures UTF8_BYTES[b] == 1
  {
  }

  lemma TableCountE0ToFF(b: u8)
    requires 0xE0 <= b
    ensures UTF8_BYTES[b] as int == if b < 0xF0 then 2 else if b < 0xF8 then 3 else if b < 0xFC then 4 else 5
  {
  }

  /** The accumulator the decoder builds from the first `n` bytes: each byte
      is added, and the sum shifted left by 6 while more bytes follow. */
  function Accumulated(bytes: seq<u8>, n: nat): int
    requires 1 <= n <= |bytes|
  {
    if n == 1 then bytes[0] as int else Accumulated(bytes, n - 1) * 64 + bytes[n - 1] as int
  }

  /** Each offset is the accumulator of the smallest sequence of its length:
      the bare length marker followed by bare `10` tags. The last two, for
      the 5- and 6-byte forms the decoder refuses, are taken modulo 2^32. */
  lemma OffsetValues()
    ensures UTF8_OFFSETS[0] == 0
    ensures UTF8_OFFSETS[1] as int == Accumulated([0xC0, 0x80], 2)
    ensures UTF8_OFFSETS[2] as int == Accumulated([0xE0, 0x80, 0x80], 3)
    ensures UTF8_OFFSETS[3] as int == Accumulated([0xF0, 0x80, 0x80, 0x80], 4)
    ensures UTF8_OFFSETS[4] as int == Accumulated([0xF8, 0x80, 0x80, 0x80, 0x80], 5) % 0x1_0000_0000
    ensures UTF8_OFFSETS[5] as int == Accumulated([0xFC, 0x80, 0x80, 0x80, 0x80, 0x80], 6) % 0x1_0000_0000
  {
    var six: seq<u8> := [0xFC, 0x80, 0x80, 0x80, 0x80, 0x80];
    assert Accumulated(six, 2) == 0xFC * 64 + 0x80;
    assert Accumulated(six, 3) == Accumulated(six, 2) * 64 + 0x80;
    assert Accumulated(six, 4) == Accumulated(six, 3) * 64 + 0x80;
    assert Accumulated(six, 5) == Accumulated(six, 4) * 64 + 0x80;
    assert Accumulated(six, 6) == Accumulated(six, 5) * 64 + 0x80;
    var five: seq<u8> := [0xF8, 0x80, 0x80, 0x80, 0x80];
    assert Accumulated(five, 2) == 0xF8 * 64 + 0x80;
    assert Accumulated(five, 3) == Accumulated(five, 2) * 64 + 0x80;
    assert Accumulated(five, 4) == Accumulated(five, 3) * 64 + 0x80;
    assert Accumulated(five, 5) == Accumulated(five, 4) * 64 + 0x80;
    var four: seq<u8> := [0xF0, 0x80, 0x80, 0x80];
    assert Accumulated(four, 2) == 0xF0 * 64 + 0x80;
    assert Accumulated(four, 3) == Accumulated(four, 2) * 64 + 0x80;
    assert Accumulated(four, 4) == Accumulated(four, 3) * 64 + 0x80;
    var three: seq<u8> := [0xE0, 0x80, 0x80];
    assert Accumulated(three, 2) == 0xE0 * 64 + 0x80;
    assert Accumulated(three, 3) == Accumulated(three, 2) * 64 + 0x80;
  }

  /** For a well-formed 2-, 3- or 4-byte sequence the accumulator fits in a
      `u32`, is at least `UTF8_OFFSETS[n - 1]`, and exceeds it by exactly
      the payload bits: the offset is what the length marker of the lead
      byte and the `10` tag of each continuation byte add. */
  lemma OffsetTrick(bytes: seq<u8>, n: nat)
    requires 2 <= n <= |bytes| && SequenceLength(bytes[0]) == n && ContinuationsFollow(bytes, n)
    ensures UTF8_OFFSETS[n - 1] as int <= Accumulated(bytes, n) < 0x1_0000_0000
    ensures Accumulated(bytes, n) - UTF8_OFFSETS[n - 1] as int == Payload(LeadBits(bytes[0]), bytes[1..n])
  {
    PayloadClosedForm(LeadBits(bytes[0]), bytes[1..n]);
    var b0, b1 := bytes[0] as int, bytes[1] as int;
    assert IsContinuationByte(bytes[1]);
    assert b1 % 64 == b1 - 0x80;
    if n == 2 {
      assert b0 % 0x20 == b0 - 0xC0;
    } else if n == 3 {
      var b2 := bytes[2] as int;
      assert IsContinuationByte(bytes[2]);
      assert b2 % 64 == b2 - 0x80;
      assert b0 % 0x10 == b0 - 0xE0;
      assert Accumulated(bytes, 2) == b0 * 64 + b1;
      assert Accumulated(bytes, 3) == (b0 * 64 + b1) * 64 + b2;
    } else {
      var b2, b3 := bytes[2] as int, bytes[3] as int;
      assert IsContinuationByte(bytes[2]) && IsContinuationByte(bytes[3]);
      assert b2 % 64 == b2 - 0x80 && b3 % 64 == b3 - 0x80;
      assert b0 % 0x08 == b0 - 0xF0;
      assert Accumulated(bytes, 2) == b0 * 64 + b1;
      assert Accumulated(bytes, 3) == (b0 * 64 + b1) * 64 + b2;
      assert Accumulated(bytes, 4) == ((b0 * 64 + b1) * 64 + b2) * 64 + b3;
    }
  }

  /** `extract_character`: read one code point from the front of `bytes`,
      by the table and the offset trick. The iterator is the unread part of
      the slice; `count` selects the arm of the `match`. */
  method ExtractCharacter(bytes: seq<u8>) returns (r: Option<(u32, seq<u8>)>)
    ensures r == Decode(bytes)
  {
    var iter := bytes;
    var first :- Next(iter);
    iter := iter[1..];
    TableCount(first);
    var count := UTF8_BYTES[first as int];

    var code: u32;
    if count == 3 {
      var result: u32 := 0;
      var started := AddStartByte(result, first);
      if started.None? {
        assert false;
      }
      result := Shl6(started.value);
      var b1 :- Next(iter);
      iter := iter[1..];
      result :- AddContinuationByte(result, b1);
      assert result as int == Accumulated(bytes, 2);
      result := Shl6(result);
      var b2 :- Next(iter);
      iter := iter[1..];
      result :- AddContinuationByte(result, b2);
      assert result as int == Accumulated(bytes, 3);
      result := Shl6(result);
      var b3 :- Next(iter);
      iter := iter[1..];
      result :- AddContinuationByte(result, b3);
      assert result as int == Accumulated(bytes, 4);
      assert ContinuationsFollow(bytes, 4);
      code := result;
    } else if count == 2 {
      var result: u32 := 0;
      var started := AddStartByte(result, first);
      if started.None? {
        assert false;
      }
      result := Shl6(started.value);
      var b1 :- Next(iter);
      iter := iter[1..];
      result :- AddContinuationByte(result, b1);
      assert result as int == Accumulated(bytes, 2);
      result := Shl6(result);
      var b2 :- Next(iter);
      iter := iter[1..];
      result :- AddContinuationByte(result, b2);
      assert result as int == Accumulated(bytes, 3);
      assert ContinuationsFollow(bytes, 3);
      code := result;
    } else if count == 1 {
      var result: u32 := 0;
      var started := AddStartByte(result, first);
      if started.None? {
        assert false;
      }
      result := Shl6(started.value);
      var b1 :- Next(iter);
      iter := iter[1..];
      result :- AddContinuationByte(result, b1);
      assert result as int == Accumulated(bytes, 2);
      assert ContinuationsFollow(bytes, 2);
      code := result;
    } else if count == 0 {
      code := first as u32;
    } else {
      return None;
    }

    if count > 0 {
      OffsetTrick(bytes, count as nat + 1);
    }
    r := Some((code - UTF8_OFFSETS[count as int], iter));
  }

  /** `is_alphabetic`: the flag the classifier gives the decoded code point,
      with the rest of the input. */
  function IsAlphabetic(bytes: seq<u8>, isAlpha: u32 -> bool): (r: Option<(bool, seq<u8>)>)
    ensures r.None? <==> Decode(bytes).None?
    ensures r.Some? ==> r.value == (isAlpha(Decode(bytes).value.0), Decode(bytes).value.1)
  {
    match Decode(bytes)
    case None => None
    case Some((c, rest)) => Some((isAlpha(c), rest))
  }
}
