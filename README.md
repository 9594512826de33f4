# Unicode-aware `alpha` for nom: the UTF-8 character decoder

This project models `src/lib.rs` of the nom-unicode crate as it stands. The
file has three parts:

- `extract_character`, a table-driven decoder. It reads one code point from
  the front of a byte slice and returns it with the unread rest of the slice.
- `is_alphabetic`, which classifies that code point.
- The scan loop of `complete::alpha`, which skips alphabetic characters from
  the front of its input.

Files:

- `utf8.dfy` (module `Utf8`) holds the source's entities:
  - the tables `UTF8_BYTES` and `UTF8_OFFSETS`;
  - the byte predicates;
  - the two accumulation macros;
  - `extract_character` as the method `ExtractCharacter`;
  - `is_alphabetic` as the function `IsAlphabetic`.

  `ExtractCharacter` follows the source step by step: the byte iterator, the
  table lookup, add-then-shift accumulation, and the final subtraction of
  `UTF8_OFFSETS[count]`. It is proved equal to `Decode`, an independent
  definition written from the byte patterns of section 3 of RFC 3629 and from
  the lead-byte ranges the table builds in.

  Bytes and the accumulator are the source's `u8` and `u32`, as newtypes.
  Dafny checks every `+` and `-` on them for range, so the proof also shows
  that neither `result += byte` nor `code - UTF8_OFFSETS[count]` can overflow
  or underflow. `<<= 6` is modelled as a shift that drops high bits. It is
  proved never to drop any.
- `utf8_facts.dfy` (module `Utf8Facts`) states the decoder's behaviour in
  terms of the count the table gives the lead byte: failures, bytes consumed
  and the value range.
- `rfc3629.dfy` (module `Rfc3629`) is a reference UTF-8 encoder. It proves
  the round trip, and also that the decoder reads back nothing else as a
  scalar value of the right length.
- `complete.dfy` (module `Complete`) is the scan loop of `complete::alpha` as
  a method. It is proved against a recursive definition of where the loop
  ends.

The classifier `char::is_alphabetic` is platform data, the Unicode property
tables. It is a parameter `isAlpha: u32 -> bool` throughout.

The decoder deviates from section 3 of RFC 3629 in the ways below. Each is
stated exactly as a lemma.

- Lead bytes 0x80-0xBF pass through as their own value.
- Overlong forms are accepted, so 2-byte results cover 0..0x7FF, not
  0x80..0x7FF.
- Surrogates are accepted.
- Lead bytes 0xF5-0xF7, and 0xF4 with a large second byte, give values above
  0x10FFFF. Those values then reach `from_u32_unchecked`.

`src/lib.rs` implements none of the eight-class recognizer family
(complete/streaming, `*0`/`*1`). It has only the byte decoder, the
classifier wrapper and the unfinished `complete::alpha`, and the model
covers exactly those.

## Model

| member | source | states |
|---|---|---|
| `Utf8.ExtractCharacter` | src/lib.rs:65-110 | the table-and-offset decoder computes exactly `Decode`, with no `u32` overflow or underflow on any input; the `add_start_byte!` check never fails in the 2-, 3- and 4-byte arms |
| `Utf8.Decode` | src/lib.rs:65-110 | the reference decoder: on success the returned slice is a proper suffix of the input and the value is at most 0x1FFFFF |
| `Utf8.TableCount` | src/lib.rs:11 | `UTF8_BYTES` gives 0 to 0x00-0xBF, 1 to 0xC0-0xDF, 2 to 0xE0-0xEF, 3 to 0xF0-0xF7, 4 to 0xF8-0xFB and 5 to 0xFC-0xFF |
| `Utf8.ByteClasses` | src/lib.rs:15-29 | `is_ascii_byte` (at most 0x7F), `is_continuation_byte` (0x80-0xBF) and `is_start_byte` (above 0xBF) split the bytes: each byte satisfies exactly one |
| `Utf8.OffsetValues` | src/lib.rs:13 | each entry of `UTF8_OFFSETS` is what add-then-shift accumulates from the smallest sequence of its length (length marker, then bare `10` tags); entries 4 and 5 taken modulo 2^32 |
| `Utf8.OffsetTrick` | src/lib.rs:76-106 | for a well-formed 2-, 3- or 4-byte sequence the accumulator fits in `u32`, is at least `UTF8_OFFSETS[count]`, and exceeds it by exactly the concatenated payload bits |
| `Utf8.Shl6` | src/lib.rs:40-43 | `<<= 6` on a `u32`: the product by 64 modulo 2^32, which is the exact product when the argument is below 0x400_0000 |
| `Utf8.AddStartByte` | src/lib.rs:32-39 | fails exactly on a byte that `is_start_byte` (src/lib.rs:22-24) rejects, i.e. one at most 0xBF, else adds the byte |
| `Utf8.AddContinuationByte` | src/lib.rs:47-54 | fails exactly on a byte that `is_continuation_byte` (src/lib.rs:27-29) rejects, i.e. one outside 0x80-0xBF, else adds the byte |
| `Utf8.Next` | src/lib.rs:69-70 | the iterator yields the first unread byte, and `None` once the slice is exhausted |
| `Utf8.IsAlphabetic` | src/lib.rs:121-127 | `None` exactly when decoding fails; otherwise the same remaining slice, with the classifier's flag on the decoded value |
| `Utf8Facts.EmptyInput` | src/lib.rs:70 | an empty slice decodes to `None` |
| `Utf8Facts.SingleBytePassThrough` | src/lib.rs:97-98 | a lead byte 0x00-0xBF has count 0, is returned as its own value, and exactly one byte is consumed |
| `Utf8Facts.RejectedLead` | src/lib.rs:100-101 | count 4 or 5 happens exactly for lead bytes 0xF8-0xFF and always fails, so a successful decode indexes `UTF8_OFFSETS` only at 0-3 |
| `Utf8Facts.ShortOrBadContinuation` | src/lib.rs:76-96 | for count 1-3, decoding fails if and only if fewer than `count` bytes follow or one of them is not a continuation byte |
| `Utf8Facts.RemainingSlice` | src/lib.rs:107 | on success the returned slice is the input with its first `count + 1` bytes removed |
| `Utf8Facts.DecodeSome` | src/lib.rs:71-106 | a successful decode read a whole sequence of the length the table announces, and its value is that sequence's payload |
| `Utf8Facts.DecodedValue` | src/lib.rs:74-106 | the value for each count is the lead byte minus its length marker followed by each continuation byte minus its tag |
| `Utf8Facts.ValueBounds` | src/lib.rs:74-106 | value ranges per count (≤ 0xBF, ≤ 0x7FF, ≤ 0xFFFF, ≤ 0x1FFFFF), and exactly which overlong inputs fall below the range of their length |
| `Utf8Facts.AboveUnicodeRange` | src/lib.rs:105-106 | the value handed to `from_u32_unchecked` exceeds 0x10FFFF exactly for 4-byte sequences led by 0xF5-0xF7, or by 0xF4 with second byte ≥ 0x90 |
| `Utf8Facts.SurrogateAccepted` | src/lib.rs:105-106 | the value is a surrogate exactly for ED A0-BF xx and its overlong form F0 8D A0-BF xx |
| `Utf8Facts.TestExamples` | src/lib.rs:196-205 | `a` decodes from one byte and U+C870 from the three bytes EC A1 B0; through `is_alphabetic` each input is consumed whole (1 and 3 bytes) with the classifier's flag on that code point |
| `Utf8Facts.LoneContinuationByte` | src/lib.rs:97-98 | a lone byte 0x80-0xBF is read from one byte as its own value, although that value's shortest form is two bytes |
| `Rfc3629.Encode` | src/lib.rs:61-64 | the reference encoding of a scalar value is 1-4 bytes, a lead byte announcing that length followed by continuation bytes |
| `Rfc3629.RoundTrip` | src/lib.rs:61-64 | decoding the encoding of any scalar value, followed by any bytes, gives back the value and exactly those following bytes |
| `Rfc3629.DecodeAcceptsOnlyEncodings` | src/lib.rs:61-64 | a decode that yields a scalar value from exactly as many bytes as its shortest form consumed exactly that shortest form |
| `Rfc3629.DecodedTwoBytes` | src/lib.rs:91-96 | a decoded 2-byte sequence whose value is a scalar needing two bytes is exactly the encoder's form of that value |
| `Rfc3629.DecodedThreeBytes` | src/lib.rs:84-90 | a decoded 3-byte sequence whose value is a scalar needing three bytes is exactly the encoder's form of that value |
| `Rfc3629.DecodedFourBytes` | src/lib.rs:76-83 | a decoded 4-byte sequence whose value is a scalar needing four bytes is exactly the encoder's form of that value |
| `Complete.Scan` | src/lib.rs:149-161 | where the loop ends is always a suffix of the input |
| `Complete.Alpha` | src/lib.rs:149-161 | the `while` loop ends exactly as `Scan` says; each iteration strictly shortens `bytes`, so it terminates |
| `Complete.ScanSound` | src/lib.rs:149-161 | every character consumed decodes and is alphabetic; a normal exit is at end of input or at a decodable non-alphabetic character; a panic is at non-empty bytes that do not decode |
| `Complete.ScanFirst` | src/lib.rs:150-160 | the loop stops at the first such place: any alphabetic run ending at a stopping (or undecodable) point is exactly where the loop stops (or panics) |
| `Complete.AlphaRunSuffix` | src/lib.rs:150-157 | a run of alphabetic characters only ever reaches a suffix of where it started |
| `Complete.AllAlphabetic` | src/lib.rs:150-161 | an input made entirely of alphabetic characters is consumed completely |
| `Complete.FirstNotAlphabetic` | src/lib.rs:156-160 | an input whose first character is not alphabetic is left untouched |

## Left out

- `char::is_alphabetic` is the platform's Unicode property table. It is the
  parameter `isAlpha`, a total function on the decoded `u32`, and is not
  re-encoded.
- `char::from_u32_unchecked` and the `unsafe` block: the code point stays a
  `u32`, and `char` validity is not modelled. `AboveUnicodeRange` and
  `SurrogateAccepted` say which inputs produce values that are not a `char`.
- Slices and lifetimes become `seq<u8>`. A returned slice is a suffix value,
  and borrowing and aliasing are not modelled.
- `complete::alpha` after its loop: it panics unconditionally and never
  builds a result. Its `panic!` on undecodable input becomes the outcome
  `Panicked`. nom's `IResult`, `ParseError` and `ErrorKind` are external
  framework types and are not modelled.
- The commented-out `take_while` and `alpha` sketches and the empty
  `incomplete` module contain no code.
- The eight-class recognizer family (complete/streaming, `*0`/`*1`): `src/lib.rs`
  implements none of it, beyond the commented-out sketches above.
- The test helper `wrap` is test scaffolding. Its two assertions, through
  `is_alphabetic`, are the examples of `TestExamples`.
- `is_ascii_byte` is unused in the decoder. It appears in `ByteClasses` and
  in the encoder's contract.
