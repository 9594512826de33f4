/** The scan loop of `complete::alpha` in src/lib.rs: decode characters from
    the front of the input while the classifier calls them alphabetic. The
    function around the loop is unfinished (it panics after the loop), so
    only the loop is modelled: where it stops, or that it panics on bytes
    `is_alphabetic` cannot decode. */
module Complete {
  import opened Utf8

  /** How the loop ends: it leaves with `bytes == rest` (end of input or the
      first non-alphabetic character), or it reaches the `panic!` of the
      `None` arm with `bytes == rest`, which does not decode. */
  datatype ScanOutcome = Stopped(rest: seq<u8>) | Panicked(rest: seq<u8>)

  /** Where the loop ends on `bytes`, as a recursive definition: one step
      per character. */
  function Scan(bytes: seq<u8>, isAlpha: u32 -> bool): (r: ScanOutcome)
    ensures |r.rest| <= |bytes| && r.rest == bytes[|bytes| - |r.rest|..]
    decreases |bytes|
  {
    if |bytes| == 0 then Stopped(bytes)
    else match IsAlphabetic(bytes, isAlpha)
      case None => Panicked(bytes)
      case Some((alpha, next)) => if alpha then Scan(next, isAlpha) else Stopped(bytes)
  }

  /** `bytes` reaches `rest` by reading characters that are all alphabetic. */
  predicate AlphaRun(bytes: seq<u8>, rest: seq<u8>, isAlpha: u32 -> bool)
    decreases |bytes|
  {
    bytes == rest ||
    match Decode(bytes)
    case None => false
    case Some((c, next)) => isAlpha(c) && AlphaRun(next, rest, isAlpha)
  }

  /** The loop may stop at `rest`: the input is exhausted, or the character
      at `rest` decodes and is not alphabetic. */
  predicate StopsAt(rest: seq<u8>, isAlpha: u32 -> bool) {
    |rest| == 0 || (Decode(rest).Some? && !isAlpha(Decode(rest).value.0))
  }

  /** The loop of `complete::alpha`. */
  method Alpha(input: seq<u8>, isAlpha: u32 -> bool) returns (r: ScanOutcome)
    ensures r == Scan(input, isAlpha)
  {
    var bytes := input;
    while |bytes| > 0
      invariant Scan(bytes, isAlpha) == Scan(input, isAlpha)
      decreases |bytes|
    {
      var result := IsAlphabetic(bytes, isAlpha);
      if result.None? {
        return Panicked(bytes);
      }
      if result.value.0 {
        bytes := result.value.1;
      } else {
        break;
      }
    }
    return Stopped(bytes);
  }

  /** Whatever the outcome, everything before `rest` was read as alphabetic
      characters, and `rest` is a suffix of the input. On a normal exit the
      loop stopped where it may stop; on a panic `rest` is non-empty and
      does not decode. */
  lemma {:induction false} ScanSound(bytes: seq<u8>, isAlpha: u32 -> bool)
    ensures AlphaRun(bytes, Scan(bytes, isAlpha).rest, isAlpha)
    ensures Scan(bytes, isAlpha).Stopped? ==> StopsAt(Scan(bytes, isAlpha).rest, isAlpha)
    ensures Scan(bytes, isAlpha).Panicked? ==>
      |Scan(bytes, isAlpha).rest| > 0 && Decode(Scan(bytes, isAlpha).rest).None?
    decreases |bytes|
  {
    if |bytes| > 0 {
      match Decode(bytes)
      case None =>
      case Some((c, next)) =>
        if isAlpha(c) {
          ScanSound(next, isAlpha);
        }
    }
  }

  /** The loop stops at the FIRST place it may: a run of alphabetic
      characters ending where the loop may stop is exactly where it stops,
      and an alphabetic run ending at bytes that do not decode is exactly
      where it panics. */
  lemma {:induction false} ScanFirst(bytes: seq<u8>, rest: seq<u8>, isAlpha: u32 -> bool)
    requires AlphaRun(bytes, rest, isAlpha)
    ensures StopsAt(rest, isAlpha) ==> Scan(bytes, isAlpha) == Stopped(rest)
    ensures |rest| > 0 && Decode(rest).None? ==> Scan(bytes, isAlpha) == Panicked(rest)
    decreases |bytes|
  {
    if bytes != rest {
      var next := Decode(bytes).value.1;
      ScanFirst(next, rest, isAlpha);
      // `rest` is a proper suffix of `bytes`, so `bytes` itself cannot be
      // a place to stop.
      AlphaRunSuffix(bytes, rest, isAlpha);
    }
  }

  /** An alphabetic run only ever reaches a suffix of where it started. */
  lemma {:induction false} AlphaRunSuffix(bytes: seq<u8>, rest: seq<u8>, isAlpha: u32 -> bool)
    requires AlphaRun(bytes, rest, isAlpha)
    ensures |rest| <= |bytes| && rest == bytes[|bytes| - |rest|..]
    decreases |bytes|
  {
    if bytes != rest {
      AlphaRunSuffix(Decode(bytes).value.1, rest, isAlpha);
    }
  }

  /** When every character of the input is alphabetic, the loop consumes the
      whole input. */
  lemma AllAlphabetic(bytes: seq<u8>, isAlpha: u32 -> bool)
    requires AlphaRun(bytes, [], isAlpha)
    ensures Scan(bytes, isAlpha) == Stopped([])
  {
    ScanFirst(bytes, [], isAlpha);
  }

  /** The loop leaves an input whose first character decodes but is not
      alphabetic untouched. */
  lemma FirstNotAlphabetic(bytes: seq<u8>, isAlpha: u32 -> bool)
    requires Decode(bytes).Some? && !isAlpha(Decode(bytes).value.0)
    ensures Scan(bytes, isAlpha) == Stopped(bytes)
  {
  }
}
