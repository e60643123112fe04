/** `parse_string` as compiled. The end of a string is computed as
    `self.pos + len` in `usize`, and the declared length may be as large as
    `usize::MAX`, so the sum can overflow: a debug build panics on the
    addition, and a release build wraps to an end before the start, which
    passes the `end > self.data.len()` check and then panics on the slice
    `self.data[self.pos..end]`. Either way the parser panics where it
    evidently meant to report "String exceeds data length", which is what
    `Bencode.ParseString` does. */
module StringOverflow {
  import opened Results
  import opened Bytes
  import opened NumericText
  import opened Bencode

  /** `usize` arithmetic wraps modulo this. */
  const USIZE_LIMIT: nat := USIZE_MAX + 1

  /** A call either returns or panics. */
  datatype Outcome<T> = Returns(result: T) | Panics

  /** `parse_string` with the end computed by a wrapping `usize` sum (the
      release build), and the slice panicking when its end precedes its
      start. */
  function ParseStringAsWritten(data: seq<Byte>, pos: nat): (r: Outcome<Parsed<Value>>)
    ensures r.Panics? ==> LengthOverflows(data, pos)
    ensures !LengthOverflows(data, pos) ==> r == Returns(ParseString(data, pos))
  {
    match ScanTo(data, pos, COLON)
    case Err(e) => Returns(Err(e))
    case Ok(colon) =>
      match ParseUnsigned(data[pos..colon], USIZE_MAX)
      case None => Returns(Err(InvalidStringLength))
      case Some(len) =>
        var start := colon + 1;
        var end := (start + len) % USIZE_LIMIT;
        if |data| < end then Returns(Err(StringExceedsData))
        else if end < start then Panics
        else Returns(Ok(Step(BString(data[start..end]), end)))
  }

  /** The declared length, added to the position after the `:`, does not fit
      in a `usize`. */
  predicate LengthOverflows(data: seq<Byte>, pos: nat) {
    match ScanTo(data, pos, COLON)
    case Err(_) => false
    case Ok(colon) =>
      match ParseUnsigned(data[pos..colon], USIZE_MAX)
      case None => false
      case Some(len) => USIZE_LIMIT <= colon + 1 + len
  }

  /** The compiled parser panics exactly when the end overflows, and
      otherwise agrees with the intended one: a wrapped end always lies
      before the start, so it passes the length check and reaches the
      slice. */
  lemma ParseStringAsWrittenSpec(data: seq<Byte>, pos: nat)
    ensures ParseStringAsWritten(data, pos) ==
      if LengthOverflows(data, pos) then Panics else Returns(ParseString(data, pos))
  {
  }

  /** A declared length so large that the end overflows, with no bytes
      after the `:` (`18446744073709551615:` is one): the compiled parser
      panics, the intended one reports that the string exceeds the data. */
  lemma OverflowingLengthPanics(n: nat)
    requires n <= USIZE_MAX
    requires USIZE_LIMIT <= |ToDecimal(n)| + 1 + n
    ensures ParseStringAsWritten(ToDecimal(n) + [COLON], 0) == Panics
    ensures ParseString(ToDecimal(n) + [COLON], 0) == Err(StringExceedsData)
  {
    var digits := ToDecimal(n);
    var data := digits + [COLON];
    ToDecimalSpec(n);
    DigitsAvoid(digits, COLON);
    assert data[0..|digits|] == digits;
    ParseUnsignedToDecimal(n, USIZE_MAX);
    ParseStringAt(data, 0, |digits|);
    ScanToFirst(data, 0, COLON, |digits|);
    ParseStringAsWrittenSpec(data, 0);
  }
}
