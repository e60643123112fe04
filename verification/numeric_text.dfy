/** Rust's `FromStr` for the fixed-width integer types (radix 10), on the
    bytes of the text, and the shortest decimal rendering that inverts it. */
module NumericText {
  import opened Results
  import opened Bytes

  const ZERO: Byte := 48   // '0'
  const PLUS: Byte := 43   // '+'
  const MINUS: Byte := 45  // '-'

  const U16_MAX: nat := 0xFFFF
  const USIZE_MAX: nat := 0xFFFF_FFFF_FFFF_FFFF
  const I64_MIN: int := -0x8000_0000_0000_0000
  const I64_MAX: int := 0x7FFF_FFFF_FFFF_FFFF

  /** Rust's `i64`. */
  type I64 = x: int | I64_MIN <= x <= I64_MAX

  predicate IsDigit(b: Byte) {
    ZERO <= b <= ZERO + 9
  }

  predicate AllDigits(s: seq<Byte>) {
    forall i :: 0 <= i < |s| ==> IsDigit(s[i])
  }

  /** The number a run of decimal digits denotes, most significant first. */
  function DigitsValue(s: seq<Byte>): nat
    requires AllDigits(s)
  {
    if |s| == 0 then 0 else DigitsValue(s[..|s| - 1]) * 10 + (s[|s| - 1] - ZERO)
  }

  /** The value of `s[lo..hi]` read as decimal digits, or `None` if some
      byte there is not a digit. It indexes rather than slices, so the
      bytes read are those of `s` itself. */
  function DigitsBetween(s: seq<Byte>, lo: nat, hi: nat): (r: Option<nat>)
    requires lo <= hi <= |s|
    decreases hi - lo
  {
    if hi == lo then Some(0)
    else if !IsDigit(s[hi - 1]) then None
    else
      match DigitsBetween(s, lo, hi - 1)
      case None => None
      case Some(v) => Some(v * 10 + (s[hi - 1] - ZERO))
  }

  /** `DigitsBetween` agrees with the reference reading: defined exactly on
      runs of digits, where it is their value. */
  lemma {:induction false} DigitsBetweenSpec(s: seq<Byte>, lo: nat, hi: nat)
    requires lo <= hi <= |s|
    ensures DigitsBetween(s, lo, hi).Some? <==> AllDigits(s[lo..hi])
    ensures DigitsBetween(s, lo, hi).Some? ==> DigitsBetween(s, lo, hi).value == DigitsValue(s[lo..hi])
    decreases hi - lo
  {
    if lo < hi {
      DigitsBetweenSpec(s, lo, hi - 1);
      assert s[lo..hi][..hi - lo - 1] == s[lo..hi - 1];
      assert s[lo..hi][hi - lo - 1] == s[hi - 1];
      assert forall i :: 0 <= i < hi - lo - 1 ==> s[lo..hi][i] == s[lo..hi - 1][i];
    }
  }

  /** Rust's unsigned `from_str`: an optional `+`, then one or more ASCII
      digits (leading zeros allowed) whose value is at most `max`. */
  function ParseUnsigned(text: seq<Byte>, max: nat): (r: Option<nat>)
    ensures r.Some? ==> r.value <= max
  {
    var start := if 0 < |text| && text[0] == PLUS then 1 else 0;
    if |text| == start then None
    else
      match DigitsBetween(text, start, |text|)
      case None => None
      case Some(v) => if v <= max then Some(v) else None
  }

  /** Rust's signed `from_str`: as the unsigned form, or a `-` followed by one
      or more digits; the value must lie in `[min, max]`. So `-0`, `+7` and
      `007` are all accepted. */
  function ParseSigned(text: seq<Byte>, min: int, max: nat): (r: Option<int>)
    requires min <= 0
    ensures r.Some? ==> min <= r.value <= max
  {
    if 0 < |text| && text[0] == MINUS then
      if |text| == 1 then None
      else
        match DigitsBetween(text, 1, |text|)
        case None => None
        case Some(v) => if min <= 0 - v then Some(0 - v) else None
    else
      match ParseUnsigned(text, max)
      case None => None
      case Some(v) => Some(v)
  }

  /** `str::parse::<i64>`. */
  function ParseI64(text: seq<Byte>): (r: Option<I64>)
    ensures r.Some? ==> ParseSigned(text, I64_MIN, I64_MAX) == Some(r.value as int)
    ensures r.None? ==> ParseSigned(text, I64_MIN, I64_MAX).None?
  {
    match ParseSigned(text, I64_MIN, I64_MAX)
    case None => None
    case Some(v) => Some(v)
  }

  /** The shortest decimal rendering of `n` (Rust's `to_string` on an unsigned value). */
  function ToDecimal(n: nat): (r: seq<Byte>)
    ensures 0 < |r|
  {
    if n < 10 then [ZERO + n] else ToDecimal(n / 10) + [ZERO + n % 10]
  }

  /** The rendering is a run of digits denoting `n`, with no leading zero
      unless `n` is zero. */
  lemma {:induction false} ToDecimalSpec(n: nat)
    ensures AllDigits(ToDecimal(n))
    ensures DigitsValue(ToDecimal(n)) == n
    ensures ToDecimal(n)[0] == ZERO ==> n == 0
  {
    if n >= 10 {
      ToDecimalSpec(n / 10);
      var r := ToDecimal(n);
      assert r[..|r| - 1] == ToDecimal(n / 10);
    }
  }

  /** Rust's `to_string` on a signed value. */
  function SignedToDecimal(n: int): (r: seq<Byte>)
    ensures 0 < |r|
    ensures n < 0 <==> r[0] == MINUS
  {
    if n < 0 then [MINUS] + ToDecimal(-n)
    else
      ToDecimalSpec(n);
      ToDecimal(n)
  }

  /** Digits never contain a byte outside `0`..`9`: a scanner looking for a
      delimiter passes over them. */
  lemma DigitsAvoid(s: seq<Byte>, b: Byte)
    requires AllDigits(s)
    requires !IsDigit(b)
    ensures forall j :: 0 <= j < |s| ==> s[j] != b
  {
  }

  /** Parsing inverts the shortest rendering of every value in range. */
  lemma ParseUnsignedToDecimal(n: nat, max: nat)
    requires n <= max
    ensures ParseUnsigned(ToDecimal(n), max) == Some(n)
  {
    var d := ToDecimal(n);
    ToDecimalSpec(n);
    DigitsBetweenSpec(d, 0, |d|);
    assert d[0..|d|] == d;
    assert d[0] != PLUS;
  }

  /** The decimal text of a number above `max` is rejected. */
  lemma ParseUnsignedTooLarge(n: nat, max: nat)
    requires max < n
    ensures ParseUnsigned(ToDecimal(n), max) == None
  {
    var d := ToDecimal(n);
    ToDecimalSpec(n);
    DigitsBetweenSpec(d, 0, |d|);
    assert d[0..|d|] == d;
    assert d[0] != PLUS;
  }

  /** Parsing inverts the rendering of every signed value in range, both signs. */
  lemma ParseSignedToDecimal(n: int, min: int, max: nat)
    requires min <= 0
    requires min <= n <= max
    ensures ParseSigned(SignedToDecimal(n), min, max) == Some(n)
  {
    var t := SignedToDecimal(n);
    if n < 0 {
      assert t[1..|t|] == ToDecimal(-n);
      ToDecimalSpec(-n);
      DigitsBetweenSpec(t, 1, |t|);
    } else {
      assert t[0] != MINUS;
      ParseUnsignedToDecimal(n, max);
    }
  }

  /** The unsigned parse against the digit reading: it accepts exactly an
      optional `+` followed by one or more digits whose value is at most
      `max`, and gives that value. */
  lemma ParseUnsignedSpec(text: seq<Byte>, max: nat)
    ensures var start := if 0 < |text| && text[0] == PLUS then 1 else 0;
      && (ParseUnsigned(text, max).Some? <==>
            start < |text| && AllDigits(text[start..]) && DigitsValue(text[start..]) <= max)
      && (ParseUnsigned(text, max).Some? ==> ParseUnsigned(text, max).value == DigitsValue(text[start..]))
  {
    var start := if 0 < |text| && text[0] == PLUS then 1 else 0;
    if start < |text| {
      DigitsBetweenSpec(text, start, |text|);
      assert text[start..|text|] == text[start..];
    }
  }

  /** `str::parse::<i64>` against the digit reading: it accepts exactly an
      optional `+` or `-` followed by one or more digits whose signed value
      lies in the `i64` range, and gives that value. */
  lemma ParseI64Spec(text: seq<Byte>)
    ensures var negative := 0 < |text| && text[0] == MINUS;
      var start := if 0 < |text| && (text[0] == PLUS || text[0] == MINUS) then 1 else 0;
      && (ParseI64(text).Some? <==>
            && start < |text| && AllDigits(text[start..])
            && I64_MIN <= (if negative then -(DigitsValue(text[start..]) as int) else DigitsValue(text[start..])) <= I64_MAX)
      && (ParseI64(text).Some? ==>
            ParseI64(text).value == if negative then -(DigitsValue(text[start..]) as int) else DigitsValue(text[start..]))
  {
    if 0 < |text| && text[0] == MINUS {
      if 1 < |text| {
        DigitsBetweenSpec(text, 1, |text|);
        assert text[1..|text|] == text[1..];
      }
    } else {
      ParseUnsignedSpec(text, I64_MAX);
    }
  }

  /** Leading zeros, an explicit `+` and a negative zero are all accepted as written. */
  lemma NonCanonicalIntegerTexts()
    ensures ParseI64(Ascii("-0")) == Some(0)
    ensures ParseI64(Ascii("007")) == Some(7)
    ensures ParseI64(Ascii("+5")) == Some(5)
    ensures ParseI64(Ascii("-")) == None
    ensures ParseI64(Ascii("")) == None
  {
    assert Ascii("-0") == [MINUS, ZERO];
    var t := Ascii("007");
    assert t == [ZERO, ZERO, ZERO + 7];
    assert DigitsBetween(t, 0, 2) == Some(0);
    assert Ascii("+5") == [PLUS, ZERO + 5];
    assert Ascii("-") == [MINUS];
  }

}
