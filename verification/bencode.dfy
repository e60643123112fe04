/** The recursive-descent bencode decoder of `BencodeParser`
    (backup/src/backend/parser.rs). The parser's mutable cursor `pos` is
    threaded through pure functions: each returns the decoded value together
    with the cursor just past it. */
module Bencode {
  import opened Results
  import opened Bytes
  import opened NumericText
  import opened Utf8

  const INT_TAG: Byte := 105   // 'i'
  const LIST_TAG: Byte := 108  // 'l'
  const DICT_TAG: Byte := 100  // 'd'
  const END: Byte := 101       // 'e'
  const COLON: Byte := 58      // ':'

  /** `BencodeValue`: dictionaries keep their pairs in input order, duplicates included. */
  datatype Value =
    | BString(bytes: seq<Byte>)
    | Integer(n: I64)
    | List(items: seq<Value>)
    | Dict(entries: seq<(seq<Byte>, Value)>)

  /** The parser's error strings, one constructor each. */
  datatype ParseError =
    | UnexpectedEof        // "Unexpected EOF"
    | InvalidFormat        // "Invalid Bencode format"
    | InvalidInteger       // "Invalid integer"
    | InvalidStringLength  // "Invalid string length"
    | StringExceedsData    // "String exceeds data length"
    | NonStringKey         // "Dictionary key must be a string"

  /** A decoded value and the cursor position just past it. */
  datatype Step<+T> = Step(val: T, next: nat)

  type Parsed<T> = Result<Step<T>, ParseError>

  /** A byte `parse` dispatches on. */
  predicate IsTag(b: Byte) {
    b == INT_TAG || b == LIST_TAG || b == DICT_TAG || IsDigit(b)
  }

  /** `while self.peek_byte()? != b { self.pos += 1 }`: the first position at
      or after `from` holding `b`, or end of data. */
  function ScanTo(data: seq<Byte>, from: nat, b: Byte): (r: Result<nat, ParseError>)
    ensures r.Ok? ==> from <= r.value < |data| && data[r.value] == b
    ensures r.Err? ==> r.error == UnexpectedEof
    decreases |data| - from
  {
    if |data| <= from then Err(UnexpectedEof)
    else if data[from] == b then Ok(from)
    else ScanTo(data, from + 1, b)
  }

  /** The scan stops at the first `b` and fails exactly when there is none. */
  lemma {:induction false} ScanToSpec(data: seq<Byte>, from: nat, b: Byte)
    ensures ScanTo(data, from, b).Ok? ==>
      forall j :: from <= j < ScanTo(data, from, b).value ==> data[j] != b
    ensures ScanTo(data, from, b).Err? <==> forall j :: from <= j < |data| ==> data[j] != b
    decreases |data| - from
  {
    if from < |data| && data[from] != b {
      ScanToSpec(data, from + 1, b);
    }
  }

  /** Any position meeting the two conditions is the one the scan finds. */
  lemma {:induction false} ScanToFirst(data: seq<Byte>, from: nat, b: Byte, k: nat)
    requires from <= k < |data| && data[k] == b
    requires forall j :: from <= j < k ==> data[j] != b
    ensures ScanTo(data, from, b) == Ok(k)
    decreases k - from
  {
    if from < k {
      ScanToFirst(data, from + 1, b, k);
    }
  }

  /** `parse`: dispatch on the byte under the cursor (`peek_byte` fails at
      the end of the data). */
  function Parse(data: seq<Byte>, pos: nat): (r: Parsed<Value>)
    ensures r.Ok? ==> pos < r.value.next <= |data|
    ensures |data| <= pos ==> r == Err(UnexpectedEof)
    ensures pos < |data| && !IsTag(data[pos]) ==> r == Err(InvalidFormat)
    decreases |data| - pos, 1
  {
    if |data| <= pos then Err(UnexpectedEof)
    else if data[pos] == INT_TAG then ParseInteger(data, pos)
    else if data[pos] == LIST_TAG then ParseList(data, pos)
    else if data[pos] == DICT_TAG then ParseDict(data, pos)
    else if IsDigit(data[pos]) then ParseString(data, pos)
    else Err(InvalidFormat)
  }

  /** `parse_integer`: the text between the `i` and the first following `e`,
      read by `str::parse::<i64>`. */
  function ParseInteger(data: seq<Byte>, pos: nat): (r: Parsed<Value>)
    requires pos < |data| && data[pos] == INT_TAG
    ensures r.Ok? ==> pos < r.value.next <= |data| && r.value.val.Integer?
  {
    match ScanTo(data, pos + 1, END)
    case Err(e) => Err(e)
    case Ok(end) =>
      match ParseI64(data[pos + 1..end])
      case None => Err(InvalidInteger)
      case Some(n) => Ok(Step(Integer(n), end + 1))
  }

  /** `parse_string`: a `usize` length text up to the first `:`, then that
      many bytes. */
  function ParseString(data: seq<Byte>, pos: nat): (r: Parsed<Value>)
    ensures r.Ok? ==> pos < r.value.next <= |data| && r.value.val.BString?
  {
    match ScanTo(data, pos, COLON)
    case Err(e) => Err(e)
    case Ok(colon) =>
      match ParseUnsigned(data[pos..colon], USIZE_MAX)
      case None => Err(InvalidStringLength)
      case Some(len) =>
        var start := colon + 1;
        if |data| < start + len then Err(StringExceedsData)
        else Ok(Step(BString(data[start..start + len]), start + len))
  }

  /** `parse_list`: skip the `l`, then values until an `e`. */
  function ParseList(data: seq<Byte>, pos: nat): (r: Parsed<Value>)
    requires pos < |data|
    ensures r.Ok? ==> pos < r.value.next <= |data| && r.value.val.List?
    decreases |data| - pos, 0
  {
    match ParseItems(data, pos + 1)
    case Err(e) => Err(e)
    case Ok(items) => Ok(Step(List(items.val), items.next))
  }

  /** The loop of `parse_list`, from the cursor to the closing `e` inclusive. */
  function ParseItems(data: seq<Byte>, pos: nat): (r: Parsed<seq<Value>>)
    ensures r.Ok? ==> pos < r.value.next <= |data|
    decreases |data| - pos, 2
  {
    if |data| <= pos then Err(UnexpectedEof)
    else if data[pos] == END then Ok(Step([], pos + 1))
    else
      match Parse(data, pos)
      case Err(e) => Err(e)
      case Ok(first) =>
        match ParseItems(data, first.next)
        case Err(e) => Err(e)
        case Ok(rest) => Ok(Step([first.val] + rest.val, rest.next))
  }

  /** `parse_dict`: skip the `d`, then key/value pairs until an `e`. */
  function ParseDict(data: seq<Byte>, pos: nat): (r: Parsed<Value>)
    requires pos < |data|
    ensures r.Ok? ==> pos < r.value.next <= |data| && r.value.val.Dict?
    decreases |data| - pos, 0
  {
    match ParseEntries(data, pos + 1)
    case Err(e) => Err(e)
    case Ok(entries) => Ok(Step(Dict(entries.val), entries.next))
  }

  /** The loop of `parse_dict`: a key must decode to a byte string. */
  function ParseEntries(data: seq<Byte>, pos: nat): (r: Parsed<seq<(seq<Byte>, Value)>>)
    ensures r.Ok? ==> pos < r.value.next <= |data|
    decreases |data| - pos, 2
  {
    if |data| <= pos then Err(UnexpectedEof)
    else if data[pos] == END then Ok(Step([], pos + 1))
    else
      match Parse(data, pos)
      case Err(e) => Err(e)
      case Ok(key) =>
        if !key.val.BString? then Err(NonStringKey)
        else
          match Parse(data, key.next)
          case Err(e) => Err(e)
          case Ok(value) =>
            match ParseEntries(data, value.next)
            case Err(e) => Err(e)
            case Ok(rest) => Ok(Step([(key.val.bytes, value.val)] + rest.val, rest.next))
  }

  /** `data` holds, at `pos`, an encoding the decoder reads as `v`, ending just before `next`. */
  predicate Decodes(data: seq<Byte>, pos: nat, v: Value, next: nat) {
    Parse(data, pos) == Ok(Step(v, next))
  }

  predicate ItemsDecode(data: seq<Byte>, pos: nat, items: seq<Value>, next: nat) {
    ParseItems(data, pos) == Ok(Step(items, next))
  }

  predicate EntriesDecode(data: seq<Byte>, pos: nat, entries: seq<(seq<Byte>, Value)>, next: nat) {
    ParseEntries(data, pos) == Ok(Step(entries, next))
  }

  /** `find_info_end`: the exclusive end of the value that starts at `start`. */
  function FindInfoEnd(data: seq<Byte>, start: nat): (r: Result<nat, ParseError>)
    ensures r.Ok? ==> start < r.value <= |data|
    ensures r.Ok? <==> Parse(data, start).Ok?
    ensures r.Ok? ==> r.value == Parse(data, start).value.next
  {
    match Parse(data, start)
    case Err(e) => Err(e)
    case Ok(v) => Ok(v.next)
  }

  /** String parsing, stated by the first `:` at or after the cursor: the
      length text before it must be a `usize`, and the declared length must
      fit in the data; the value is then exactly the bytes after the colon. */
  lemma ParseStringAt(data: seq<Byte>, pos: nat, colon: nat)
    requires pos <= colon < |data| && data[colon] == COLON
    requires forall j :: pos <= j < colon ==> data[j] != COLON
    ensures ParseUnsigned(data[pos..colon], USIZE_MAX).None? ==>
      ParseString(data, pos) == Err(InvalidStringLength)
    ensures forall len: nat :: ParseUnsigned(data[pos..colon], USIZE_MAX) == Some(len) ==>
      ParseString(data, pos) ==
        if |data| < colon + 1 + len then Err(StringExceedsData)
        else Ok(Step(BString(data[colon + 1..colon + 1 + len]), colon + 1 + len))
  {
    ScanToFirst(data, pos, COLON, colon);
  }

  /** String parsing once the colon is found and the length text read. */
  lemma ParseStringFound(data: seq<Byte>, pos: nat, colon: nat, len: nat)
    requires ScanTo(data, pos, COLON) == Ok(colon)
    requires ParseUnsigned(data[pos..colon], USIZE_MAX) == Some(len)
    requires colon + 1 + len <= |data|
    ensures ParseString(data, pos) == Ok(Step(BString(data[colon + 1..colon + 1 + len]), colon + 1 + len))
  {
  }

  /** Without a `:` ahead, string parsing runs off the end of the data. */
  lemma ParseStringNoColon(data: seq<Byte>, pos: nat)
    requires forall j :: pos <= j < |data| ==> data[j] != COLON
    ensures ParseString(data, pos) == Err(UnexpectedEof)
  {
    ScanToSpec(data, pos, COLON);
  }

  /** Integer parsing, stated by the first `e` after the `i`. */
  lemma ParseIntegerAt(data: seq<Byte>, pos: nat, end: nat)
    requires pos < end < |data| && data[pos] == INT_TAG && data[end] == END
    requires forall j :: pos < j < end ==> data[j] != END
    ensures ParseI64(data[pos + 1..end]).None? ==> Parse(data, pos) == Err(InvalidInteger)
    ensures forall n: I64 :: ParseI64(data[pos + 1..end]) == Some(n) ==>
      Parse(data, pos) == Ok(Step(Integer(n), end + 1))
  {
    ScanToFirst(data, pos + 1, END, end);
    ParseAtInteger(data, pos);
  }

  /** Without an `e` after the `i`, integer parsing runs off the end of the data. */
  lemma ParseIntegerNoEnd(data: seq<Byte>, pos: nat)
    requires pos < |data| && data[pos] == INT_TAG
    requires forall j :: pos < j < |data| ==> data[j] != END
    ensures Parse(data, pos) == Err(UnexpectedEof)
  {
    ScanToSpec(data, pos + 1, END);
    ParseAtInteger(data, pos);
  }

  /** The `from_utf8` checks ahead of both number parses never decide the
      outcome: every text the number parse accepts is a sign and digits,
      hence ASCII and well-formed UTF-8, and either failure reports the same
      error as the parse. */
  lemma NumberTextsAreUtf8(text: seq<Byte>)
    ensures ParseI64(text).Some? ==> ValidUtf8(text)
    ensures ParseUnsigned(text, USIZE_MAX).Some? ==> ValidUtf8(text)
  {
    if ParseUnsigned(text, USIZE_MAX).Some? {
      SignedDigitsAreUtf8(text, if text[0] == PLUS then 1 else 0);
    } else if ParseI64(text).Some? {
      SignedDigitsAreUtf8(text, if text[0] == PLUS || text[0] == MINUS then 1 else 0);
    }
  }

  /** A sign, then digits: ASCII, so well-formed UTF-8. */
  lemma SignedDigitsAreUtf8(text: seq<Byte>, start: nat)
    requires start <= 1 && start <= |text|
    requires start == 1 ==> text[0] == PLUS || text[0] == MINUS
    requires DigitsBetween(text, start, |text|).Some?
    ensures ValidUtf8(text)
  {
    DigitsBetweenSpec(text, start, |text|);
    assert IsAscii(text) by {
      forall i | 0 <= i < |text| ensures text[i] < 0x80 {
        if start <= i {
          assert text[start..|text|][i - start] == text[i];
        }
      }
    }
    AsciiIsUtf8(text);
  }

  /** The dispatch of `parse`, one lemma per branch. */
  lemma ParseAtDigit(data: seq<Byte>, pos: nat)
    requires pos < |data| && IsDigit(data[pos])
    ensures Parse(data, pos) == ParseString(data, pos)
  {
    assert data[pos] != INT_TAG && data[pos] != LIST_TAG && data[pos] != DICT_TAG;
  }

  lemma ParseAtInteger(data: seq<Byte>, pos: nat)
    requires pos < |data| && data[pos] == INT_TAG
    ensures Parse(data, pos) == ParseInteger(data, pos)
  {
  }

  lemma ParseAtList(data: seq<Byte>, pos: nat)
    requires pos < |data| && data[pos] == LIST_TAG
    ensures Parse(data, pos) == ParseList(data, pos)
  {
  }

  lemma ParseAtDict(data: seq<Byte>, pos: nat)
    requires pos < |data| && data[pos] == DICT_TAG
    ensures Parse(data, pos) == ParseDict(data, pos)
  {
  }
}
