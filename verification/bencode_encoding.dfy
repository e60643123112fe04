/** The canonical bencode encoder, the decoder's partner: every value the
    decoder can represent encodes to bytes it decodes back to that value,
    wherever in a buffer the encoding sits. */
module BencodeEncoding {
  import opened Results
  import opened Bytes
  import opened NumericText
  import opened Bencode

  /** Every byte-string length fits the `usize` the decoder reads lengths into. */
  predicate WellFormed(v: Value)
    decreases v, 1
  {
    match v
    case BString(b) => |b| <= USIZE_MAX
    case Integer(_) => true
    case List(items) => ItemsWellFormed(items)
    case Dict(entries) => EntriesWellFormed(entries)
  }

  predicate ItemsWellFormed(items: seq<Value>)
    decreases items, 0
  {
    |items| == 0 || (WellFormed(items[0]) && ItemsWellFormed(items[1..]))
  }

  predicate EntriesWellFormed(entries: seq<(seq<Byte>, Value)>)
    decreases entries, 0
  {
    |entries| == 0 || (EntryWellFormed(entries[0]) && EntriesWellFormed(entries[1..]))
  }

  predicate EntryWellFormed(entry: (seq<Byte>, Value))
    decreases entry, 0
  {
    |entry.0| <= USIZE_MAX && WellFormed(entry.1)
  }

  function EncodeString(b: seq<Byte>): (r: seq<Byte>)
    ensures 0 < |r| && IsDigit(r[0])
  {
    ToDecimalSpec(|b|);
    ToDecimal(|b|) + [COLON] + b
  }

  function Encode(v: Value): (r: seq<Byte>)
    ensures 0 < |r| && IsTag(r[0])
    decreases v, 1
  {
    match v
    case BString(b) => EncodeString(b)
    case Integer(n) => [INT_TAG] + SignedToDecimal(n) + [END]
    case List(items) => [LIST_TAG] + EncodeItems(items) + [END]
    case Dict(entries) => [DICT_TAG] + EncodeEntries(entries) + [END]
  }

  function EncodeItems(items: seq<Value>): seq<Byte>
    decreases items, 0
  {
    if |items| == 0 then [] else Encode(items[0]) + EncodeItems(items[1..])
  }

  function EncodeEntries(entries: seq<(seq<Byte>, Value)>): seq<Byte>
    decreases entries, 0
  {
    if |entries| == 0 then []
    else EncodeEntry(entries[0]) + EncodeEntries(entries[1..])
  }

  function EncodeEntry(entry: (seq<Byte>, Value)): seq<Byte>
    decreases entry, 0
  {
    EncodeString(entry.0) + Encode(entry.1)
  }

  /** An encoded string is its length text, a colon, then the payload. */
  lemma EncodeStringFields(b: seq<Byte>, data: seq<Byte>, pos: nat)
    requires At(data, pos, EncodeString(b))
    ensures At(data, pos, ToDecimal(|b|) + [COLON])
    ensures At(data, pos + |ToDecimal(|b|)| + 1, b)
  {
    AtConcat(data, pos, ToDecimal(|b|) + [COLON], b);
  }

  /** The scan for `b` runs over a prefix free of `b` and stops just after it. */
  lemma ScanPast(data: seq<Byte>, from: nat, s: seq<Byte>, b: Byte)
    requires At(data, from, s + [b])
    requires forall i :: 0 <= i < |s| ==> s[i] != b
    ensures ScanTo(data, from, b) == Ok(from + |s|)
  {
    AtSlice(data, from, s + [b]);
    assert forall j :: from <= j < from + |s| ==> data[j] == data[from..from + |s| + 1][j - from];
    AtIndex(data, from, s + [b], |s|);
    ScanToFirst(data, from, b, from + |s|);
  }

  /** The length text of an encoded string: the scan for `:` stops right
      after it, and its first byte is a digit. */
  lemma LengthTextScan(n: nat, data: seq<Byte>, pos: nat)
    requires At(data, pos, ToDecimal(n) + [COLON])
    ensures ScanTo(data, pos, COLON) == Ok(pos + |ToDecimal(n)|)
    ensures IsDigit(data[pos])
  {
    ToDecimalSpec(n);
    ScanPast(data, pos, ToDecimal(n), COLON);
    AtIndex(data, pos, ToDecimal(n) + [COLON], 0);
  }

  /** The length text sits between the cursor and the colon. */
  lemma LengthTextSlice(n: nat, data: seq<Byte>, pos: nat)
    requires At(data, pos, ToDecimal(n) + [COLON])
    ensures pos + |ToDecimal(n)| < |data|
    ensures data[pos..pos + |ToDecimal(n)|] == ToDecimal(n)
  {
    AtConcat(data, pos, ToDecimal(n), [COLON]);
    AtIndex(data, pos, ToDecimal(n) + [COLON], |ToDecimal(n)|);
    AtSlice(data, pos, ToDecimal(n));
  }

  /** The bytes between the cursor and the colon read back as the length. */
  lemma LengthTextParse(n: nat, data: seq<Byte>, pos: nat)
    requires n <= USIZE_MAX
    requires At(data, pos, ToDecimal(n) + [COLON])
    ensures pos + |ToDecimal(n)| < |data|
    ensures ParseUnsigned(data[pos..pos + |ToDecimal(n)|], USIZE_MAX) == Some(n)
  {
    LengthTextSlice(n, data, pos);
    ParseUnsignedToDecimal(n, USIZE_MAX);
  }

  /** A string whose length text, colon and payload have been located decodes. */
  lemma ParseStringLaidOut(data: seq<Byte>, pos: nat, colon: nat, b: seq<Byte>, next: nat)
    requires pos < |data| && IsDigit(data[pos])
    requires ScanTo(data, pos, COLON) == Ok(colon)
    requires ParseUnsigned(data[pos..colon], USIZE_MAX) == Some(|b|)
    requires next == colon + 1 + |b| && next <= |data| && data[colon + 1..next] == b
    ensures Decodes(data, pos, BString(b), next)
  {
    ParseStringFound(data, pos, colon, |b|);
    ParseAtDigit(data, pos);
  }

  lemma ParseEncodeString(b: seq<Byte>, data: seq<Byte>, pos: nat, next: nat)
    requires |b| <= USIZE_MAX
    requires At(data, pos, EncodeString(b))
    requires next == pos + |EncodeString(b)|
    ensures Decodes(data, pos, BString(b), next)
  {
    var colon := pos + |ToDecimal(|b|)|;
    EncodeStringFields(b, data, pos);
    LengthTextScan(|b|, data, pos);
    LengthTextParse(|b|, data, pos);
    AtSlice(data, colon + 1, b);
    ParseStringLaidOut(data, pos, colon, b, next);
  }

  /** Where the terminating `e` of an encoded integer sits. */
  lemma EncodeIntegerLayout(n: I64, data: seq<Byte>, pos: nat)
    requires At(data, pos, Encode(Integer(n)))
    ensures var end := pos + 1 + |SignedToDecimal(n)|;
      && end < |data| && data[pos] == INT_TAG && data[end] == END
      && data[pos + 1..end] == SignedToDecimal(n)
      && forall j :: pos < j < end ==> data[j] != END
  {
    var t := SignedToDecimal(n);
    var end := pos + 1 + |t|;
    assert Encode(Integer(n)) == [INT_TAG] + t + [END];
    AtConcat(data, pos, [INT_TAG] + t, [END]);
    AtConcat(data, pos, [INT_TAG], t);
    AtIndex(data, pos, [INT_TAG], 0);
    AtIndex(data, end, [END], 0);
    SignedDecimalAvoidsEnd(n);
    AtSlice(data, pos + 1, t);
    assert forall j :: pos < j < end ==> data[j] == t[j - pos - 1];
  }

  lemma ParseIntegerLaidOut(n: I64, data: seq<Byte>, pos: nat, end: nat)
    requires end == pos + 1 + |SignedToDecimal(n)|
    requires end < |data| && data[pos] == INT_TAG && data[end] == END
    requires data[pos + 1..end] == SignedToDecimal(n)
    requires forall j :: pos < j < end ==> data[j] != END
    ensures Decodes(data, pos, Integer(n), end + 1)
  {
    ParseSignedToDecimal(n, I64_MIN, I64_MAX);
    ParseIntegerAt(data, pos, end);
  }

  lemma ParseEncodeInteger(n: I64, data: seq<Byte>, pos: nat, next: nat)
    requires At(data, pos, Encode(Integer(n)))
    requires next == pos + |Encode(Integer(n))|
    ensures Decodes(data, pos, Integer(n), next)
  {
    EncodeIntegerLayout(n, data, pos);
    ParseIntegerLaidOut(n, data, pos, pos + 1 + |SignedToDecimal(n)|);
  }

  lemma SignedDecimalAvoidsEnd(n: int)
    ensures forall j :: 0 <= j < |SignedToDecimal(n)| ==> SignedToDecimal(n)[j] != END
  {
    var t := SignedToDecimal(n);
    ToDecimalSpec(if n < 0 then -n else n);
    if n < 0 {
      assert forall j :: 1 <= j < |t| ==> t[j] == ToDecimal(-n)[j - 1];
    }
  }

  /** Round trip: the decoder reads back exactly what the encoder wrote,
      ending just past it (at `next`), whatever bytes surround it. */
  lemma {:induction false} ParseEncode(v: Value, data: seq<Byte>, pos: nat, next: nat)
    requires WellFormed(v)
    requires At(data, pos, Encode(v))
    requires next == pos + |Encode(v)|
    ensures Decodes(data, pos, v, next)
    decreases v, 2
  {
    match v
    case BString(b) =>
      ParseEncodeString(b, data, pos, next);
    case Integer(n) =>
      ParseEncodeInteger(n, data, pos, next);
    case List(items) =>
      ParseEncodeList(items, data, pos, next);
    case Dict(entries) =>
      ParseEncodeDict(entries, data, pos, next);
  }

  lemma {:induction false} ParseEncodeList(items: seq<Value>, data: seq<Byte>, pos: nat, next: nat)
    requires ItemsWellFormed(items)
    requires At(data, pos, Encode(List(items)))
    requires next == pos + |Encode(List(items))|
    ensures Decodes(data, pos, List(items), next)
    decreases items, 2
  {
    var body := EncodeItems(items);
    assert Encode(List(items)) == [LIST_TAG] + body + [END];
    BracketLayout(LIST_TAG, body, data, pos);
    ParseEncodeItems(items, data, pos + 1, next);
    ParseListLaidOut(data, pos, items, next);
  }

  /** Where the tag and the body of an encoded list or dictionary sit. */
  lemma BracketLayout(tag: Byte, body: seq<Byte>, data: seq<Byte>, pos: nat)
    requires At(data, pos, [tag] + body + [END])
    ensures pos < |data| && data[pos] == tag
    ensures At(data, pos + 1, body + [END])
  {
    assert [tag] + body + [END] == [tag] + (body + [END]);
    AtConcat(data, pos, [tag], body + [END]);
    AtIndex(data, pos, [tag], 0);
  }

  lemma ParseListLaidOut(data: seq<Byte>, pos: nat, items: seq<Value>, next: nat)
    requires pos < |data| && data[pos] == LIST_TAG
    requires ItemsDecode(data, pos + 1, items, next)
    ensures Decodes(data, pos, List(items), next)
  {
    ParseAtList(data, pos);
  }

  lemma {:induction false} ParseEncodeDict(entries: seq<(seq<Byte>, Value)>, data: seq<Byte>,
                                          pos: nat, next: nat)
    requires EntriesWellFormed(entries)
    requires At(data, pos, Encode(Dict(entries)))
    requires next == pos + |Encode(Dict(entries))|
    ensures Decodes(data, pos, Dict(entries), next)
    decreases entries, 2
  {
    var body := EncodeEntries(entries);
    assert Encode(Dict(entries)) == [DICT_TAG] + body + [END];
    BracketLayout(DICT_TAG, body, data, pos);
    ParseEncodeEntries(entries, data, pos + 1, next);
    ParseDictLaidOut(data, pos, entries, next);
  }

  lemma ParseDictLaidOut(data: seq<Byte>, pos: nat, entries: seq<(seq<Byte>, Value)>, next: nat)
    requires pos < |data| && data[pos] == DICT_TAG
    requires EntriesDecode(data, pos + 1, entries, next)
    ensures Decodes(data, pos, Dict(entries), next)
  {
    ParseAtDict(data, pos);
  }

  /** The list loop reads an encoded value sequence and its closing `e`,
      ending at `next`, just past the `e`. */
  lemma {:induction false} ParseEncodeItems(items: seq<Value>, data: seq<Byte>, pos: nat, next: nat)
    requires ItemsWellFormed(items)
    requires At(data, pos, EncodeItems(items) + [END])
    requires next == pos + |EncodeItems(items)| + 1
    ensures ItemsDecode(data, pos, items, next)
    decreases items, 1
  {
    if |items| == 0 {
      ParseEncodeNoItems(items, data, pos, next);
    } else {
      var mid := ItemsTail(items, data, pos, next);
      ParseEncodeItems(items[1..], data, mid, next);
      ParseEncodeFirstItem(items, data, pos, mid, next);
    }
  }

  /** An empty sequence encodes to the bare `e` the loop stops at. */
  lemma ParseEncodeNoItems(items: seq<Value>, data: seq<Byte>, pos: nat, next: nat)
    requires |items| == 0
    requires At(data, pos, EncodeItems(items) + [END])
    requires next == pos + |EncodeItems(items)| + 1
    ensures ItemsDecode(data, pos, items, next)
  {
    assert EncodeItems(items) + [END] == [END];
    AtIndex(data, pos, [END], 0);
    assert items == [];
  }

  /** Where the rest of an encoded value sequence starts. */
  lemma ItemsTail(items: seq<Value>, data: seq<Byte>, pos: nat, next: nat) returns (mid: nat)
    requires 0 < |items|
    requires At(data, pos, EncodeItems(items) + [END])
    requires next == pos + |EncodeItems(items)| + 1
    ensures mid == pos + |Encode(items[0])|
    ensures At(data, mid, EncodeItems(items[1..]) + [END])
    ensures next == mid + |EncodeItems(items[1..])| + 1
  {
    AtSplit(data, pos, Encode(items[0]), EncodeItems(items[1..]), [END]);
    mid := pos + |Encode(items[0])|;
  }

  /** An encoded first value followed by a decodable rest decodes as the whole. */
  lemma {:induction false} ParseEncodeFirstItem(items: seq<Value>, data: seq<Byte>,
                                               pos: nat, mid: nat, next: nat)
    requires 0 < |items| && ItemsWellFormed(items)
    requires At(data, pos, EncodeItems(items) + [END])
    requires mid == pos + |Encode(items[0])|
    requires ItemsDecode(data, mid, items[1..], next)
    ensures ItemsDecode(data, pos, items, next)
    decreases items, 0
  {
    ItemsHead(items, data, pos);
    ParseEncode(items[0], data, pos, mid);
    ParseItemsCons(data, pos, items, mid, next);
  }

  /** Where the first value of an encoded value sequence sits. */
  lemma ItemsHead(items: seq<Value>, data: seq<Byte>, pos: nat)
    requires 0 < |items|
    requires At(data, pos, EncodeItems(items) + [END])
    ensures At(data, pos, Encode(items[0]))
  {
    AtSplit(data, pos, Encode(items[0]), EncodeItems(items[1..]), [END]);
  }

  /** The list loop takes one value and then the rest. */
  lemma ParseItemsCons(data: seq<Byte>, pos: nat, items: seq<Value>, mid: nat, next: nat)
    requires 0 < |items|
    requires Decodes(data, pos, items[0], mid)
    requires ItemsDecode(data, mid, items[1..], next)
    ensures ItemsDecode(data, pos, items, next)
  {
    assert [items[0]] + items[1..] == items;
  }

  /** The dictionary loop reads an encoded pair sequence and its closing
      `e`, ending at `next`, just past the `e`. */
  lemma {:induction false} ParseEncodeEntries(entries: seq<(seq<Byte>, Value)>, data: seq<Byte>,
                                             pos: nat, next: nat)
    requires EntriesWellFormed(entries)
    requires At(data, pos, EncodeEntries(entries) + [END])
    requires next == pos + |EncodeEntries(entries)| + 1
    ensures EntriesDecode(data, pos, entries, next)
    decreases entries, 1
  {
    if |entries| == 0 {
      ParseEncodeNoEntries(entries, data, pos, next);
    } else {
      var after := EntriesTail(entries, data, pos, next);
      ParseEncodeEntries(entries[1..], data, after, next);
      ParseEncodeFirstEntry(entries, data, pos, after, next);
    }
  }

  /** An empty sequence encodes to the bare `e` the loop stops at. */
  lemma ParseEncodeNoEntries(entries: seq<(seq<Byte>, Value)>, data: seq<Byte>, pos: nat, next: nat)
    requires |entries| == 0
    requires At(data, pos, EncodeEntries(entries) + [END])
    requires next == pos + |EncodeEntries(entries)| + 1
    ensures EntriesDecode(data, pos, entries, next)
  {
    assert EncodeEntries(entries) + [END] == [END];
    AtIndex(data, pos, [END], 0);
    assert entries == [];
  }

  /** Where the rest of an encoded pair sequence starts. */
  lemma EntriesTail(entries: seq<(seq<Byte>, Value)>, data: seq<Byte>, pos: nat, next: nat)
    returns (after: nat)
    requires 0 < |entries|
    requires At(data, pos, EncodeEntries(entries) + [END])
    requires next == pos + |EncodeEntries(entries)| + 1
    ensures after == pos + |EncodeEntry(entries[0])|
    ensures At(data, after, EncodeEntries(entries[1..]) + [END])
    ensures next == after + |EncodeEntries(entries[1..])| + 1
  {
    AtSplit(data, pos, EncodeEntry(entries[0]), EncodeEntries(entries[1..]), [END]);
    after := pos + |EncodeEntry(entries[0])|;
  }

  /** An encoded first pair followed by a decodable rest decodes as the whole. */
  lemma {:induction false} ParseEncodeFirstEntry(entries: seq<(seq<Byte>, Value)>, data: seq<Byte>,
                                                pos: nat, after: nat, next: nat)
    requires 0 < |entries| && EntriesWellFormed(entries)
    requires At(data, pos, EncodeEntries(entries) + [END])
    requires after == pos + |EncodeEntry(entries[0])|
    requires EntriesDecode(data, after, entries[1..], next)
    ensures EntriesDecode(data, pos, entries, next)
    decreases entries, 0
  {
    var mid := EntryFields(entries, data, pos, after);
    ParseEncodeEntry(entries[0], data, pos, mid, after);
    ParseEntriesCons(data, pos, entries, mid, after, next);
  }

  /** Where the key and the value of the first encoded pair sit. */
  lemma EntryFields(entries: seq<(seq<Byte>, Value)>, data: seq<Byte>, pos: nat, after: nat)
    returns (mid: nat)
    requires 0 < |entries|
    requires At(data, pos, EncodeEntries(entries) + [END])
    requires after == pos + |EncodeEntry(entries[0])|
    ensures mid == pos + |EncodeString(entries[0].0)| && after == mid + |Encode(entries[0].1)|
    ensures At(data, pos, EncodeString(entries[0].0))
    ensures At(data, mid, Encode(entries[0].1))
  {
    var key := EncodeString(entries[0].0);
    var value := Encode(entries[0].1);
    AtSplit(data, pos, key + value, EncodeEntries(entries[1..]), [END]);
    AtConcat(data, pos, key, value);
    mid := pos + |key|;
  }

  /** One encoded key/value pair: the key decodes to its byte string, the
      value to itself. */
  lemma {:induction false} ParseEncodeEntry(entry: (seq<Byte>, Value), data: seq<Byte>,
                                           pos: nat, mid: nat, after: nat)
    requires EntryWellFormed(entry)
    requires mid == pos + |EncodeString(entry.0)| && after == mid + |Encode(entry.1)|
    requires At(data, pos, EncodeString(entry.0))
    requires At(data, mid, Encode(entry.1))
    ensures Decodes(data, pos, BString(entry.0), mid)
    ensures Decodes(data, mid, entry.1, after)
    decreases entry, 0
  {
    ParseEncodeString(entry.0, data, pos, mid);
    ParseEncode(entry.1, data, mid, after);
  }

  /** The dictionary loop takes one key, its value, and then the rest. */
  lemma ParseEntriesCons(data: seq<Byte>, pos: nat, entries: seq<(seq<Byte>, Value)>,
                         mid: nat, after: nat, next: nat)
    requires 0 < |entries|
    requires Decodes(data, pos, BString(entries[0].0), mid)
    requires Decodes(data, mid, entries[0].1, after)
    requires EntriesDecode(data, after, entries[1..], next)
    ensures EntriesDecode(data, pos, entries, next)
  {
    assert [(entries[0].0, entries[0].1)] + entries[1..] == entries;
  }

  /** The whole-buffer form: decoding an encoding consumes all of it. */
  lemma DecodeEncode(v: Value)
    requires WellFormed(v)
    ensures Parse(Encode(v), 0) == Ok(Step(v, |Encode(v)|))
  {
    AtSlice(Encode(v), 0, Encode(v));
    ParseEncode(v, Encode(v), 0, |Encode(v)|);
  }
}
