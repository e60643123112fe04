/** What the list and dictionary loops of the decoder promise, stated
    against an element-by-element reading: the values come out in input
    order, every nested error surfaces unchanged, and a key that is not a
    byte string stops the dictionary. */
module BencodeProperties {
  import opened Results
  import opened Bytes
  import opened NumericText
  import opened Bencode
  import opened BencodeEncoding

  /** From `pos`, the values `items` decode one after another, none starting
      at an `e`, and the next one would start at `at`. */
  predicate ItemsPrefix(data: seq<Byte>, pos: nat, items: seq<Value>, at: nat)
    decreases |items|
  {
    if |items| == 0 then at == pos
    else
      && pos < |data| && data[pos] != END
      && Parse(data, pos).Ok? && Parse(data, pos).value.val == items[0]
      && ItemsPrefix(data, Parse(data, pos).value.next, items[1..], at)
  }

  /** From `pos`, the pairs `entries` decode one after another (a byte-string
      key, then its value), none starting at an `e`, and the next key would
      start at `at`. */
  predicate EntriesPrefix(data: seq<Byte>, pos: nat, entries: seq<(seq<Byte>, Value)>, at: nat)
    decreases |entries|
  {
    if |entries| == 0 then at == pos
    else
      && pos < |data| && data[pos] != END
      && Parse(data, pos).Ok? && Parse(data, pos).value.val == BString(entries[0].0)
      && Parse(data, Parse(data, pos).value.next).Ok?
      && Parse(data, Parse(data, pos).value.next).value.val == entries[0].1
      && EntriesPrefix(data, Parse(data, Parse(data, pos).value.next).value.next, entries[1..], at)
  }

  /** The list loop succeeds exactly on a run of values closed by an `e`:
      it yields those values in input order and stops just past the `e`. */
  lemma {:induction false} ItemsDecodeIff(data: seq<Byte>, pos: nat, items: seq<Value>, next: nat)
    ensures ItemsDecode(data, pos, items, next) <==>
      0 < next <= |data| && data[next - 1] == END && ItemsPrefix(data, pos, items, next - 1)
    decreases |items|
  {
    if ItemsDecode(data, pos, items, next) {
      ItemsDecodePrefix(data, pos, items, next);
    }
    if 0 < next <= |data| && data[next - 1] == END && ItemsPrefix(data, pos, items, next - 1) {
      ItemsPrefixDecode(data, pos, items, next - 1);
    }
  }

  lemma {:induction false} ItemsDecodePrefix(data: seq<Byte>, pos: nat, items: seq<Value>, next: nat)
    requires ItemsDecode(data, pos, items, next)
    ensures 0 < next <= |data| && data[next - 1] == END && ItemsPrefix(data, pos, items, next - 1)
    decreases |items|
  {
    if |items| == 0 {
      ItemsEmptyDecode(data, pos, next);
    } else {
      var mid := ItemsFirst(data, pos, items, next);
      ItemsDecodePrefix(data, mid, items[1..], next);
    }
  }

  /** An empty run decodes only from a bare `e`. */
  lemma ItemsEmptyDecode(data: seq<Byte>, pos: nat, next: nat)
    requires ItemsDecode(data, pos, [], next)
    ensures next == pos + 1 && pos < |data| && data[pos] == END
  {
  }

  /** A non-empty decoded run starts with one decoded value that is not an `e`. */
  lemma ItemsFirst(data: seq<Byte>, pos: nat, items: seq<Value>, next: nat) returns (mid: nat)
    requires 0 < |items|
    requires ItemsDecode(data, pos, items, next)
    ensures pos < |data| && data[pos] != END
    ensures Decodes(data, pos, items[0], mid)
    ensures ItemsDecode(data, mid, items[1..], next)
  {
    mid := Parse(data, pos).value.next;
  }

  lemma {:induction false} ItemsPrefixDecode(data: seq<Byte>, pos: nat, items: seq<Value>, at: nat)
    requires ItemsPrefix(data, pos, items, at)
    requires at < |data| && data[at] == END
    ensures ItemsDecode(data, pos, items, at + 1)
    decreases |items|
  {
    if |items| == 0 {
    } else {
      var mid := Parse(data, pos).value.next;
      ItemsPrefixDecode(data, mid, items[1..], at);
      ParseItemsCons(data, pos, items, mid, at + 1);
    }
  }

  /** A list whose first values decode and whose next value fails fails
      with that value's error: nested errors propagate unchanged. */
  lemma {:induction false} ItemsPrefixError(data: seq<Byte>, pos: nat, items: seq<Value>, at: nat,
                                            e: ParseError)
    requires ItemsPrefix(data, pos, items, at)
    requires at < |data| && data[at] != END && Parse(data, at) == Err(e)
    ensures ParseItems(data, pos) == Err(e)
    decreases |items|
  {
    if 0 < |items| {
      ItemsPrefixError(data, Parse(data, pos).value.next, items[1..], at, e);
    }
  }

  /** A list whose values run to the end of the data with no closing `e` is
      an end-of-data error. */
  lemma {:induction false} ItemsPrefixEof(data: seq<Byte>, pos: nat, items: seq<Value>)
    requires ItemsPrefix(data, pos, items, |data|)
    ensures ParseItems(data, pos) == Err(UnexpectedEof)
    decreases |items|
  {
    if 0 < |items| {
      ItemsPrefixEof(data, Parse(data, pos).value.next, items[1..]);
    }
  }

  /** The dictionary loop succeeds exactly on a run of key/value pairs closed
      by an `e`: it yields the pairs in input order, duplicate keys included,
      and stops just past the `e`. */
  lemma {:induction false} EntriesDecodeIff(data: seq<Byte>, pos: nat,
                                            entries: seq<(seq<Byte>, Value)>, next: nat)
    ensures EntriesDecode(data, pos, entries, next) <==>
      0 < next <= |data| && data[next - 1] == END && EntriesPrefix(data, pos, entries, next - 1)
    decreases |entries|
  {
    if EntriesDecode(data, pos, entries, next) {
      EntriesDecodePrefix(data, pos, entries, next);
    }
    if 0 < next <= |data| && data[next - 1] == END && EntriesPrefix(data, pos, entries, next - 1) {
      EntriesPrefixDecode(data, pos, entries, next - 1);
    }
  }

  lemma {:induction false} EntriesDecodePrefix(data: seq<Byte>, pos: nat,
                                               entries: seq<(seq<Byte>, Value)>, next: nat)
    requires EntriesDecode(data, pos, entries, next)
    ensures 0 < next <= |data| && data[next - 1] == END && EntriesPrefix(data, pos, entries, next - 1)
    decreases |entries|
  {
    if |entries| == 0 {
      EntriesEmptyDecode(data, pos, next);
    } else {
      var after := EntriesFirst(data, pos, entries, next);
      EntriesDecodePrefix(data, after, entries[1..], next);
    }
  }

  /** An empty run decodes only from a bare `e`. */
  lemma EntriesEmptyDecode(data: seq<Byte>, pos: nat, next: nat)
    requires EntriesDecode(data, pos, [], next)
    ensures next == pos + 1 && pos < |data| && data[pos] == END
  {
  }

  /** A non-empty decoded run starts with a decoded byte-string key and its
      decoded value. */
  lemma EntriesFirst(data: seq<Byte>, pos: nat, entries: seq<(seq<Byte>, Value)>, next: nat)
    returns (after: nat)
    requires 0 < |entries|
    requires EntriesDecode(data, pos, entries, next)
    ensures pos < |data| && data[pos] != END
    ensures Parse(data, pos).Ok? && Parse(data, pos).value.val == BString(entries[0].0)
    ensures Decodes(data, Parse(data, pos).value.next, entries[0].1, after)
    ensures EntriesDecode(data, after, entries[1..], next)
  {
    after := Parse(data, Parse(data, pos).value.next).value.next;
  }

  lemma {:induction false} EntriesPrefixDecode(data: seq<Byte>, pos: nat,
                                               entries: seq<(seq<Byte>, Value)>, at: nat)
    requires EntriesPrefix(data, pos, entries, at)
    requires at < |data| && data[at] == END
    ensures EntriesDecode(data, pos, entries, at + 1)
    decreases |entries|
  {
    if |entries| == 0 {
    } else {
      var mid := Parse(data, pos).value.next;
      var after := Parse(data, mid).value.next;
      EntriesPrefixDecode(data, after, entries[1..], at);
      ParseEntriesCons(data, pos, entries, mid, after, at + 1);
    }
  }

  /** A dictionary whose first pairs decode and whose next key fails, or
      whose next value fails, fails with that error. */
  lemma {:induction false} EntriesPrefixError(data: seq<Byte>, pos: nat,
                                              entries: seq<(seq<Byte>, Value)>, at: nat, e: ParseError)
    requires EntriesPrefix(data, pos, entries, at)
    requires at < |data| && data[at] != END
    requires Parse(data, at) == Err(e)
      || (Parse(data, at).Ok? && Parse(data, at).value.val.BString?
          && Parse(data, Parse(data, at).value.next) == Err(e))
    ensures ParseEntries(data, pos) == Err(e)
    decreases |entries|
  {
    if 0 < |entries| {
      var after := Parse(data, Parse(data, pos).value.next).value.next;
      EntriesPrefixError(data, after, entries[1..], at, e);
    }
  }

  /** A dictionary whose first pairs decode and whose next key decodes to
      anything but a byte string is rejected. */
  lemma {:induction false} EntriesPrefixNonStringKey(data: seq<Byte>, pos: nat,
                                                     entries: seq<(seq<Byte>, Value)>, at: nat)
    requires EntriesPrefix(data, pos, entries, at)
    requires at < |data| && data[at] != END
    requires Parse(data, at).Ok? && !Parse(data, at).value.val.BString?
    ensures ParseEntries(data, pos) == Err(NonStringKey)
    decreases |entries|
  {
    if 0 < |entries| {
      var after := Parse(data, Parse(data, pos).value.next).value.next;
      EntriesPrefixNonStringKey(data, after, entries[1..], at);
    }
  }

  /** `find_info_end` on an encoded value is the end of that encoding. */
  lemma FindInfoEndEncoded(v: Value, data: seq<Byte>, pos: nat)
    requires WellFormed(v)
    requires At(data, pos, Encode(v))
    ensures FindInfoEnd(data, pos) == Ok(pos + |Encode(v)|)
  {
    ParseEncode(v, data, pos, pos + |Encode(v)|);
  }

  /** `d1:ai1e1:ai2ee`: both pairs for key `a` are kept, in input order. */
  lemma DuplicateKeysKept()
    ensures Parse([DICT_TAG, ZERO + 1, COLON, 97, INT_TAG, ZERO + 1, END,
                   ZERO + 1, COLON, 97, INT_TAG, ZERO + 2, END, END], 0)
      == Ok(Step(Dict([([97], Integer(1)), ([97], Integer(2))]), 14))
  {
    var v := Dict([([97], Integer(1)), ([97], Integer(2))]);
    DuplicateKeysEncoding(v);
    DecodeEncode(v);
  }

  lemma DuplicateKeysEncoding(v: Value)
    requires v == Dict([([97], Integer(1)), ([97], Integer(2))])
    ensures WellFormed(v)
    ensures Encode(v) == [DICT_TAG, ZERO + 1, COLON, 97, INT_TAG, ZERO + 1, END,
                          ZERO + 1, COLON, 97, INT_TAG, ZERO + 2, END, END]
  {
    SmallEncodings();
    assert EncodeEntries(v.entries[1..]) == [ZERO + 1, COLON, 97] + [INT_TAG, ZERO + 2, END];
  }

  lemma SmallEncodings()
    ensures EncodeString([97]) == [ZERO + 1, COLON, 97]
    ensures Encode(Integer(1)) == [INT_TAG, ZERO + 1, END]
    ensures Encode(Integer(2)) == [INT_TAG, ZERO + 2, END]
  {
  }

  /** `di1ei2ee`: an integer key is rejected. */
  lemma IntegerKeyRejected()
    ensures Parse([DICT_TAG, INT_TAG, ZERO + 1, END, INT_TAG, ZERO + 2, END, END], 0)
      == Err(NonStringKey)
  {
    var data := [DICT_TAG, INT_TAG, ZERO + 1, END, INT_TAG, ZERO + 2, END, END];
    var key := Integer(1);
    assert Encode(key) == data[1..4];
    AtSlice(data, 1, Encode(key));
    ParseEncode(key, data, 1, 4);
    EntriesPrefixNonStringKey(data, 1, [], 1);
    ParseAtDict(data, 0);
  }
}
