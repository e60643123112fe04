/** The info hash: the SHA-1 of the exact bytes of the `info` value inside
    the torrent file. `Torrent::from_bencode` computes this hash but stores
    it in a variable that shadows the one it returns, so the returned hash
    is always zero. `DecodeTorrent` is the corrected reading: it locates the
    `info` value's byte span with `find_info_end` from the value's start and
    hashes those bytes. SHA-1 itself is the parameter `digest`. */
module InfoHash {
  import opened Results
  import opened Bytes
  import opened Bencode
  import opened BencodeProperties
  import opened FieldLoops
  import opened Metainfo

  /** The cursor after `n` key/value pairs, starting at `pos`. */
  function SkipEntries(data: seq<Byte>, pos: nat, n: nat): (r: Result<nat, ParseError>)
    decreases n
  {
    if n == 0 then Ok(pos)
    else
      var key :- Parse(data, pos);
      var value :- Parse(data, key.next);
      SkipEntries(data, value.next, n - 1)
  }

  /** The byte span `[start, end)` of the value of pair `i` of the
      dictionary at the start of the data: past `i` pairs and the key, then
      `find_info_end`. */
  function ValueSpan(data: seq<Byte>, i: nat): (r: Result<(nat, nat), ParseError>)
    ensures r.Ok? ==> r.value.0 < r.value.1 <= |data|
  {
    var keyPos :- SkipEntries(data, 1, i);
    var key :- Parse(data, keyPos);
    var end :- FindInfoEnd(data, key.next);
    Ok((key.next, end))
  }

  /** Walking `i` pairs of a decoded run lands on the rest of the run. */
  lemma {:induction false} SkipEntriesPrefix(data: seq<Byte>, pos: nat, entries: Entries, at: nat, i: nat)
    requires EntriesPrefix(data, pos, entries, at)
    requires i <= |entries|
    ensures SkipEntries(data, pos, i).Ok?
    ensures EntriesPrefix(data, SkipEntries(data, pos, i).value, entries[i..], at)
    decreases i
  {
    if 0 < i {
      var after := Parse(data, Parse(data, pos).value.next).value.next;
      SkipEntriesPrefix(data, after, entries[1..], at, i - 1);
      assert entries[1..][i - 1..] == entries[i..];
    }
  }

  /** A decoded dictionary starts with its `d`, and its pairs run from the next byte. */
  lemma DictLayout(data: seq<Byte>, entries: Entries, next: nat)
    requires Parse(data, 0) == Ok(Step(Dict(entries), next))
    ensures 0 < |data| && data[0] == DICT_TAG
    ensures EntriesDecode(data, 1, entries, next)
  {
  }

  /** In a dictionary decoded from the start of the data, the span of pair
      `i`'s value holds exactly that value. */
  lemma ValueSpanDecodes(data: seq<Byte>, entries: Entries, next: nat, i: nat)
    requires Parse(data, 0) == Ok(Step(Dict(entries), next))
    requires i < |entries|
    ensures ValueSpan(data, i).Ok?
    ensures Decodes(data, ValueSpan(data, i).value.0, entries[i].1, ValueSpan(data, i).value.1)
  {
    DictLayout(data, entries, next);
    EntriesDecodePrefix(data, 1, entries, next);
    SkipEntriesPrefix(data, 1, entries, next - 1, i);
  }

  /** Why reading a torrent file can fail: the bytes are not bencode, or
      the decoded tree is not torrent metadata. */
  datatype TorrentError = Malformed(parse: ParseError) | Invalid(meta: MetaError)

  /** The entries of a dictionary; none for any other value. */
  function EntriesOf(v: Value): (r: Entries)
    ensures v.Dict? ==> r == v.entries
  {
    if v.Dict? then v.entries else []
  }

  /** A torrent file read as its author meant it: decode the bytes, project
      the tree, and set the info hash to the digest of the bytes of the
      `info` value the projection used (the last one). */
  function DecodeTorrent(data: seq<Byte>, digest: seq<Byte> -> seq<Byte>): (r: Result<Torrent, TorrentError>)
    ensures Parse(data, 0).Err? ==> r == Err(Malformed(Parse(data, 0).error))
    ensures r.Ok? ==>
      && Parse(data, 0).Ok?
      && TorrentFromBencode(Parse(data, 0).value.val) == Ok(r.value.(infoHash := ZERO_HASH))
  {
    match Parse(data, 0)
    case Err(e) => Err(Malformed(e))
    case Ok(root) =>
      match TorrentFromBencode(root.val)
      case Err(e) => Err(Invalid(e))
      case Ok(t) =>
        match LastIndex(EntriesOf(root.val), INFO)
        case None => Err(Invalid(MissingInfo))
        case Some(i) =>
          match ValueSpan(data, i)
          case Err(e) => Err(Malformed(e))
          case Ok(span) => Ok(t.(infoHash := digest(data[span.0..span.1])))
  }

  /** A torrent projected from decoded bytes always has an `info` pair. */
  lemma TorrentHasInfo(root: Value)
    requires TorrentFromBencode(root).Ok?
    ensures root.Dict? && LastIndex(root.entries, INFO).Some?
  {
    TorrentFromBencodeSpec(root);
    if exists i :: 0 <= i < |root.entries| && RootCheck(root.entries[i].0, root.entries[i].1).Some? {
    } else {
      assert TorrentFromBencode(root) == RootReference(root.entries);
    }
  }

  /** The corrected reading agrees with `Torrent::from_bencode` on every
      field but the hash, fails exactly where decoding or the projection
      fails, and its hash is the digest of exactly the bytes that decode to
      the `info` value it reports. It hashes the last `info` pair, where
      `find_info_position` would stop at the first, so the two readings
      differ only for a root with duplicate `info` keys. */
  lemma DecodeTorrentSpec(data: seq<Byte>, digest: seq<Byte> -> seq<Byte>)
    ensures Parse(data, 0).Err? ==> DecodeTorrent(data, digest) == Err(Malformed(Parse(data, 0).error))
    ensures Parse(data, 0).Ok? && TorrentFromBencode(Parse(data, 0).value.val).Err? ==>
      DecodeTorrent(data, digest) == Err(Invalid(TorrentFromBencode(Parse(data, 0).value.val).error))
    ensures Parse(data, 0).Ok? && TorrentFromBencode(Parse(data, 0).value.val).Ok? ==>
      && DecodeTorrent(data, digest).Ok?
      && var t := DecodeTorrent(data, digest).value;
         var root := Parse(data, 0).value.val;
         var span := ValueSpan(data, LastIndex(root.entries, INFO).value).value;
         && t == TorrentFromBencode(root).value.(infoHash := t.infoHash)
         && Decodes(data, span.0, root.entries[LastIndex(root.entries, INFO).value].1, span.1)
         && t.infoHash == digest(data[span.0..span.1])
  {
    if Parse(data, 0).Ok? && TorrentFromBencode(Parse(data, 0).value.val).Ok? {
      var root := Parse(data, 0).value;
      TorrentHasInfo(root.val);
      ValueSpanDecodes(data, root.val.entries, root.next, LastIndex(root.val.entries, INFO).value);
    }
  }

  /** The hash `Torrent::from_bencode` returns differs from the corrected
      one whenever the digest of the info bytes is not all zeros. */
  lemma InfoHashAsWritten(data: seq<Byte>, digest: seq<Byte> -> seq<Byte>)
    requires DecodeTorrent(data, digest).Ok?
    requires DecodeTorrent(data, digest).value.infoHash != ZERO_HASH
    ensures Parse(data, 0).Ok? && TorrentFromBencode(Parse(data, 0).value.val).Ok?
    ensures TorrentFromBencode(Parse(data, 0).value.val).value.infoHash
      != DecodeTorrent(data, digest).value.infoHash
  {
  }
}
