/** The projection of a decoded bencode tree onto torrent metadata
    (`Torrent`, `TorrentInfo`, `TorrentFile` in backup/src/backend/parser.rs):
    required keys, typed fields, the 20-byte piece hashes, the multi-file
    list. Text fields are Rust `String`s, kept here as their UTF-8 bytes. */
module Metainfo {
  import opened Results
  import opened Bytes
  import opened NumericText
  import opened Utf8
  import opened Bencode
  import opened FieldLoops

  // The keys the projection recognises, as bytes.
  const ANNOUNCE: seq<Byte> := [97, 110, 110, 111, 117, 110, 99, 101]             // "announce"
  const INFO: seq<Byte> := [105, 110, 102, 111]                                   // "info"
  const COMMENT: seq<Byte> := [99, 111, 109, 109, 101, 110, 116]                  // "comment"
  const NAME: seq<Byte> := [110, 97, 109, 101]                                    // "name"
  const PIECE_LENGTH: seq<Byte> := [112, 105, 101, 99, 101, 32, 108, 101, 110, 103, 116, 104]  // "piece length"
  const PIECES: seq<Byte> := [112, 105, 101, 99, 101, 115]                        // "pieces"
  const LENGTH: seq<Byte> := [108, 101, 110, 103, 116, 104]                       // "length"
  const FILES: seq<Byte> := [102, 105, 108, 101, 115]                             // "files"
  const PATH: seq<Byte> := [112, 97, 116, 104]                                    // "path"

  /** The size of one SHA-1 piece hash. */
  const HASH_LEN: nat := 20

  /** `[0u8; 20]`. */
  const ZERO_HASH: seq<Byte> := [0, 0, 0, 0, 0, 0, 0, 0, 0, 0, 0, 0, 0, 0, 0, 0, 0, 0, 0, 0]

  /** The projection's error strings, one constructor each. */
  datatype MetaError =
    | RootNotDict             // "Root must be a dictionary"
    | MissingAnnounce         // "Missing announce"
    | MissingInfo             // "Missing info"
    | InvalidUtf8String       // "Invalid UTF-8 string"
    | ExpectedString          // "Expected string"
    | InfoNotDict             // "Info must be a dictionary"
    | MissingName             // "Missing name"
    | MissingPieceLength      // "Missing piece length"
    | MissingPieces           // "Missing pieces"
    | ExpectedInteger         // "Expected integer"
    | PiecesNotMultiple       // "Pieces must be a multiple of 20 bytes"
    | ExpectedPiecesString    // "Expected pieces string"
    | FilesNotList            // "Files must be a list"
    | FileEntryNotDict        // "File entry must be a dictionary"
    | PathNotList             // "Path must be a list"
    | InvalidUtf8InPath       // "Invalid UTF-8 in path"
    | PathComponentNotString  // "Path component must be a string"
    | MissingFileLength       // "Missing length in file entry"
    | MissingFilePath         // "Missing path in file entry"

  datatype TorrentFile = TorrentFile(length: I64, path: seq<seq<Byte>>)

  datatype TorrentInfo = TorrentInfo(
    name: seq<Byte>,
    pieceLength: I64,
    pieces: seq<seq<Byte>>,
    length: Option<I64>,
    files: Option<seq<TorrentFile>>)

  datatype Torrent = Torrent(
    announce: seq<Byte>,
    info: TorrentInfo,
    infoHash: seq<Byte>,
    comment: Option<seq<Byte>>)

  type Entries = seq<(seq<Byte>, Value)>

  /** `Torrent::parse_string`: a byte string holding well-formed UTF-8. */
  function AsText(v: Value): (r: Result<seq<Byte>, MetaError>)
    ensures r.Ok? <==> v.BString? && ValidUtf8(v.bytes)
    ensures r.Ok? ==> r.value == v.bytes
    ensures r.Err? ==> r.error == if v.BString? then InvalidUtf8String else ExpectedString
  {
    match v
    case BString(bytes) => if ValidUtf8(bytes) then Ok(bytes) else Err(InvalidUtf8String)
    case _ => Err(ExpectedString)
  }

  /** `TorrentInfo::parse_integer`. */
  function AsInteger(v: Value): (r: Result<I64, MetaError>)
    ensures r.Ok? <==> v.Integer?
    ensures r.Ok? ==> r.value == v.n
    ensures r.Err? ==> r.error == ExpectedInteger
  {
    match v
    case Integer(n) => Ok(n)
    case _ => Err(ExpectedInteger)
  }

  /** `chunks_exact(HASH_LEN)`: whole chunks only, a shorter tail is dropped. */
  function Chunks(bytes: seq<Byte>): (r: seq<seq<Byte>>)
    decreases |bytes|
  {
    if |bytes| < HASH_LEN then [] else [bytes[..HASH_LEN]] + Chunks(bytes[HASH_LEN..])
  }

  /** Chunk `k` is `bytes[20k..20k+20]`; there are `|bytes| / 20` of them. */
  lemma ChunksSpec(bytes: seq<Byte>)
    ensures |Chunks(bytes)| == |bytes| / HASH_LEN
    ensures forall k :: 0 <= k < |Chunks(bytes)| ==>
      Chunks(bytes)[k] == bytes[HASH_LEN * k..HASH_LEN * k + HASH_LEN]
  {
    ChunksLength(bytes);
    forall k | 0 <= k < |Chunks(bytes)|
      ensures Chunks(bytes)[k] == bytes[HASH_LEN * k..HASH_LEN * k + HASH_LEN]
    {
      ChunkAt(bytes, k);
    }
  }

  /** There is one chunk per whole 20 bytes. */
  lemma {:induction false} ChunksLength(bytes: seq<Byte>)
    ensures HASH_LEN * |Chunks(bytes)| <= |bytes| < HASH_LEN * |Chunks(bytes)| + HASH_LEN
    ensures |Chunks(bytes)| == |bytes| / HASH_LEN
    decreases |bytes|
  {
    if |bytes| >= HASH_LEN {
      ChunksLength(bytes[HASH_LEN..]);
    }
  }

  /** Chunk `k` is the `k`-th run of 20 bytes. */
  lemma {:induction false} ChunkAt(bytes: seq<Byte>, k: nat)
    requires k < |Chunks(bytes)|
    ensures HASH_LEN * k + HASH_LEN <= |bytes|
    ensures Chunks(bytes)[k] == bytes[HASH_LEN * k..HASH_LEN * k + HASH_LEN]
    decreases k
  {
    var rest := bytes[HASH_LEN..];
    if 0 < k {
      ChunkAt(rest, k - 1);
      assert rest[HASH_LEN * (k - 1)..HASH_LEN * (k - 1) + HASH_LEN]
        == bytes[HASH_LEN * k..HASH_LEN * k + HASH_LEN];
    }
  }

  /** Laying the chunks of a whole number of chunks end to end gives the bytes back. */
  lemma {:induction false} ConcatChunks(bytes: seq<Byte>)
    requires |bytes| % HASH_LEN == 0
    ensures Concat(Chunks(bytes)) == bytes
    decreases |bytes|
  {
    if |bytes| >= HASH_LEN {
      ConcatChunks(bytes[HASH_LEN..]);
      assert bytes == bytes[..HASH_LEN] + bytes[HASH_LEN..];
    }
  }

  /** Cutting a run of 20-byte hashes laid end to end gives the hashes back. */
  lemma {:induction false} ChunksConcat(hashes: seq<seq<Byte>>)
    requires forall k :: 0 <= k < |hashes| ==> |hashes[k]| == HASH_LEN
    ensures |Concat(hashes)| == HASH_LEN * |hashes|
    ensures Chunks(Concat(hashes)) == hashes
    decreases |hashes|
  {
    if |hashes| > 0 {
      ChunksConcat(hashes[1..]);
      var c := Concat(hashes);
      assert c[..HASH_LEN] == hashes[0];
      assert c[HASH_LEN..] == Concat(hashes[1..]);
      assert hashes == [hashes[0]] + hashes[1..];
    }
  }

  /** `TorrentInfo::parse_pieces`. */
  function ParsePieces(v: Value): (r: Result<seq<seq<Byte>>, MetaError>)
    ensures r.Err? <==> !v.BString? || |v.bytes| % HASH_LEN != 0
    ensures r.Err? ==> r.error == if v.BString? then PiecesNotMultiple else ExpectedPiecesString
  {
    match v
    case BString(bytes) =>
      if |bytes| % HASH_LEN != 0 then Err(PiecesNotMultiple) else Ok(Chunks(bytes))
    case _ => Err(ExpectedPiecesString)
  }

  /** The hashes split from a piece string: `len/20` of them, hash `k` being
      bytes `[20k, 20k+20)`, and together exactly the string. */
  lemma ParsePiecesSpec(v: Value)
    requires ParsePieces(v).Ok?
    ensures |ParsePieces(v).value| == |v.bytes| / HASH_LEN
    ensures forall k :: 0 <= k < |ParsePieces(v).value| ==>
      ParsePieces(v).value[k] == v.bytes[HASH_LEN * k..HASH_LEN * k + HASH_LEN]
    ensures Concat(ParsePieces(v).value) == v.bytes
  {
    ChunksSpec(v.bytes);
    ConcatChunks(v.bytes);
  }

  /** Any list of 20-byte hashes, laid end to end, parses back to itself. */
  lemma ParsePiecesConcat(hashes: seq<seq<Byte>>)
    requires forall k :: 0 <= k < |hashes| ==> |hashes[k]| == HASH_LEN
    ensures ParsePieces(BString(Concat(hashes))) == Ok(hashes)
  {
    ChunksConcat(hashes);
  }

  /** One component of a file's `path` list. */
  function PathComponent(v: Value): (r: Result<seq<Byte>, MetaError>)
    ensures r.Ok? <==> v.BString? && ValidUtf8(v.bytes)
    ensures r.Ok? ==> r.value == v.bytes
    ensures r.Err? ==> r.error == if v.BString? then InvalidUtf8InPath else PathComponentNotString
  {
    match v
    case BString(bytes) => if ValidUtf8(bytes) then Ok(bytes) else Err(InvalidUtf8InPath)
    case _ => Err(PathComponentNotString)
  }

  /** The `path` value of a file entry: a list of UTF-8 strings. */
  function ParsePath(v: Value): (r: Result<seq<seq<Byte>>, MetaError>)
    ensures !v.List? ==> r == Err(PathNotList)
  {
    match v
    case List(components) => MapAll(components, PathComponent)
    case _ => Err(PathNotList)
  }

  /** A path parses exactly when it is a list of well-formed UTF-8 strings,
      into those strings in order; otherwise the first offending component
      decides the error. */
  lemma ParsePathSpec(v: Value)
    requires v.List?
    ensures ParsePath(v).Ok? <==>
      forall i :: 0 <= i < |v.items| ==> v.items[i].BString? && ValidUtf8(v.items[i].bytes)
    ensures ParsePath(v).Ok? ==>
      && |ParsePath(v).value| == |v.items|
      && forall i :: 0 <= i < |v.items| ==> ParsePath(v).value[i] == v.items[i].bytes
    ensures ParsePath(v).Err? ==> exists i ::
      && 0 <= i < |v.items|
      && PathComponent(v.items[i]) == Err(ParsePath(v).error)
      && forall j :: 0 <= j < i ==> PathComponent(v.items[j]).Ok?
  {
    MapAllSpec(v.items, PathComponent);
  }

  /** What the file-entry loop has collected so far. */
  datatype FileFields = FileFields(length: Option<I64>, path: Option<seq<seq<Byte>>>)

  /** One pass of the file-entry loop (parser.rs `parse_files`, inner `for`). */
  function FileStep(acc: FileFields, key: seq<Byte>, value: Value): (r: Result<FileFields, MetaError>)
  {
    if key == LENGTH then
      var n :- AsInteger(value);
      Ok(acc.(length := Some(n)))
    else if key == PATH then
      var p :- ParsePath(value);
      Ok(acc.(path := Some(p)))
    else Ok(acc)
  }

  /** The pairs of a file entry the loop rejects, with the error it reports. */
  function FileCheck(key: seq<Byte>, value: Value): Option<MetaError> {
    if key == LENGTH && AsInteger(value).Err? then Some(AsInteger(value).error)
    else if key == PATH && ParsePath(value).Err? then Some(ParsePath(value).error)
    else None
  }

  /** One element of the `files` list. */
  function ParseFileEntry(v: Value): (r: Result<TorrentFile, MetaError>)
    ensures !v.Dict? ==> r == Err(FileEntryNotDict)
  {
    match v
    case Dict(entries) =>
      var fields :- FoldEntries(entries, FileFields(None, None), FileStep);
      var length :- OkOr(fields.length, MissingFileLength);
      var path :- OkOr(fields.path, MissingFilePath);
      Ok(TorrentFile(length, path))
    case _ => Err(FileEntryNotDict)
  }

  /** A file entry is a dictionary whose last `length` is an integer and
      whose last `path` is a path, which is what the entry holds; every
      earlier `length` or `path` must be well-typed too (the first that is
      not decides the error), and other keys are ignored. */
  lemma ParseFileEntrySpec(v: Value)
    requires v.Dict?
    ensures (exists i :: 0 <= i < |v.entries| && FileCheck(v.entries[i].0, v.entries[i].1).Some?) ==>
      ParseFileEntry(v).Err? && RejectedFirst(v.entries, FileCheck, ParseFileEntry(v).error)
    ensures (forall i :: 0 <= i < |v.entries| ==> FileCheck(v.entries[i].0, v.entries[i].1).None?) ==>
      ParseFileEntry(v) == FileReference(v.entries)
  {
    var acc := FileFields(None, None);
    FoldEntriesFails(v.entries, acc, FileStep, FileCheck);
    if FoldEntries(v.entries, acc, FileStep).Ok? {
      FileLengthField(v.entries);
      FilePathField(v.entries);
    }
  }

  lemma FileLengthField(entries: Entries)
    requires FoldEntries(entries, FileFields(None, None), FileStep).Ok?
    ensures FoldEntries(entries, FileFields(None, None), FileStep).value.length
      == LastConverted(entries, LENGTH, AsInteger)
  {
    KeysDistinct();
    FoldEntriesLastWins(entries, FileFields(None, None), FileStep,
      (f: FileFields) => f.length, LENGTH, (x: Value) => OkValue(AsInteger(x)));
  }

  lemma FilePathField(entries: Entries)
    requires FoldEntries(entries, FileFields(None, None), FileStep).Ok?
    ensures FoldEntries(entries, FileFields(None, None), FileStep).value.path
      == LastConverted(entries, PATH, ParsePath)
  {
    KeysDistinct();
    FoldEntriesLastWins(entries, FileFields(None, None), FileStep,
      (f: FileFields) => f.path, PATH, (x: Value) => OkValue(ParsePath(x)));
  }

  /** A file entry read field by field: each from the last pair with its
      key, `length` checked before `path`. */
  function FileReference(entries: Entries): (r: Result<TorrentFile, MetaError>)
  {
    var length := LastConverted(entries, LENGTH, AsInteger);
    var path := LastConverted(entries, PATH, ParsePath);
    if length.None? then Err(MissingFileLength)
    else if path.None? then Err(MissingFilePath)
    else Ok(TorrentFile(length.value, path.value))
  }

  /** `TorrentInfo::parse_files`. */
  function ParseFiles(v: Value): (r: Result<seq<TorrentFile>, MetaError>)
    ensures !v.List? ==> r == Err(FilesNotList)
  {
    match v
    case List(items) => MapAll(items, ParseFileEntry)
    case _ => Err(FilesNotList)
  }

  /** The file list parses exactly when every entry does, into one file per
      entry in input order; otherwise the first bad entry decides the error. */
  lemma ParseFilesSpec(v: Value)
    requires v.List?
    ensures ParseFiles(v).Ok? <==> forall i :: 0 <= i < |v.items| ==> ParseFileEntry(v.items[i]).Ok?
    ensures ParseFiles(v).Ok? ==>
      && |ParseFiles(v).value| == |v.items|
      && forall i :: 0 <= i < |v.items| ==> ParseFiles(v).value[i] == ParseFileEntry(v.items[i]).value
    ensures ParseFiles(v).Err? ==> exists i ::
      && 0 <= i < |v.items|
      && ParseFileEntry(v.items[i]) == Err(ParseFiles(v).error)
      && forall j :: 0 <= j < i ==> ParseFileEntry(v.items[j]).Ok?
  {
    MapAllSpec(v.items, ParseFileEntry);
  }

  /** What the info-dictionary loop has collected so far. */
  datatype InfoFields = InfoFields(
    name: Option<seq<Byte>>,
    pieceLength: Option<I64>,
    pieces: Option<seq<seq<Byte>>>,
    length: Option<I64>,
    files: Option<seq<TorrentFile>>)

  /** One pass of the loop of `TorrentInfo::from_bencode`. */
  function InfoStep(acc: InfoFields, key: seq<Byte>, value: Value): (r: Result<InfoFields, MetaError>)
  {
    if key == NAME then
      var s :- AsText(value);
      Ok(acc.(name := Some(s)))
    else if key == PIECE_LENGTH then
      var n :- AsInteger(value);
      Ok(acc.(pieceLength := Some(n)))
    else if key == PIECES then
      var p :- ParsePieces(value);
      Ok(acc.(pieces := Some(p)))
    else if key == LENGTH then
      var n :- AsInteger(value);
      Ok(acc.(length := Some(n)))
    else if key == FILES then
      var f :- ParseFiles(value);
      Ok(acc.(files := Some(f)))
    else Ok(acc)
  }

  /** The pairs of an info dictionary the loop rejects, with the error it reports. */
  function InfoCheck(key: seq<Byte>, value: Value): Option<MetaError> {
    if key == NAME && AsText(value).Err? then Some(AsText(value).error)
    else if key == PIECE_LENGTH && AsInteger(value).Err? then Some(AsInteger(value).error)
    else if key == PIECES && ParsePieces(value).Err? then Some(ParsePieces(value).error)
    else if key == LENGTH && AsInteger(value).Err? then Some(AsInteger(value).error)
    else if key == FILES && ParseFiles(value).Err? then Some(ParseFiles(value).error)
    else None
  }

  /** `TorrentInfo::from_bencode`. `length` and `files` are both optional and
      independent: neither, either or both may be present. */
  function InfoFromBencode(v: Value): (r: Result<TorrentInfo, MetaError>)
    ensures !v.Dict? ==> r == Err(InfoNotDict)
  {
    match v
    case Dict(entries) =>
      var fields :- FoldEntries(entries, InfoFields(None, None, None, None, None), InfoStep);
      var name :- OkOr(fields.name, MissingName);
      var pieceLength :- OkOr(fields.pieceLength, MissingPieceLength);
      var pieces :- OkOr(fields.pieces, MissingPieces);
      Ok(TorrentInfo(name, pieceLength, pieces, fields.length, fields.files))
    case _ => Err(InfoNotDict)
  }

  /** The converted value of the last pair with key `key`, if there is one. */
  function LastConverted<T>(entries: Entries, key: seq<Byte>, conv: Value -> Result<T, MetaError>)
    : (r: Option<T>)
  {
    match LastIndex(entries, key)
    case None => None
    case Some(i) => OkValue(conv(entries[i].1))
  }

  /** Rust's `Result::ok`. */
  function OkValue<T>(r: Result<T, MetaError>): (o: Option<T>)
  {
    match r
    case Ok(v) => Some(v)
    case Err(_) => None
  }

  /** The info dictionary read field by field: each field from the last pair
      with its key, the required ones checked in the order `name`,
      `piece length`, `pieces`. */
  function InfoReference(entries: Entries): (r: Result<TorrentInfo, MetaError>)
  {
    var name := LastConverted(entries, NAME, AsText);
    var pieceLength := LastConverted(entries, PIECE_LENGTH, AsInteger);
    var pieces := LastConverted(entries, PIECES, ParsePieces);
    if name.None? then Err(MissingName)
    else if pieceLength.None? then Err(MissingPieceLength)
    else if pieces.None? then Err(MissingPieces)
    else Ok(TorrentInfo(name.value, pieceLength.value, pieces.value,
                        LastConverted(entries, LENGTH, AsInteger),
                        LastConverted(entries, FILES, ParseFiles)))
  }

  /** An info dictionary's fields are those of the last pair with each
      known key; a wrongly typed known key anywhere fails (the first one
      decides the error), a missing `name`, `piece length` or `pieces` fails,
      in that order, and unknown keys are ignored. */
  lemma InfoFromBencodeSpec(v: Value)
    requires v.Dict?
    ensures (exists i :: 0 <= i < |v.entries| && InfoCheck(v.entries[i].0, v.entries[i].1).Some?) ==>
      InfoFromBencode(v).Err? && RejectedFirst(v.entries, InfoCheck, InfoFromBencode(v).error)
    ensures (forall i :: 0 <= i < |v.entries| ==> InfoCheck(v.entries[i].0, v.entries[i].1).None?) ==>
      InfoFromBencode(v) == InfoReference(v.entries)
  {
    var acc := InfoFields(None, None, None, None, None);
    FoldEntriesFails(v.entries, acc, InfoStep, InfoCheck);
    if FoldEntries(v.entries, acc, InfoStep).Ok? {
      InfoFoldFields(v.entries);
    }
  }

  /** After a successful info loop, every field holds the value of the last
      pair with its key. */
  lemma InfoFoldFields(entries: Entries)
    requires FoldEntries(entries, InfoFields(None, None, None, None, None), InfoStep).Ok?
    ensures FoldEntries(entries, InfoFields(None, None, None, None, None), InfoStep).value ==
      InfoFields(LastConverted(entries, NAME, AsText), LastConverted(entries, PIECE_LENGTH, AsInteger),
                 LastConverted(entries, PIECES, ParsePieces), LastConverted(entries, LENGTH, AsInteger),
                 LastConverted(entries, FILES, ParseFiles))
  {
    InfoNameField(entries);
    InfoPieceLengthField(entries);
    InfoPiecesField(entries);
    InfoLengthField(entries);
    InfoFilesField(entries);
  }

  lemma InfoNameField(entries: Entries)
    requires FoldEntries(entries, InfoFields(None, None, None, None, None), InfoStep).Ok?
    ensures FoldEntries(entries, InfoFields(None, None, None, None, None), InfoStep).value.name
      == LastConverted(entries, NAME, AsText)
  {
    KeysDistinct();
    FoldEntriesLastWins(entries, InfoFields(None, None, None, None, None), InfoStep,
      (f: InfoFields) => f.name, NAME, (x: Value) => OkValue(AsText(x)));
  }

  lemma InfoPieceLengthField(entries: Entries)
    requires FoldEntries(entries, InfoFields(None, None, None, None, None), InfoStep).Ok?
    ensures FoldEntries(entries, InfoFields(None, None, None, None, None), InfoStep).value.pieceLength
      == LastConverted(entries, PIECE_LENGTH, AsInteger)
  {
    KeysDistinct();
    FoldEntriesLastWins(entries, InfoFields(None, None, None, None, None), InfoStep,
      (f: InfoFields) => f.pieceLength, PIECE_LENGTH, (x: Value) => OkValue(AsInteger(x)));
  }

  lemma InfoPiecesField(entries: Entries)
    requires FoldEntries(entries, InfoFields(None, None, None, None, None), InfoStep).Ok?
    ensures FoldEntries(entries, InfoFields(None, None, None, None, None), InfoStep).value.pieces
      == LastConverted(entries, PIECES, ParsePieces)
  {
    KeysDistinct();
    FoldEntriesLastWins(entries, InfoFields(None, None, None, None, None), InfoStep,
      (f: InfoFields) => f.pieces, PIECES, (x: Value) => OkValue(ParsePieces(x)));
  }

  lemma InfoLengthField(entries: Entries)
    requires FoldEntries(entries, InfoFields(None, None, None, None, None), InfoStep).Ok?
    ensures FoldEntries(entries, InfoFields(None, None, None, None, None), InfoStep).value.length
      == LastConverted(entries, LENGTH, AsInteger)
  {
    KeysDistinct();
    FoldEntriesLastWins(entries, InfoFields(None, None, None, None, None), InfoStep,
      (f: InfoFields) => f.length, LENGTH, (x: Value) => OkValue(AsInteger(x)));
  }

  lemma InfoFilesField(entries: Entries)
    requires FoldEntries(entries, InfoFields(None, None, None, None, None), InfoStep).Ok?
    ensures FoldEntries(entries, InfoFields(None, None, None, None, None), InfoStep).value.files
      == LastConverted(entries, FILES, ParseFiles)
  {
    KeysDistinct();
    FoldEntriesLastWins(entries, InfoFields(None, None, None, None, None), InfoStep,
      (f: InfoFields) => f.files, FILES, (x: Value) => OkValue(ParseFiles(x)));
  }

  /** The recognised keys are pairwise different, so each pass of a loop
      touches at most one field. */
  lemma KeysDistinct()
    ensures NAME != PIECE_LENGTH && NAME != PIECES && NAME != LENGTH && NAME != FILES
    ensures PIECE_LENGTH != PIECES && PIECE_LENGTH != LENGTH && PIECE_LENGTH != FILES
    ensures PIECES != LENGTH && PIECES != FILES && LENGTH != FILES && LENGTH != PATH
    ensures ANNOUNCE != INFO && ANNOUNCE != COMMENT && INFO != COMMENT
  {
    assert NAME[0] != PIECES[0] && NAME[0] != LENGTH[0] && NAME[0] != FILES[0];
    assert PIECE_LENGTH[0] != LENGTH[0] && PIECE_LENGTH[0] != FILES[0];
    assert PIECES[5] != PIECE_LENGTH[5];
    assert PIECES[0] != LENGTH[0] && PIECES[0] != FILES[0] && LENGTH[0] != FILES[0];
    assert INFO[0] != COMMENT[0];
  }

  /** Nothing stops an info dictionary from carrying both a single-file
      `length` and a multi-file `files` list: both are kept. */
  lemma LengthAndFilesTogether(name: seq<Byte>, pieceLength: I64, length: I64)
    requires ValidUtf8(name)
    ensures InfoFromBencode(Dict([(NAME, BString(name)), (PIECE_LENGTH, Integer(pieceLength)),
                                  (PIECES, BString([])), (LENGTH, Integer(length)),
                                  (FILES, List([]))]))
      == Ok(TorrentInfo(name, pieceLength, [], Some(length), Some([])))
  {
    var entries := [(NAME, BString(name)), (PIECE_LENGTH, Integer(pieceLength)),
                    (PIECES, BString([])), (LENGTH, Integer(length)), (FILES, List([]))];
    var acc0 := InfoFields(None, None, None, None, None);
    var acc1 := acc0.(name := Some(name));
    var acc2 := acc1.(pieceLength := Some(pieceLength));
    var acc3 := acc2.(pieces := Some([]));
    var acc4 := acc3.(length := Some(length));
    var acc5 := acc4.(files := Some([]));
    LengthAndFilesSteps(name, pieceLength, length);
    assert FoldEntries(entries[4..], acc4, InfoStep) == Ok(acc5) by {
      assert FoldEntries(entries[5..], acc5, InfoStep) == Ok(acc5);
    }
    assert FoldEntries(entries[3..], acc3, InfoStep) == Ok(acc5) by {
      assert entries[3..][1..] == entries[4..];
    }
    assert FoldEntries(entries[2..], acc2, InfoStep) == Ok(acc5) by {
      assert entries[2..][1..] == entries[3..];
    }
    assert FoldEntries(entries[1..], acc1, InfoStep) == Ok(acc5) by {
      assert entries[1..][1..] == entries[2..];
    }
    assert FoldEntries(entries, acc0, InfoStep) == Ok(acc5);
  }

  /** Each pass of the info loop over the pairs of `LengthAndFilesTogether`. */
  lemma LengthAndFilesSteps(name: seq<Byte>, pieceLength: I64, length: I64)
    requires ValidUtf8(name)
    ensures var acc0 := InfoFields(None, None, None, None, None);
      var acc1 := acc0.(name := Some(name));
      var acc2 := acc1.(pieceLength := Some(pieceLength));
      var acc3 := acc2.(pieces := Some([]));
      var acc4 := acc3.(length := Some(length));
      && InfoStep(acc0, NAME, BString(name)) == Ok(acc1)
      && InfoStep(acc1, PIECE_LENGTH, Integer(pieceLength)) == Ok(acc2)
      && InfoStep(acc2, PIECES, BString([])) == Ok(acc3)
      && InfoStep(acc3, LENGTH, Integer(length)) == Ok(acc4)
      && InfoStep(acc4, FILES, List([])) == Ok(acc4.(files := Some([])))
  {
    KeysDistinct();
    assert ParsePieces(BString([])) == Ok([]) by { assert Chunks([]) == []; }
    assert ParseFiles(List([])) == Ok([]);
  }

  /** What the root loop has collected so far. */
  datatype RootFields = RootFields(
    announce: Option<seq<Byte>>,
    info: Option<TorrentInfo>,
    comment: Option<seq<Byte>>)

  /** One pass of the loop of `Torrent::from_bencode`. The byte span of the
      info value it locates there only feeds a hash that is then discarded. */
  function RootStep(acc: RootFields, key: seq<Byte>, value: Value): (r: Result<RootFields, MetaError>)
  {
    if key == ANNOUNCE then
      var s :- AsText(value);
      Ok(acc.(announce := Some(s)))
    else if key == INFO then
      var info :- InfoFromBencode(value);
      Ok(acc.(info := Some(info)))
    else if key == COMMENT then
      var s :- AsText(value);
      Ok(acc.(comment := Some(s)))
    else Ok(acc)
  }

  /** The pairs of the root dictionary the loop rejects, with the error it reports. */
  function RootCheck(key: seq<Byte>, value: Value): Option<MetaError> {
    if key == ANNOUNCE && AsText(value).Err? then Some(AsText(value).error)
    else if key == INFO && InfoFromBencode(value).Err? then Some(InfoFromBencode(value).error)
    else if key == COMMENT && AsText(value).Err? then Some(AsText(value).error)
    else None
  }

  /** `Torrent::from_bencode` as written: the `info_hash` it returns is the
      zero-filled array declared before the loop, because the hash computed
      inside the loop goes into a second variable of the same name. */
  function TorrentFromBencode(root: Value): (r: Result<Torrent, MetaError>)
    ensures !root.Dict? ==> r == Err(RootNotDict)
    ensures r.Ok? ==> r.value.infoHash == ZERO_HASH
  {
    match root
    case Dict(entries) =>
      var fields :- FoldEntries(entries, RootFields(None, None, None), RootStep);
      var announce :- OkOr(fields.announce, MissingAnnounce);
      var info :- OkOr(fields.info, MissingInfo);
      Ok(Torrent(announce, info, ZERO_HASH, fields.comment))
    case _ => Err(RootNotDict)
  }

  /** The root dictionary read field by field: each field from the last pair
      with its key, `announce` checked before `info`. */
  function RootReference(entries: Entries): (r: Result<Torrent, MetaError>)
  {
    var announce := LastConverted(entries, ANNOUNCE, AsText);
    var info := LastConverted(entries, INFO, InfoFromBencode);
    if announce.None? then Err(MissingAnnounce)
    else if info.None? then Err(MissingInfo)
    else Ok(Torrent(announce.value, info.value, ZERO_HASH, LastConverted(entries, COMMENT, AsText)))
  }

  /** The root's fields are those of the last pair with each known key; a
      wrongly typed known key anywhere fails (the first one decides the
      error), a missing `announce` or `info` fails, in that order, `comment`
      is optional and unknown keys are ignored. */
  lemma TorrentFromBencodeSpec(root: Value)
    requires root.Dict?
    ensures (exists i :: 0 <= i < |root.entries| && RootCheck(root.entries[i].0, root.entries[i].1).Some?) ==>
      TorrentFromBencode(root).Err? && RejectedFirst(root.entries, RootCheck, TorrentFromBencode(root).error)
    ensures (forall i :: 0 <= i < |root.entries| ==> RootCheck(root.entries[i].0, root.entries[i].1).None?) ==>
      TorrentFromBencode(root) == RootReference(root.entries)
  {
    var acc := RootFields(None, None, None);
    FoldEntriesFails(root.entries, acc, RootStep, RootCheck);
    if FoldEntries(root.entries, acc, RootStep).Ok? {
      RootFoldFields(root.entries);
    }
  }

  /** After a successful root loop, every field holds the value of the last
      pair with its key. */
  lemma RootFoldFields(entries: Entries)
    requires FoldEntries(entries, RootFields(None, None, None), RootStep).Ok?
    ensures FoldEntries(entries, RootFields(None, None, None), RootStep).value ==
      RootFields(LastConverted(entries, ANNOUNCE, AsText), LastConverted(entries, INFO, InfoFromBencode),
                 LastConverted(entries, COMMENT, AsText))
  {
    RootAnnounceField(entries);
    RootInfoField(entries);
    RootCommentField(entries);
  }

  lemma RootAnnounceField(entries: Entries)
    requires FoldEntries(entries, RootFields(None, None, None), RootStep).Ok?
    ensures FoldEntries(entries, RootFields(None, None, None), RootStep).value.announce
      == LastConverted(entries, ANNOUNCE, AsText)
  {
    KeysDistinct();
    FoldEntriesLastWins(entries, RootFields(None, None, None), RootStep,
      (f: RootFields) => f.announce, ANNOUNCE, (x: Value) => OkValue(AsText(x)));
  }

  lemma RootInfoField(entries: Entries)
    requires FoldEntries(entries, RootFields(None, None, None), RootStep).Ok?
    ensures FoldEntries(entries, RootFields(None, None, None), RootStep).value.info
      == LastConverted(entries, INFO, InfoFromBencode)
  {
    KeysDistinct();
    FoldEntriesLastWins(entries, RootFields(None, None, None), RootStep,
      (f: RootFields) => f.info, INFO, (x: Value) => OkValue(InfoFromBencode(x)));
  }

  lemma RootCommentField(entries: Entries)
    requires FoldEntries(entries, RootFields(None, None, None), RootStep).Ok?
    ensures FoldEntries(entries, RootFields(None, None, None), RootStep).value.comment
      == LastConverted(entries, COMMENT, AsText)
  {
    KeysDistinct();
    FoldEntriesLastWins(entries, RootFields(None, None, None), RootStep,
      (f: RootFields) => f.comment, COMMENT, (x: Value) => OkValue(AsText(x)));
  }
}
