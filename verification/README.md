# defttorrent core in Dafny

This project models two parts of the defttorrent BitTorrent client.

The first part is the torrent-file reader in `backup/src/backend/parser.rs`:

- `BencodeParser` is a recursive-descent bencode decoder. It reads byte strings, `i64` integers, lists and dictionaries from a byte buffer with a moving cursor.
- `Torrent::from_bencode`, `TorrentInfo::from_bencode` and their helpers project the decoded tree onto the torrent metadata:
  - the announce URL;
  - the info dictionary, with the name, piece length, 20-byte piece hashes, optional single-file length and optional file list;
  - the info hash;
  - an optional comment.

The second part is the UDP tracker client in `src/requests/tracker.rs`, which follows BEP 15 (the UDP tracker protocol):

- `parse_url` splits an `http://host:port/path` announce URL.
- `connect` sends the 16-byte connect request and checks the reply.
- `announce` sends the 98-byte announce request and checks the reply's header.
- `parse_peers` reads the compact peer list.
- `request` chains these steps together.

The parser's mutable cursor becomes a position threaded through pure functions. Every error string of the source is a constructor of an error datatype. Every `?` becomes an early `Err` return.

The modules follow the source:

| module | file | models |
|---|---|---|
| `Results` | results.dfy | `Result`/`Option`, shared by all modules |
| `Bytes` | bytes.dfy | byte-level helpers: occurrence, first index, concatenation with part offsets |
| `NumericText` | numeric_text.dfy | Rust's `str::parse` for `u16`, `usize` and `i64`, and the decimal rendering it inverts |
| `Utf8` | utf8.dfy | the UTF-8 well-formedness that `String::from_utf8` checks (section 4 of RFC 3629) |
| `BigEndian` | big_endian.dfy | `to_be_bytes` and `from_be_bytes` |
| `Bencode` | bencode.dfy | the decoder |
| `BencodeEncoding` | bencode_encoding.dfy | an encoder, and the proof that decoding inverts it |
| `BencodeProperties` | bencode_properties.dfy | what the list and dictionary loops accept, and how they fail |
| `FieldLoops` | field_loops.dfy | the two loop shapes of the projection, each against a reference reading |
| `Metainfo` | metainfo.dfy | the projection |
| `InfoHash` | info_hash.dfy | the info hash, corrected |
| `StringOverflow` | string_overflow.dfy | `parse_string` with its `usize` overflow, as compiled |
| `Tracker` | tracker.dfy | the UDP tracker client |

Where the code departs from BEP 3 (the BitTorrent protocol) and BEP 15, the model follows the code:

- BEP 3 allows no leading zeros and no `-0` in an integer. The code reads integer texts with Rust's `i64::from_str`, so `i-0e`, `i007e` and `i+5e` are accepted. String lengths take leading zeros too, so `03:abc` is accepted. A length cannot start with `+`, because only a digit starts a string.
- BEP 3 requires dictionary keys to appear in sorted order. The code keeps every pair in input order, unsorted and with duplicate keys. The projection uses the last pair with each key. A wrongly typed value under a recognised key fails the projection even when a later pair with the same key is fine.
- BEP 3 gives an info dictionary either a `length` or a `files` key, not both. The code accepts both and keeps both.
- BEP 3 defines the info hash as the SHA-1 of the encoded `info` value. The code returns twenty zero bytes (see Findings).
- BEP 15 has the client check the transaction id of every reply. The code never compares the announce reply's transaction id.
- BEP 15 has the client retransmit a request, with growing timeouts, when no reply comes. The code gives up at the first timeout, and a connect reply with the wrong transaction id ends the request with no retry.

Where the standards leave a case open, the code settles it, and the model does the same:

- A compact peer list keeps whole 6-byte entries and silently drops a shorter tail. The 2048-byte receive buffer caps a reply at 338 peers.
- A connect reply longer than 16 bytes is cut to its first 16 bytes and accepted.

## Model

| member | source | states |
|---|---|---|
| Bencode.ScanTo | backup/src/backend/parser.rs:47-49 | the scan loop stops on a byte equal to the one sought, or fails with "Unexpected EOF" |
| Bencode.ScanToSpec | backup/src/backend/parser.rs:58-60 | the scan stops at the first occurrence, and fails exactly when the rest of the data has none |
| Bencode.FindInfoEnd | backup/src/backend/parser.rs:122-126 | `find_info_end` succeeds exactly when a value parses at the start position, and then returns the end of that value |
| Bencode.ParseStringAt | backup/src/backend/parser.rs:56-72 | given the first `:` at or after the cursor: a bad length text is "Invalid string length"; a declared length past the data is "String exceeds data length"; otherwise the value is exactly the declared number of bytes after the colon, and the cursor lands just past them |
| Bencode.ParseStringNoColon | backup/src/backend/parser.rs:58-60 | with no `:` ahead, string parsing fails with "Unexpected EOF" |
| Bencode.ParseIntegerAt | backup/src/backend/parser.rs:44-54 | given the first `e` after the `i`: the integer is what `i64` parsing makes of the text between them, or the error is "Invalid integer" |
| Bencode.ParseIntegerNoEnd | backup/src/backend/parser.rs:47-49 | with no `e` after the `i`, integer parsing fails with "Unexpected EOF" |
| Bencode.NumberTextsAreUtf8 | backup/src/backend/parser.rs:50-52 | every text the `i64` or `usize` parse accepts is well-formed UTF-8, so the `from_utf8` check ahead of the parse never decides the result |
| Bencode.Parse | backup/src/backend/parser.rs:22-35 | a value always ends after its first byte and within the data; the end of the data is "Unexpected EOF"; a first byte other than `i`, `l`, `d` or a digit is "Invalid Bencode format" |
| Bencode.ParseInteger | backup/src/backend/parser.rs:44-54 | an integer ends after its `i` and within the data, and decodes to an integer |
| Bencode.ParseString | backup/src/backend/parser.rs:56-72 | a string ends after its first byte and within the data, and decodes to a byte string |
| Bencode.ParseList | backup/src/backend/parser.rs:74-83 | a list ends after its `l` and within the data, and decodes to a list |
| Bencode.ParseItems | backup/src/backend/parser.rs:77-81 | the list loop, when it succeeds, ends past its start and within the data |
| Bencode.ParseDict | backup/src/backend/parser.rs:85-99 | a dictionary ends after its `d` and within the data, and decodes to a dictionary |
| Bencode.ParseEntries | backup/src/backend/parser.rs:88-97 | the dictionary loop, when it succeeds, ends past its start and within the data |
| BencodeEncoding.DecodeEncode | backup/src/backend/parser.rs:22-99 | round trip: every value whose string lengths fit a `usize` decodes from its encoding and consumes all of it |
| BencodeEncoding.ParseEncode | backup/src/backend/parser.rs:22-99 | the round trip holds wherever the encoding sits in a buffer, whatever follows it |
| BencodeProperties.ItemsDecodeIff | backup/src/backend/parser.rs:74-83 | the list loop yields exactly the values that decode one after another, none starting at an `e`, and the `e` that closes them |
| BencodeProperties.ItemsPrefixError | backup/src/backend/parser.rs:77-80 | after values that decode, a value that fails fails the whole list with its error |
| BencodeProperties.ItemsPrefixEof | backup/src/backend/parser.rs:77 | values that run to the end of the data with no closing `e` fail with "Unexpected EOF" |
| BencodeProperties.EntriesDecodeIff | backup/src/backend/parser.rs:85-99 | the dictionary loop yields exactly the pairs that decode one after another, each with a byte-string key, and the `e` that closes them |
| BencodeProperties.EntriesPrefixError | backup/src/backend/parser.rs:88-96 | after pairs that decode, a key or value that fails fails the whole dictionary with its error |
| BencodeProperties.EntriesPrefixNonStringKey | backup/src/backend/parser.rs:89-93 | after pairs that decode, a key that decodes to anything but a byte string is "Dictionary key must be a string" |
| BencodeProperties.IntegerKeyRejected | backup/src/backend/parser.rs:89-93 | `di1ei2ee` is rejected for its integer key |
| BencodeProperties.DuplicateKeysKept | backup/src/backend/parser.rs:95 | `d1:ai1e1:ai2ee` decodes to both pairs, in input order |
| BencodeProperties.FindInfoEndEncoded | backup/src/backend/parser.rs:122-126 | `find_info_end` at an encoded value returns the end of that encoding |
| NumericText.DigitsBetweenSpec | backup/src/backend/parser.rs:52 | the digit loop is defined exactly on runs of decimal digits, where it gives their value |
| NumericText.ParseUnsigned | backup/src/backend/parser.rs:63 | an accepted `usize` or `u16` text never gives a value above the type's maximum |
| NumericText.ParseSigned | backup/src/backend/parser.rs:52 | an accepted signed text gives a value within the type's range |
| NumericText.ParseUnsignedSpec | backup/src/backend/parser.rs:63 | the `usize` (and `u16`) parse accepts exactly an optional `+` followed by one or more decimal digits whose value is at most the type's maximum, and gives that value |
| NumericText.ParseI64Spec | backup/src/backend/parser.rs:52 | the `i64` parse accepts exactly an optional `+` or `-` followed by one or more decimal digits whose signed value lies in the `i64` range, and gives that value |
| NumericText.ParseUnsignedToDecimal | backup/src/backend/parser.rs:63 | the `usize` (and `u16`) parse reads back the decimal rendering of every value in range |
| NumericText.ParseUnsignedTooLarge | src/requests/tracker.rs:23-25 | the decimal text of a value above the type's maximum is rejected |
| NumericText.ParseSignedToDecimal | backup/src/backend/parser.rs:52 | the `i64` parse reads back the rendering of every value in range, either sign |
| NumericText.NonCanonicalIntegerTexts | backup/src/backend/parser.rs:52 | `-0`, `007` and `+5` are accepted; `-` and the empty text are not |
| BigEndian.FromToBeBytes | src/requests/tracker.rs:69-71 | reading back the `n` big-endian bytes of a value below 256^n gives the value |
| BigEndian.ToFromBeBytes | src/requests/tracker.rs:82-91 | a big-endian field is determined by its value: writing the value back gives the same bytes |
| BigEndian.I32ToBeBytes | src/requests/tracker.rs:116 | `i32::to_be_bytes` is four bytes holding the two's-complement value |
| Utf8.AsciiIsUtf8 | backup/src/backend/parser.rs:50 | every ASCII text is well-formed UTF-8 |
| Metainfo.ParsePieces | backup/src/backend/parser.rs:252-261 | the piece field fails exactly on a non-string or a length that is not a multiple of 20, with the matching error |
| Metainfo.ChunksSpec | backup/src/backend/parser.rs:257 | `chunks_exact(20)` gives `len/20` chunks, chunk `k` being bytes `[20k, 20k+20)` |
| Metainfo.ParsePiecesSpec | backup/src/backend/parser.rs:252-261 | the hashes are `len/20` slices at multiples of 20 that, laid end to end, give back the piece string |
| Metainfo.ParsePiecesConcat | backup/src/backend/parser.rs:252-261 | round trip: any list of 20-byte hashes laid end to end parses back to that list |
| Metainfo.ParsePath | backup/src/backend/parser.rs:288-291 | a path that is not a list is "Path must be a list" |
| Metainfo.ParsePathSpec | backup/src/backend/parser.rs:288-303 | a path list parses exactly when every component is UTF-8 text, into those texts in order; otherwise the first bad component gives the error |
| Metainfo.ParseFileEntry | backup/src/backend/parser.rs:271-275 | a file entry that is not a dictionary is "File entry must be a dictionary" |
| Metainfo.ParseFileEntrySpec | backup/src/backend/parser.rs:271-313 | a file entry fails on its first wrongly typed `length` or `path`; otherwise its fields are those of the last pair with each key, and a missing `length` or `path` fails, in that order |
| Metainfo.FileLengthField | backup/src/backend/parser.rs:283-285 | after the file-entry loop, `length` holds the value of the last `length` pair |
| Metainfo.FilePathField | backup/src/backend/parser.rs:286-304 | after the file-entry loop, `path` holds the value of the last `path` pair |
| Metainfo.ParseFiles | backup/src/backend/parser.rs:264-267 | a file list that is not a list is "Files must be a list" |
| Metainfo.ParseFilesSpec | backup/src/backend/parser.rs:263-317 | the file list parses exactly when every entry does, into one file per entry in input order; otherwise the first bad entry gives the error |
| Metainfo.InfoFromBencode | backup/src/backend/parser.rs:213-216 | an info value that is not a dictionary is "Info must be a dictionary" |
| Metainfo.InfoFromBencodeSpec | backup/src/backend/parser.rs:212-242 | the info dictionary fails on its first wrongly typed recognised key; otherwise it equals the field-by-field reading (the last pair per key; `name`, `piece length` and `pieces` required in that order; unknown keys ignored) |
| Metainfo.InfoFoldFields | backup/src/backend/parser.rs:224-233 | after the info loop, each of the five fields holds the value of the last pair with its key |
| Metainfo.InfoNameField | backup/src/backend/parser.rs:226 | last-wins for `name` |
| Metainfo.InfoPieceLengthField | backup/src/backend/parser.rs:227 | last-wins for `piece length` |
| Metainfo.InfoPiecesField | backup/src/backend/parser.rs:228 | last-wins for `pieces` |
| Metainfo.InfoLengthField | backup/src/backend/parser.rs:229 | last-wins for `length` |
| Metainfo.InfoFilesField | backup/src/backend/parser.rs:230 | last-wins for `files` |
| Metainfo.LengthAndFilesTogether | backup/src/backend/parser.rs:235-241 | an info dictionary holding both `length` and `files` is accepted, and both are kept |
| Metainfo.TorrentFromBencode | backup/src/backend/parser.rs:153-200 | a root that is not a dictionary is "Root must be a dictionary"; a successful result carries the all-zero info hash |
| Metainfo.TorrentFromBencodeSpec | backup/src/backend/parser.rs:153-200 | the root fails on its first wrongly typed `announce`, `info` or `comment`; otherwise it equals the field-by-field reading (the last pair per key; `announce` then `info` required; `comment` optional) |
| Metainfo.RootFoldFields | backup/src/backend/parser.rs:164-192 | after the root loop, each field holds the value of the last pair with its key |
| Metainfo.RootAnnounceField | backup/src/backend/parser.rs:166 | last-wins for `announce` |
| Metainfo.RootInfoField | backup/src/backend/parser.rs:187 | last-wins for `info` |
| Metainfo.RootCommentField | backup/src/backend/parser.rs:189 | last-wins for `comment` |
| FieldLoops.LastIndex | backup/src/backend/parser.rs:224-233 | the last pair with a given key: it has that key, no later pair does, and there is none exactly when no pair has the key |
| FieldLoops.FoldEntriesFails | backup/src/backend/parser.rs:224-233 | a field loop fails exactly when some pair is rejected, and then with the error of the first one |
| FieldLoops.FoldEntriesLastWins | backup/src/backend/parser.rs:224-233 | after a field loop, a field holds the converted value of the last pair with its key, or its initial value if there is none |
| FieldLoops.MapAllSpec | backup/src/backend/parser.rs:294-302 | a list loop succeeds exactly when every element converts, giving one result per element in order; otherwise the first failure decides the error |
| InfoHash.ValueSpan | backup/src/backend/parser.rs:170-178 | the byte span of a pair's value lies within the data and is not empty |
| InfoHash.ValueSpanDecodes | backup/src/backend/parser.rs:170-178 | in a dictionary decoded from the start of the data, the span computed for pair `i` holds exactly the encoding of that pair's value |
| InfoHash.TorrentHasInfo | backup/src/backend/parser.rs:194-199 | a successful projection always comes from a root dictionary that has an `info` pair |
| InfoHash.DecodeTorrent | backup/src/backend/parser.rs:153-199 | bytes that do not decode are malformed, with the decoder's error; a success agrees with `Torrent::from_bencode` on the decoded tree in every field but the hash |
| InfoHash.DecodeTorrentSpec | backup/src/backend/parser.rs:162-199 | the corrected reader fails exactly where decoding or the projection fails; it otherwise agrees with the projection on every field but the hash, and its hash is the digest of exactly the bytes that decode to the `info` value used |
| InfoHash.InfoHashAsWritten | backup/src/backend/parser.rs:162-197 | the hash the source returns differs from the intended one whenever the digest of the info bytes is not all zeros |
| StringOverflow.ParseStringAsWritten | backup/src/backend/parser.rs:56-72 | the compiled string parser panics only when the end position overflows a `usize`, and without an overflow it returns what the corrected parser returns |
| StringOverflow.ParseStringAsWrittenSpec | backup/src/backend/parser.rs:64-70 | the compiled string parser panics exactly when the end position overflows a `usize`, and otherwise returns what the corrected parser returns |
| StringOverflow.OverflowingLengthPanics | backup/src/backend/parser.rs:64-70 | a length text declaring nearly `usize::MAX` bytes makes the compiled parser panic, where the corrected parser reports "String exceeds data length" |
| Tracker.ParseUrl | src/requests/tracker.rs:8-11 | a URL without the `http://` prefix is rejected; a parsed host never contains `/` or `:` |
| Tracker.ParseUrlWithPort | src/requests/tracker.rs:14-26 | with a `:` in the host part, the port is what the `u16` parse makes of the text up to the first `/`, and a text it rejects is "Invalid port number" |
| Tracker.ParseUrlOf | src/requests/tracker.rs:8-29 | round trip: every URL written with an explicit port parses back to its host, port and path, slashes and colons in the path included |
| Tracker.ParseUrlWithoutPort | src/requests/tracker.rs:14-28 | with no `:` in the host part, the port is 6969 |
| Tracker.ParseUrlNoPath | src/requests/tracker.rs:14-28 | with no `/` after the scheme the path is empty, the host is the rest up to a `:`, and the port is read from the text after the `:` (an error if the `u16` parse rejects it) or is 6969 |
| Tracker.ParseUrlPortTooLarge | src/requests/tracker.rs:23-25 | a port above 65535 is an error, not a wrap-around |
| Tracker.SignedPortText | src/requests/tracker.rs:23-25 | `http://h:+080/` names port 80 |
| Tracker.EmptyPortText | src/requests/tracker.rs:21-25 | `http://h:` is an error, not the default port |
| Tracker.ParsePeers | src/requests/tracker.rs:31-43 | a buffer of `n` bytes gives `n/6` peers |
| Tracker.PeersFromSpec | src/requests/tracker.rs:34-40 | the `k`-th peer read from an offset is the entry `6k` bytes further on, which lies wholly within the buffer |
| Tracker.ParsePeersSpec | src/requests/tracker.rs:31-43 | a buffer of `n` bytes gives `n/6` peers, peer `k` read from bytes `[6k, 6k+6)` |
| Tracker.ParsePeersEncode | src/requests/tracker.rs:31-43 | round trip: written peers followed by fewer than six stray bytes read back as those peers |
| Tracker.EncodeParsePeers | src/requests/tracker.rs:31-43 | the peers read from a buffer, written back, give the buffer without its partial last entry |
| Tracker.Receive | src/requests/tracker.rs:77-78 | a received datagram is cut to the buffer; a shorter one is kept whole |
| Tracker.ConnectRequest | src/requests/tracker.rs:66-71 | the connect request is 16 bytes |
| Tracker.ConnectRequestFields | src/requests/tracker.rs:66-71 | the connect request is 16 bytes, and a tracker reads back the protocol id `0x41727101980`, action 0 and the transaction id |
| Tracker.ParseConnectResponse | src/requests/tracker.rs:82-91 | a reply of any length but 16 is "Invalid connect response"; an accepted reply echoes the transaction id sent |
| Tracker.ParseConnectResponseSpec | src/requests/tracker.rs:82-91 | a reply is accepted with connection id `c` exactly when it is the tracker's connect response for the transaction id sent and `c` |
| Tracker.ConnectResponseMismatch | src/requests/tracker.rs:86-89 | a well-formed reply echoing another transaction id is "Transaction ID mismatch" |
| Tracker.AnnounceHeadFields | src/requests/tracker.rs:100-108 | a tracker reads back the connection id, action 1, transaction id, info hash and peer id of any announce request |
| Tracker.AnnounceTailFields | src/requests/tracker.rs:110-117 | a tracker reads back the counters, event, address, key, num_want (as two's complement) and port of any announce request |
| Tracker.AnnounceRequest | src/requests/tracker.rs:100-117 | the announce request is 98 bytes |
| Tracker.AnnounceRequestFields | src/requests/tracker.rs:100-117 | the client's announce request is 98 bytes carrying peer id `-UT2300-012345678901`, zero counters, event 0, address 0, the key, num_want `0xFFFFFFFF` (-1) and port 6881 |
| Tracker.ParseAnnounceResponse | src/requests/tracker.rs:125-129 | a reply shorter than 20 bytes is "Invalid announce response"; an accepted reply starts with action 1 and gives one peer per whole 6 bytes after the header |
| Tracker.ParseAnnounceResponseSpec | src/requests/tracker.rs:125-129 | a reply is accepted exactly when it has the 20-byte header and starts with action 1; the peers are then the entries filling the rest, up to fewer than six stray bytes |
| Tracker.ParseAnnounceResponseOf | src/requests/tracker.rs:125-129 | round trip: any announce response a tracker writes yields its peers, whatever transaction id it echoes |
| Tracker.AnnounceReplyReceived | src/requests/tracker.rs:121-129 | a response read into the 2048-byte buffer yields the tracker's peers, cut to the first 338 without an error when there are more |
| Tracker.Request | src/requests/tracker.rs:45-64 | a bad URL sends nothing; otherwise the connect request goes first; at most two datagrams are sent, and a success has sent both |
| Tracker.RequestSucceeds | src/requests/tracker.rs:45-64 | against a tracker that answers well, the request sends the connect request and then an announce carrying the tracker's connection id, and returns the tracker's peers (the first 338); bytes past the 16 of a connect reply are ignored |
| Tracker.RequestMismatchIsFatal | src/requests/tracker.rs:86-89 | a connect reply with the wrong transaction id ends the request after one datagram, with no retry |

## Left out

- Sockets, DNS, `UdpSocket::bind`/`connect`/`send_to`/`recv_from` and the 5 and 10 second timeouts (tracker.rs:48-55, 74, 78-79, 119, 122-123) are I/O. The tracker's replies are parameters of `Tracker.Request`. A timeout or I/O error is not modelled.
- Receiving a datagram longer than the buffer is modelled as cutting it to the buffer, which is how `recv_from` behaves on Linux.
- `rand::random` (tracker.rs:68, 103, 115): the two transaction ids and the key are parameters.
- SHA-1 (parser.rs:180-184) is the parameter `digest` of `InfoHash.DecodeTorrent`.
- `find_info_position` (parser.rs:101-120) is not modelled; its comment says it never ends. Within `from_bencode`, the data is the bytes the tree was decoded from, and the info branch runs only when the root has an `info` key. In that case it walks the root's pairs and returns at the first `info` key. Its result feeds only the shadowed hash (see Findings), so `Metainfo.TorrentFromBencode` does not compute the span at all. The corrected `InfoHash.DecodeTorrent` locates the value with `InfoHash.ValueSpan` and `find_info_end` instead. It hashes the last `info` pair, the one the projection reports.
- The `unwrap` panics of parser.rs:175-176 cannot happen when `data` is the decoded bytes. The model does not pass other bytes.
- `Metainfo.TorrentFromBencode` takes only the tree. The `data` parameter is used only by the span computation above.
- The `println!` calls (parser.rs:169, 185; tracker.rs:73, 75, 80) and the `Display` implementations (parser.rs:320 onward) are output only.
- The demo `main` of tracker.rs:132-141 is a fixed call of `request`.
- `assert_eq!` on the `i` (parser.rs:45) is not modelled: `parse` dispatches to `parse_integer` only at an `i`.
- `from_utf8` on the integer and length texts (parser.rs:50, 61-62) is not modelled separately. A text that fails it fails the number parse too, with the same error. `Bencode.NumberTextsAreUtf8` proves that every accepted text is well-formed UTF-8.
- Rust `String`s (announce, comment, name, path components, the URL) are modelled as their UTF-8 bytes. The URL is the bytes of the `&str`. The model does not decode characters.
- Resolving the host to an IPv4 or IPv6 address: a peer is an IPv4 address and a port, as `parse_peers` builds it.
- `StringOverflow.ParseStringAsWritten` models the release build, where `self.pos + len` wraps and the slice then panics. A debug build panics on the addition itself. Both are a panic, and the model does not tell them apart.
- `usize` is taken to be 64 bits wide (`NumericText.USIZE_MAX`), the width of the 64-bit targets the client is built for. On a 32-bit target the largest string length and the overflow point of Findings would be lower.
- `Bencode.ParseString` compares the end of the string with the data length as an unbounded number. It is the corrected reading of the overflow in Findings.

## Findings

| source | as written | input that shows it | evidently intended | confidence | as-written member | corrected member |
|---|---|---|---|---|---|---|
| backup/src/backend/parser.rs:162-197 | `let mut info_hash` inside the `info` branch shadows the one declared before the loop, so the SHA-1 is written to a copy and the returned `info_hash` is always `[0u8; 20]` | any torrent whose info bytes have a SHA-1 other than all zeros, e.g. `d8:announce0:4:infod4:name0:12:piece lengthi0e6:pieces0:ee` | the returned hash is the SHA-1 of the bytes of the `info` value | not executed | Metainfo.TorrentFromBencode, InfoHash.InfoHashAsWritten | InfoHash.DecodeTorrent, InfoHash.DecodeTorrentSpec |
| backup/src/backend/parser.rs:63-70 | `let end = self.pos + len` is a `usize` sum, and the length text may be as large as `usize::MAX`, so the sum overflows; a release build wraps past the `end > self.data.len()` check and panics on the slice | `18446744073709551615:` | report "String exceeds data length" | not executed | StringOverflow.ParseStringAsWritten, StringOverflow.OverflowingLengthPanics | Bencode.ParseString, Bencode.ParseStringAt |
