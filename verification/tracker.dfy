/** The UDP tracker client of `src/requests/tracker.rs`: the announce URL,
    the two request/response exchanges of the UDP tracker protocol (BEP 15:
    connect, then announce), and the compact peer list of the announce
    response. Sockets, DNS and timeouts are not modelled: the datagrams the
    tracker sends back are parameters, and so are the random transaction ids
    and key. */
module Tracker {
  import opened Results
  import opened Bytes
  import opened NumericText
  import opened BigEndian

  // ---------------------------------------------------------------------
  // The announce URL
  // ---------------------------------------------------------------------

  const HTTP_PREFIX: seq<Byte> := [104, 116, 116, 112, 58, 47, 47]  // "http://"
  const SLASH: Byte := 47           // '/'
  const PORT_SEPARATOR: Byte := 58  // ':'
  /** The port used when the URL names none. */
  const DEFAULT_PORT: U16 := 6969

  datatype UrlError =
    | NotHttp      // "URL must start with 'http://'"
    | InvalidPort  // "Invalid port number"

  /** `(host, port, path)`; the path has no leading `/`. */
  datatype TrackerUrl = TrackerUrl(host: seq<Byte>, port: U16, path: seq<Byte>)

  /** No byte of `s` is `b`. */
  predicate Avoids(s: seq<Byte>, b: Byte) {
    forall j :: 0 <= j < |s| ==> s[j] != b
  }

  /** `parse_url`: strip `http://`, split once at the first `/`, and take a
      port after the first `:` of the part before it (Rust's `u16::from_str`:
      an optional `+`, then digits, at most 65535). */
  function ParseUrl(url: seq<Byte>): (r: Result<TrackerUrl, UrlError>)
    ensures !At(url, 0, HTTP_PREFIX) ==> r == Err(NotHttp)
    ensures r.Ok? ==> Avoids(r.value.host, SLASH) && Avoids(r.value.host, PORT_SEPARATOR)
  {
    if !At(url, 0, HTTP_PREFIX) then Err(NotHttp)
    else
      var rest := url[|HTTP_PREFIX|..];
      var hostPort := match IndexOf(rest, SLASH) case None => rest case Some(i) => rest[..i];
      var path := match IndexOf(rest, SLASH) case None => [] case Some(i) => rest[i + 1..];
      match IndexOf(hostPort, PORT_SEPARATOR)
      case None => Ok(TrackerUrl(hostPort, DEFAULT_PORT, path))
      case Some(c) =>
        match ParseUnsigned(hostPort[c + 1..], U16_MAX)
        case None => Err(InvalidPort)
        case Some(port) => Ok(TrackerUrl(hostPort[..c], port, path))
  }

  /** `http://host:port/path`, the port in decimal. */
  function UrlOf(u: TrackerUrl): (r: seq<Byte>)
  {
    HTTP_PREFIX + u.host + [PORT_SEPARATOR] + ToDecimal(u.port) + [SLASH] + u.path
  }

  /** `http://host/path`: no port. */
  function UrlWithoutPort(host: seq<Byte>, path: seq<Byte>): (r: seq<Byte>)
  {
    HTTP_PREFIX + host + [SLASH] + path
  }

  /** The search for the first `/` after the scheme ends right after the host
      text, whatever the path holds. */
  lemma FirstSlash(url: seq<Byte>, hostPort: seq<Byte>, path: seq<Byte>)
    requires url == HTTP_PREFIX + hostPort + [SLASH] + path
    requires Avoids(hostPort, SLASH)
    ensures At(url, 0, HTTP_PREFIX)
    ensures IndexOf(url[|HTTP_PREFIX|..], SLASH) == Some(|hostPort|)
    ensures url[|HTTP_PREFIX|..][..|hostPort|] == hostPort
    ensures url[|HTTP_PREFIX|..][|hostPort| + 1..] == path
  {
    var rest := url[|HTTP_PREFIX|..];
    assert url[..|HTTP_PREFIX|] == HTTP_PREFIX;
    AtSlice(url, 0, HTTP_PREFIX);
    assert rest == hostPort + [SLASH] + path;
    IndexOfUnique(rest, SLASH, |hostPort|);
    assert rest[..|hostPort|] == hostPort;
    assert rest[|hostPort| + 1..] == path;
  }

  /** The search for the first `:` in `host:port` ends right after the host. */
  lemma FirstColon(host: seq<Byte>, portText: seq<Byte>)
    requires Avoids(host, PORT_SEPARATOR)
    ensures IndexOf(host + [PORT_SEPARATOR] + portText, PORT_SEPARATOR) == Some(|host|)
    ensures (host + [PORT_SEPARATOR] + portText)[..|host|] == host
    ensures (host + [PORT_SEPARATOR] + portText)[|host| + 1..] == portText
  {
    var hostPort := host + [PORT_SEPARATOR] + portText;
    IndexOfUnique(hostPort, PORT_SEPARATOR, |host|);
    assert hostPort[..|host|] == host;
    assert hostPort[|host| + 1..] == portText;
  }

  /** With a `:` the port is whatever `u16::from_str` makes of the text
      between it and the first `/`, and a text it rejects fails the URL. */
  lemma ParseUrlWithPort(host: seq<Byte>, portText: seq<Byte>, path: seq<Byte>)
    requires Avoids(host, SLASH) && Avoids(host, PORT_SEPARATOR) && Avoids(portText, SLASH)
    ensures ParseUrl(HTTP_PREFIX + host + [PORT_SEPARATOR] + portText + [SLASH] + path)
      == match ParseUnsigned(portText, U16_MAX)
         case None => Err(InvalidPort)
         case Some(port) => Ok(TrackerUrl(host, port, path))
  {
    var url := HTTP_PREFIX + host + [PORT_SEPARATOR] + portText + [SLASH] + path;
    var hostPort := host + [PORT_SEPARATOR] + portText;
    assert Avoids(hostPort, SLASH) by {
      forall j | 0 <= j < |hostPort| ensures hostPort[j] != SLASH {
        if j > |host| {
          assert hostPort[j] == portText[j - |host| - 1];
        }
      }
    }
    assert url == HTTP_PREFIX + hostPort + [SLASH] + path;
    FirstSlash(url, hostPort, path);
    FirstColon(host, portText);
  }

  /** Every URL written out with an explicit port reads back as itself: the
      host is what precedes the `:`, the port its value, and the path
      everything after the first `/`, slashes and colons included. */
  lemma ParseUrlOf(u: TrackerUrl)
    requires Avoids(u.host, SLASH) && Avoids(u.host, PORT_SEPARATOR)
    ensures ParseUrl(UrlOf(u)) == Ok(u)
  {
    ToDecimalSpec(u.port);
    DigitsAvoid(ToDecimal(u.port), SLASH);
    ParseUrlWithPort(u.host, ToDecimal(u.port), u.path);
    ParseUnsignedToDecimal(u.port, U16_MAX);
  }

  /** Without a `:` the port is 6969. */
  lemma ParseUrlWithoutPort(host: seq<Byte>, path: seq<Byte>)
    requires Avoids(host, SLASH) && Avoids(host, PORT_SEPARATOR)
    ensures ParseUrl(UrlWithoutPort(host, path)) == Ok(TrackerUrl(host, DEFAULT_PORT, path))
  {
    FirstSlash(UrlWithoutPort(host, path), host, path);
  }

  /** Without a `/` after the scheme the whole rest is `host[:port]` and the
      path is empty; the port is read as when a path follows, or is 6969. */
  lemma ParseUrlNoPath(host: seq<Byte>, portText: seq<Byte>)
    requires Avoids(host, SLASH) && Avoids(host, PORT_SEPARATOR) && Avoids(portText, SLASH)
    ensures ParseUrl(HTTP_PREFIX + host) == Ok(TrackerUrl(host, DEFAULT_PORT, []))
    ensures ParseUrl(HTTP_PREFIX + host + [PORT_SEPARATOR] + portText)
      == match ParseUnsigned(portText, U16_MAX)
         case None => Err(InvalidPort)
         case Some(port) => Ok(TrackerUrl(host, port, []))
  {
    NoPathRest(HTTP_PREFIX + host, host);
    var hostPort := host + [PORT_SEPARATOR] + portText;
    assert Avoids(hostPort, SLASH) by {
      forall j | 0 <= j < |hostPort| ensures hostPort[j] != SLASH {
        if j > |host| {
          assert hostPort[j] == portText[j - |host| - 1];
        }
      }
    }
    assert HTTP_PREFIX + host + [PORT_SEPARATOR] + portText == HTTP_PREFIX + hostPort;
    NoPathRest(HTTP_PREFIX + hostPort, hostPort);
    FirstColon(host, portText);
  }

  /** A URL with no `/` after the scheme: the rest is the authority. */
  lemma NoPathRest(url: seq<Byte>, hostPort: seq<Byte>)
    requires url == HTTP_PREFIX + hostPort
    requires Avoids(hostPort, SLASH)
    ensures At(url, 0, HTTP_PREFIX)
    ensures url[|HTTP_PREFIX|..] == hostPort
    ensures IndexOf(hostPort, SLASH) == None
  {
    assert url[..|HTTP_PREFIX|] == HTTP_PREFIX;
    AtSlice(url, 0, HTTP_PREFIX);
    assert url[|HTTP_PREFIX|..] == hostPort;
  }

  /** A port above 65535 is an error, not a wrap-around. */
  lemma ParseUrlPortTooLarge(host: seq<Byte>, port: nat, path: seq<Byte>)
    requires Avoids(host, SLASH) && Avoids(host, PORT_SEPARATOR)
    requires U16_MAX < port
    ensures ParseUrl(HTTP_PREFIX + host + [PORT_SEPARATOR] + ToDecimal(port) + [SLASH] + path)
      == Err(InvalidPort)
  {
    ToDecimalSpec(port);
    DigitsAvoid(ToDecimal(port), SLASH);
    ParseUrlWithPort(host, ToDecimal(port), path);
    ParseUnsignedTooLarge(port, U16_MAX);
  }

  /** `u16::from_str` also takes a `+` sign and leading zeros:
      `http://h:+080/` names port 80. */
  lemma SignedPortText()
    ensures ParseUrl(HTTP_PREFIX + [104] + [PORT_SEPARATOR] + [43, 48, 56, 48] + [SLASH] + [])
      == Ok(TrackerUrl([104], 80, []))
  {
    PlusZeroEighty();
    ParseUrlWithPort([104], [43, 48, 56, 48], []);
  }

  /** `"+080".parse::<u16>()` is 80. */
  lemma PlusZeroEighty()
    ensures ParseUnsigned([43, 48, 56, 48], U16_MAX) == Some(80)
  {
    var text: seq<Byte> := [43, 48, 56, 48];
    assert DigitsBetween(text, 1, 2) == Some(0);
    assert DigitsBetween(text, 1, 3) == Some(8);
    assert DigitsBetween(text, 1, 4) == Some(80);
  }

  /** An empty port is an error, not the default. */
  lemma EmptyPortText()
    ensures ParseUrl([104, 116, 116, 112, 58, 47, 47, 104, 58]) == Err(InvalidPort)  // "http://h:"
  {
    var url: seq<Byte> := [104, 116, 116, 112, 58, 47, 47, 104, 58];
    assert url[..7] == HTTP_PREFIX;
    AtSlice(url, 0, HTTP_PREFIX);
    var rest := url[|HTTP_PREFIX|..];
    assert rest == [104, 58];
    assert IndexOf(rest, SLASH) == None;
    IndexOfUnique(rest, PORT_SEPARATOR, 1);
    assert rest[2..] == [];
  }

  // ---------------------------------------------------------------------
  // Compact peer lists
  // ---------------------------------------------------------------------

  /** Width of one compact peer entry: 4 address bytes, 2 port bytes. */
  const PEER_LEN: nat := 6

  datatype Ipv4 = Ipv4(a: Byte, b: Byte, c: Byte, d: Byte)
  datatype PeerAddr = PeerAddr(ip: Ipv4, port: U16)

  /** The peer whose six bytes start at `at`; the port is big-endian. */
  function PeerAt(buf: seq<Byte>, at: nat): (r: PeerAddr)
    requires at + PEER_LEN <= |buf|
  {
    Pow256Widths();
    PeerAddr(Ipv4(buf[at], buf[at + 1], buf[at + 2], buf[at + 3]), FromBeBytes(buf[at + 4..at + 6]))
  }

  /** The peers from `at` on: whole six-byte entries only. */
  function PeersFrom(buf: seq<Byte>, at: nat): (r: seq<PeerAddr>)
    decreases |buf| - at
  {
    if |buf| < at + PEER_LEN then [] else [PeerAt(buf, at)] + PeersFrom(buf, at + PEER_LEN)
  }

  /** `parse_peers`: `chunks_exact(6)`, so trailing bytes short of an entry
      are dropped without an error. */
  function ParsePeers(buf: seq<Byte>): (r: seq<PeerAddr>)
    ensures |r| == |buf| / PEER_LEN
  {
    PeersFromLength(buf, 0);
    PeersFrom(buf, 0)
  }

  /** The six bytes of a peer entry. */
  function EncodePeer(p: PeerAddr): (r: seq<Byte>)
    ensures |r| == PEER_LEN
  {
    [p.ip.a, p.ip.b, p.ip.c, p.ip.d] + U16ToBeBytes(p.port)
  }

  /** A compact peer list, as a tracker writes it. */
  function EncodePeers(peers: seq<PeerAddr>): (r: seq<Byte>)
    ensures |r| == PEER_LEN * |peers|
  {
    if |peers| == 0 then [] else EncodePeer(peers[0]) + EncodePeers(peers[1..])
  }

  /** There is one peer per whole six bytes, and peer `k` is read from bytes
      `6k .. 6k+6`. */
  lemma {:induction false} PeersFromSpec(buf: seq<Byte>, at: nat, k: nat)
    requires k < |PeersFrom(buf, at)|
    ensures at + PEER_LEN * k + PEER_LEN <= |buf|
    ensures PeersFrom(buf, at)[k] == PeerAt(buf, at + PEER_LEN * k)
    decreases k
  {
    if 0 < k {
      PeersFromSpec(buf, at + PEER_LEN, k - 1);
    }
  }

  lemma {:induction false} PeersFromLength(buf: seq<Byte>, at: nat)
    requires at <= |buf|
    ensures |PeersFrom(buf, at)| == (|buf| - at) / PEER_LEN
    decreases |buf| - at
  {
    if at + PEER_LEN <= |buf| {
      PeersFromLength(buf, at + PEER_LEN);
    }
  }

  /** `parse_peers` yields `|buf| / 6` peers, peer `k` from bytes `6k .. 6k+6`. */
  lemma ParsePeersSpec(buf: seq<Byte>)
    ensures |ParsePeers(buf)| == |buf| / PEER_LEN
    ensures forall k :: 0 <= k < |ParsePeers(buf)| ==>
      PEER_LEN * k + PEER_LEN <= |buf| && ParsePeers(buf)[k] == PeerAt(buf, PEER_LEN * k)
  {
    PeersFromLength(buf, 0);
    forall k | 0 <= k < |ParsePeers(buf)|
      ensures PEER_LEN * k + PEER_LEN <= |buf| && ParsePeers(buf)[k] == PeerAt(buf, PEER_LEN * k)
    {
      PeersFromSpec(buf, 0, k);
    }
  }

  /** A peer entry reads back as the peer. */
  lemma PeerAtEncode(data: seq<Byte>, at: nat, p: PeerAddr)
    requires At(data, at, EncodePeer(p))
    ensures at + PEER_LEN <= |data| && PeerAt(data, at) == p
  {
    AtSlice(data, at, EncodePeer(p));
    var e := EncodePeer(p);
    assert data[at + 4..at + 6] == e[4..6];
    assert e[4..6] == U16ToBeBytes(p.port);
  }

  /** A peer list written out and followed by fewer than six stray bytes
      reads back as the same list. */
  lemma {:induction false} PeersFromEncode(data: seq<Byte>, at: nat, peers: seq<PeerAddr>)
    requires At(data, at, EncodePeers(peers))
    requires |data| < at + |EncodePeers(peers)| + PEER_LEN
    ensures PeersFrom(data, at) == peers
    decreases |peers|
  {
    if |peers| == 0 {
    } else {
      AtConcat(data, at, EncodePeer(peers[0]), EncodePeers(peers[1..]));
      PeerAtEncode(data, at, peers[0]);
      PeersFromEncode(data, at + PEER_LEN, peers[1..]);
      assert peers == [peers[0]] + peers[1..];
    }
  }

  /** Round trip: a tracker's peer list, with up to five stray trailing
      bytes, is read back exactly. */
  lemma ParsePeersEncode(peers: seq<PeerAddr>, tail: seq<Byte>)
    requires |tail| < PEER_LEN
    ensures ParsePeers(EncodePeers(peers) + tail) == peers
  {
    var data := EncodePeers(peers) + tail;
    AtSlice(data, 0, EncodePeers(peers));
    assert data[0..|EncodePeers(peers)|] == EncodePeers(peers);
    PeersFromEncode(data, 0, peers);
  }

  /** A peer read from six bytes writes back out as those bytes. */
  lemma EncodePeerAt(buf: seq<Byte>, at: nat)
    requires at + PEER_LEN <= |buf|
    ensures EncodePeer(PeerAt(buf, at)) == buf[at..at + PEER_LEN]
  {
    Pow256Widths();
    ToFromBeBytes(buf[at + 4..at + 6]);
  }

  /** The encoding of the peers read from `at` is the bytes from `at` up to
      the last whole entry. */
  lemma {:induction false} EncodePeersFrom(buf: seq<Byte>, at: nat)
    requires at <= |buf|
    ensures at + |EncodePeers(PeersFrom(buf, at))| <= |buf|
    ensures |buf| < at + |EncodePeers(PeersFrom(buf, at))| + PEER_LEN
    ensures EncodePeers(PeersFrom(buf, at)) == buf[at..at + |EncodePeers(PeersFrom(buf, at))|]
    decreases |buf| - at
  {
    if at + PEER_LEN <= |buf| {
      var rest := PeersFrom(buf, at + PEER_LEN);
      var n := |EncodePeers(rest)|;
      EncodePeersFrom(buf, at + PEER_LEN);
      EncodePeerAt(buf, at);
      var peers := [PeerAt(buf, at)] + rest;
      assert PeersFrom(buf, at) == peers;
      assert peers[1..] == rest;
      assert EncodePeers(peers) == buf[at..at + PEER_LEN] + buf[at + PEER_LEN..at + PEER_LEN + n];
      assert buf[at..at + PEER_LEN] + buf[at + PEER_LEN..at + PEER_LEN + n] == buf[at..at + PEER_LEN + n];
    }
  }

  /** The other direction: writing out the peers read from any buffer gives
      back the buffer without its partial last entry. */
  lemma EncodeParsePeers(buf: seq<Byte>)
    ensures |EncodePeers(ParsePeers(buf))| <= |buf| < |EncodePeers(ParsePeers(buf))| + PEER_LEN
    ensures EncodePeers(ParsePeers(buf)) == buf[..|EncodePeers(ParsePeers(buf))|]
  {
    EncodePeersFrom(buf, 0);
  }

  // ---------------------------------------------------------------------
  // Datagrams
  // ---------------------------------------------------------------------

  /** The protocol's magic connection id of a connect request. */
  const PROTOCOL_ID: U64 := 0x417_2710_1980
  const ACTION_CONNECT: U32 := 0
  const ACTION_ANNOUNCE: U32 := 1
  /** Size of a connect request, and of the buffer a connect response is read into. */
  const CONNECT_LEN: nat := 16
  /** Size of an announce request. */
  const ANNOUNCE_LEN: nat := 98
  /** Size of the buffer an announce response is read into. */
  const ANNOUNCE_BUFFER: nat := 2048
  /** The announce response's fixed part: action, transaction id, interval, leechers, seeders. */
  const ANNOUNCE_HEADER_LEN: nat := 20
  /** Length of the info hash and of the peer id. */
  const ID_LEN: nat := 20
  /** The fixed Azureus-style peer id, "-UT2300-012345678901". */
  const PEER_ID: seq<Byte> :=
    [45, 85, 84, 50, 51, 48, 48, 45, 48, 49, 50, 51, 52, 53, 54, 55, 56, 57, 48, 49]
  /** The listening port announced. */
  const LISTEN_PORT: U16 := 6881

  /** Why a tracker request fails. DNS, socket and timeout failures are not modelled. */
  datatype TrackerError =
    | BadUrl(url: UrlError)       // InvalidInput, from `parse_url`
    | InvalidConnectResponse      // "Invalid connect response"
    | TransactionIdMismatch       // "Transaction ID mismatch"
    | InvalidAnnounceResponse     // "Invalid announce response"

  /** The big-endian unsigned field of `width` bytes at `at`. */
  function Field(buf: seq<Byte>, at: nat, width: nat): (r: nat)
    requires at + width <= |buf|
    ensures r < Pow256(width)
  {
    FromBeBytes(buf[at..at + width])
  }

  /** A datagram received into a buffer of `capacity` bytes: a longer one is
      cut to the buffer, and the count received is the length kept. */
  function Receive(datagram: seq<Byte>, capacity: nat): (r: seq<Byte>)
    ensures |r| <= capacity
    ensures |datagram| <= capacity ==> r == datagram
    ensures |datagram| > capacity ==> |r| == capacity
    ensures r == datagram[..|r|]
  {
    if |datagram| <= capacity then datagram else datagram[..capacity]
  }

  /** The fields of the connect request: magic id, action 0, transaction id. */
  function ConnectParts(tid: U32): (r: seq<seq<Byte>>)
  {
    [U64ToBeBytes(PROTOCOL_ID), U32ToBeBytes(ACTION_CONNECT), U32ToBeBytes(tid)]
  }

  /** Where the fields of the connect request and response start. */
  lemma ConnectLayout(tid: U32, connId: U64)
    ensures Offset(ConnectParts(tid), 1) == 8 && Offset(ConnectParts(tid), 2) == 12
    ensures Offset(ConnectParts(tid), 3) == CONNECT_LEN
    ensures Offset(ConnectResponseParts(tid, connId), 1) == 4
    ensures Offset(ConnectResponseParts(tid, connId), 2) == 8
    ensures Offset(ConnectResponseParts(tid, connId), 3) == CONNECT_LEN
  {
    assert Offset(ConnectParts(tid), 1) == 8;
    assert Offset(ConnectParts(tid), 2) == 12;
    assert Offset(ConnectResponseParts(tid, connId), 1) == 4;
    assert Offset(ConnectResponseParts(tid, connId), 2) == 8;
  }

  /** The connect request sent by `connect`. */
  function ConnectRequest(tid: U32): (r: seq<Byte>)
    ensures |r| == CONNECT_LEN
  {
    ConcatLength(ConnectParts(tid));
    ConnectLayout(tid, 0);
    Concat(ConnectParts(tid))
  }

  /** A tracker reads the magic id, action 0 and the transaction id back out
      of the connect request. */
  lemma ConnectRequestFields(tid: U32)
    ensures Field(ConnectRequest(tid), 0, 8) == PROTOCOL_ID
    ensures Field(ConnectRequest(tid), 8, 4) == ACTION_CONNECT
    ensures Field(ConnectRequest(tid), 12, 4) == tid
  {
    var parts := ConnectParts(tid);
    ConnectLayout(tid, 0);
    ConcatPart(parts, 0);
    ConcatPart(parts, 1);
    ConcatPart(parts, 2);
  }

  /** The fields of a tracker's connect response: action 0, the transaction
      id it was sent, the connection id. */
  function ConnectResponseParts(tid: U32, connId: U64): (r: seq<seq<Byte>>)
  {
    [U32ToBeBytes(ACTION_CONNECT), U32ToBeBytes(tid), U64ToBeBytes(connId)]
  }

  /** A tracker's connect response. */
  function ConnectResponse(tid: U32, connId: U64): (r: seq<Byte>)
    ensures |r| == CONNECT_LEN
  {
    ConcatLength(ConnectResponseParts(tid, connId));
    ConnectLayout(tid, connId);
    Concat(ConnectResponseParts(tid, connId))
  }

  /** The check of the received connect response in `connect`: exactly 16
      bytes with action 0, else invalid; then the transaction id must be the
      one sent, else a mismatch (fatal, no retry); then the connection id. */
  function ParseConnectResponse(buf: seq<Byte>, sentTid: U32): (r: Result<U64, TrackerError>)
    ensures |buf| != CONNECT_LEN ==> r == Err(InvalidConnectResponse)
    ensures r.Ok? ==> Field(buf, 4, 4) == sentTid
  {
    if |buf| != CONNECT_LEN || Field(buf, 0, 4) != ACTION_CONNECT then Err(InvalidConnectResponse)
    else if Field(buf, 4, 4) != sentTid then Err(TransactionIdMismatch)
    else
      Pow256Widths();
      Ok(Field(buf, 8, 8))
  }

  /** The three fields of a connect response sit at bytes 0, 4 and 8. */
  lemma ConnectResponseFields(tid: U32, connId: U64)
    ensures ConnectResponse(tid, connId)[0..4] == U32ToBeBytes(ACTION_CONNECT)
    ensures ConnectResponse(tid, connId)[4..8] == U32ToBeBytes(tid)
    ensures ConnectResponse(tid, connId)[8..16] == U64ToBeBytes(connId)
  {
    var parts := ConnectResponseParts(tid, connId);
    ConnectLayout(tid, connId);
    ConcatPart(parts, 0);
    ConcatPart(parts, 1);
    ConcatPart(parts, 2);
  }

  /** The connect response is accepted with connection id `connId` exactly
      when it is the response a tracker sends for the transaction id sent:
      every one of the 16 bytes is determined. */
  lemma ParseConnectResponseSpec(buf: seq<Byte>, sentTid: U32, connId: U64)
    ensures ParseConnectResponse(buf, sentTid) == Ok(connId) <==> buf == ConnectResponse(sentTid, connId)
  {
    var e := ConnectResponse(sentTid, connId);
    ConnectResponseFields(sentTid, connId);
    if ParseConnectResponse(buf, sentTid) == Ok(connId) {
      ToFromBeBytes(buf[0..4]);
      ToFromBeBytes(buf[4..8]);
      ToFromBeBytes(buf[8..16]);
      assert buf == buf[0..4] + buf[4..8] + buf[8..16];
      assert e == e[0..4] + e[4..8] + e[8..16];
    }
  }

  /** A well-formed response echoing another transaction id is rejected as a
      mismatch. */
  lemma ConnectResponseMismatch(sentTid: U32, echoed: U32, connId: U64)
    requires echoed != sentTid
    ensures ParseConnectResponse(ConnectResponse(echoed, connId), sentTid) == Err(TransactionIdMismatch)
  {
    ConnectResponseFields(echoed, connId);
  }

  /** The fields of an announce request, in the order they are sent. */
  datatype Announce = Announce(
    connId: U64, tid: U32, infoHash: seq<Byte>, peerId: seq<Byte>,
    downloaded: U64, left: U64, uploaded: U64, event: U32, ip: U32,
    key: U32, numWant: I32, port: U16)

  /** The info hash and the peer id are 20 bytes each. */
  predicate ValidAnnounce(a: Announce) {
    |a.infoHash| == ID_LEN && |a.peerId| == ID_LEN
  }

  /** The fields laid out as BEP 15 orders them, action 1 after the
      connection id. */
  function AnnounceParts(a: Announce): (r: seq<seq<Byte>>)
  {
    [U64ToBeBytes(a.connId), U32ToBeBytes(ACTION_ANNOUNCE), U32ToBeBytes(a.tid), a.infoHash, a.peerId,
     U64ToBeBytes(a.downloaded), U64ToBeBytes(a.left), U64ToBeBytes(a.uploaded),
     U32ToBeBytes(a.event), U32ToBeBytes(a.ip), U32ToBeBytes(a.key), I32ToBeBytes(a.numWant),
     U16ToBeBytes(a.port)]
  }

  /** The widths of the announce request's fields, in order. */
  predicate AnnounceWidths(parts: seq<seq<Byte>>) {
    && |parts| == 13
    && |parts[0]| == 8 && |parts[1]| == 4 && |parts[2]| == 4 && |parts[3]| == ID_LEN
    && |parts[4]| == ID_LEN && |parts[5]| == 8 && |parts[6]| == 8 && |parts[7]| == 8
    && |parts[8]| == 4 && |parts[9]| == 4 && |parts[10]| == 4 && |parts[11]| == 4
    && |parts[12]| == 2
  }

  /** Where each field of an announce request starts. */
  lemma AnnounceOffsets(parts: seq<seq<Byte>>)
    requires AnnounceWidths(parts)
    ensures && Offset(parts, 0) == 0 && Offset(parts, 1) == 8 && Offset(parts, 2) == 12
      && Offset(parts, 3) == 16 && Offset(parts, 4) == 36 && Offset(parts, 5) == 56
      && Offset(parts, 6) == 64 && Offset(parts, 7) == 72 && Offset(parts, 8) == 80
      && Offset(parts, 9) == 84 && Offset(parts, 10) == 88 && Offset(parts, 11) == 92
      && Offset(parts, 12) == 96 && Offset(parts, 13) == ANNOUNCE_LEN
  {
    assert Offset(parts, 1) == 8;
    assert Offset(parts, 2) == 12;
    assert Offset(parts, 3) == 16;
    assert Offset(parts, 4) == 36;
    assert Offset(parts, 5) == 56;
    assert Offset(parts, 6) == 64;
    assert Offset(parts, 7) == 72;
    assert Offset(parts, 8) == 80;
    assert Offset(parts, 9) == 84;
    assert Offset(parts, 10) == 88;
    assert Offset(parts, 11) == 92;
    assert Offset(parts, 12) == 96;
  }

  /** An announce request on the wire. */
  function EncodeAnnounce(a: Announce): (r: seq<Byte>)
    requires ValidAnnounce(a)
    ensures |r| == ANNOUNCE_LEN
  {
    ConcatLength(AnnounceParts(a));
    AnnounceOffsets(AnnounceParts(a));
    Concat(AnnounceParts(a))
  }

  /** A tracker reads back the connection id, action, transaction id, info
      hash and peer id of an announce request ... */
  lemma AnnounceHeadFields(a: Announce)
    requires ValidAnnounce(a)
    ensures Field(EncodeAnnounce(a), 0, 8) == a.connId
    ensures Field(EncodeAnnounce(a), 8, 4) == ACTION_ANNOUNCE
    ensures Field(EncodeAnnounce(a), 12, 4) == a.tid
    ensures EncodeAnnounce(a)[16..36] == a.infoHash
    ensures EncodeAnnounce(a)[36..56] == a.peerId
  {
    var parts := AnnounceParts(a);
    AnnounceOffsets(parts);
    ConcatPart(parts, 0);
    ConcatPart(parts, 1);
    ConcatPart(parts, 2);
    ConcatPart(parts, 3);
    ConcatPart(parts, 4);
  }

  /** ... and its counters, event, address, key, peer count wanted (as
      two's complement) and port. */
  lemma AnnounceTailFields(a: Announce)
    requires ValidAnnounce(a)
    ensures Field(EncodeAnnounce(a), 56, 8) == a.downloaded
    ensures Field(EncodeAnnounce(a), 64, 8) == a.left
    ensures Field(EncodeAnnounce(a), 72, 8) == a.uploaded
    ensures Field(EncodeAnnounce(a), 80, 4) == a.event
    ensures Field(EncodeAnnounce(a), 84, 4) == a.ip
    ensures Field(EncodeAnnounce(a), 88, 4) == a.key
    ensures Field(EncodeAnnounce(a), 92, 4) == if a.numWant < 0 then a.numWant + U32_LIMIT else a.numWant
    ensures Field(EncodeAnnounce(a), 96, 2) == a.port
  {
    var parts := AnnounceParts(a);
    AnnounceOffsets(parts);
    ConcatPart(parts, 5);
    ConcatPart(parts, 6);
    ConcatPart(parts, 7);
    ConcatPart(parts, 8);
    ConcatPart(parts, 9);
    ConcatPart(parts, 10);
    ConcatPart(parts, 11);
    ConcatPart(parts, 12);
  }

  /** The announce `announce` sends: the connection id from the connect
      exchange, a fresh transaction id and key, the fixed peer id, zero
      counters, event none, the default address, num_want -1, port 6881. */
  function ClientAnnounce(connId: U64, tid: U32, infoHash: seq<Byte>, key: U32): (r: Announce)
    requires |infoHash| == ID_LEN
    ensures ValidAnnounce(r)
  {
    Announce(connId, tid, infoHash, PEER_ID, 0, 0, 0, 0, 0, key, -1, LISTEN_PORT)
  }

  /** The announce request sent by `announce`. */
  function AnnounceRequest(connId: U64, tid: U32, infoHash: seq<Byte>, key: U32): (r: seq<Byte>)
    requires |infoHash| == ID_LEN
    ensures |r| == ANNOUNCE_LEN
  {
    EncodeAnnounce(ClientAnnounce(connId, tid, infoHash, key))
  }

  /** What a tracker reads from the announce request: the connection id, a
      transaction id, the info hash, the peer id `-UT2300-012345678901`, all
      counters 0, event 0 (none), ip 0, the key, num_want `0xFFFFFFFF` (-1)
      and port 6881. */
  lemma AnnounceRequestFields(connId: U64, tid: U32, infoHash: seq<Byte>, key: U32)
    requires |infoHash| == ID_LEN
    ensures var r := AnnounceRequest(connId, tid, infoHash, key);
      && Field(r, 0, 8) == connId && Field(r, 8, 4) == ACTION_ANNOUNCE && Field(r, 12, 4) == tid
      && r[16..36] == infoHash && r[36..56] == PEER_ID
      && Field(r, 56, 8) == 0 && Field(r, 64, 8) == 0 && Field(r, 72, 8) == 0
      && Field(r, 80, 4) == 0 && Field(r, 84, 4) == 0 && Field(r, 88, 4) == key
      && Field(r, 92, 4) == 0xFFFF_FFFF && Field(r, 96, 2) == LISTEN_PORT
  {
    var a := ClientAnnounce(connId, tid, infoHash, key);
    AnnounceHeadFields(a);
    AnnounceTailFields(a);
  }

  /** The fields of a tracker's announce response: action 1, transaction
      id, interval, leechers, seeders, then the compact peer list. */
  function AnnounceResponseParts(tid: U32, interval: U32, leechers: U32, seeders: U32, peers: seq<PeerAddr>)
    : (r: seq<seq<Byte>>)
  {
    [U32ToBeBytes(ACTION_ANNOUNCE), U32ToBeBytes(tid), U32ToBeBytes(interval), U32ToBeBytes(leechers),
     U32ToBeBytes(seeders), EncodePeers(peers)]
  }

  /** Where each field of an announce response starts. */
  lemma AnnounceResponseLayout(tid: U32, interval: U32, leechers: U32, seeders: U32, peers: seq<PeerAddr>)
    ensures var parts := AnnounceResponseParts(tid, interval, leechers, seeders, peers);
      && Offset(parts, 0) == 0 && Offset(parts, 5) == ANNOUNCE_HEADER_LEN
      && Offset(parts, 6) == ANNOUNCE_HEADER_LEN + PEER_LEN * |peers|
  {
    var parts := AnnounceResponseParts(tid, interval, leechers, seeders, peers);
    assert Offset(parts, 1) == 4;
    assert Offset(parts, 2) == 8;
    assert Offset(parts, 3) == 12;
    assert Offset(parts, 4) == 16;
  }

  /** A tracker's announce response. */
  function AnnounceResponse(tid: U32, interval: U32, leechers: U32, seeders: U32, peers: seq<PeerAddr>)
    : (r: seq<Byte>)
    ensures |r| == ANNOUNCE_HEADER_LEN + PEER_LEN * |peers|
  {
    ConcatLength(AnnounceResponseParts(tid, interval, leechers, seeders, peers));
    AnnounceResponseLayout(tid, interval, leechers, seeders, peers);
    Concat(AnnounceResponseParts(tid, interval, leechers, seeders, peers))
  }

  /** The check of the received announce response in `announce`: at least
      the 20-byte header and action 1, else invalid; the transaction id is
      not compared; the peers are read from the rest. */
  function ParseAnnounceResponse(buf: seq<Byte>): (r: Result<seq<PeerAddr>, TrackerError>)
    ensures |buf| < ANNOUNCE_HEADER_LEN ==> r == Err(InvalidAnnounceResponse)
    ensures r.Ok? ==>
      && Field(buf, 0, 4) == ACTION_ANNOUNCE
      && |r.value| == (|buf| - ANNOUNCE_HEADER_LEN) / PEER_LEN
  {
    if |buf| < ANNOUNCE_HEADER_LEN || Field(buf, 0, 4) != ACTION_ANNOUNCE then Err(InvalidAnnounceResponse)
    else Ok(ParsePeers(buf[ANNOUNCE_HEADER_LEN..]))
  }

  /** An announce response is accepted exactly when it holds the header and
      starts with action 1; the peers accepted are then those whose entries
      fill the bytes after the header, up to fewer than six stray bytes. */
  lemma ParseAnnounceResponseSpec(buf: seq<Byte>)
    ensures ParseAnnounceResponse(buf).Ok? <==>
      ANNOUNCE_HEADER_LEN <= |buf| && buf[..4] == U32ToBeBytes(ACTION_ANNOUNCE)
    ensures ParseAnnounceResponse(buf).Ok? ==>
      var n := |EncodePeers(ParseAnnounceResponse(buf).value)|;
      && ANNOUNCE_HEADER_LEN + n <= |buf| < ANNOUNCE_HEADER_LEN + n + PEER_LEN
      && buf[ANNOUNCE_HEADER_LEN..ANNOUNCE_HEADER_LEN + n] == EncodePeers(ParseAnnounceResponse(buf).value)
  {
    if ANNOUNCE_HEADER_LEN <= |buf| {
      FromBeBytesInjective(buf[0..4], U32ToBeBytes(ACTION_ANNOUNCE));
      assert buf[..4] == buf[0..4];
      var rest := buf[ANNOUNCE_HEADER_LEN..];
      EncodeParsePeers(rest);
      var n := |EncodePeers(ParsePeers(rest))|;
      assert rest[..n] == buf[ANNOUNCE_HEADER_LEN..ANNOUNCE_HEADER_LEN + n];
    }
  }

  /** Round trip: any response a tracker writes yields its peers, whatever
      transaction id it echoes. */
  lemma ParseAnnounceResponseOf(tid: U32, interval: U32, leechers: U32, seeders: U32,
      peers: seq<PeerAddr>, tail: seq<Byte>)
    requires |tail| < PEER_LEN
    ensures ParseAnnounceResponse(AnnounceResponse(tid, interval, leechers, seeders, peers) + tail)
      == Ok(peers)
  {
    var response := AnnounceResponse(tid, interval, leechers, seeders, peers);
    var buf := response + tail;
    var parts := AnnounceResponseParts(tid, interval, leechers, seeders, peers);
    AnnounceResponseLayout(tid, interval, leechers, seeders, peers);
    ConcatPart(parts, 0);
    ConcatPart(parts, 5);
    assert buf[0..4] == response[0..4];
    assert Field(buf, 0, 4) == ACTION_ANNOUNCE;
    assert response[ANNOUNCE_HEADER_LEN..] == EncodePeers(peers);
    assert buf[ANNOUNCE_HEADER_LEN..] == EncodePeers(peers) + tail;
    ParsePeersEncode(peers, tail);
  }

  /** The most peers a 2048-byte announce buffer holds after the header. */
  const MAX_PEERS: nat := 338

  /** The first `n` entries of a written peer list are the written first `n` peers. */
  lemma {:induction false} EncodePeersPrefix(peers: seq<PeerAddr>, n: nat)
    requires n <= |peers|
    ensures EncodePeers(peers)[..PEER_LEN * n] == EncodePeers(peers[..n])
    decreases n
  {
    if 0 < n {
      var rest := peers[1..];
      EncodePeersPrefix(rest, n - 1);
      assert peers[..n][1..] == rest[..n - 1];
      assert EncodePeers(peers[..n]) == EncodePeer(peers[0]) + EncodePeers(rest[..n - 1]);
      assert EncodePeers(peers) == EncodePeer(peers[0]) + EncodePeers(rest);
    }
  }

  /** An announce response read into the 2048-byte buffer yields the
      tracker's peers, cut to the first 338 when there are more: the rest
      of the datagram is lost, without an error. */
  lemma AnnounceReplyReceived(tid: U32, interval: U32, leechers: U32, seeders: U32, peers: seq<PeerAddr>)
    ensures ParseAnnounceResponse(Receive(AnnounceResponse(tid, interval, leechers, seeders, peers), ANNOUNCE_BUFFER))
      == Ok(if |peers| <= MAX_PEERS then peers else peers[..MAX_PEERS])
  {
    var response := AnnounceResponse(tid, interval, leechers, seeders, peers);
    if |peers| <= MAX_PEERS {
      ParseAnnounceResponseOf(tid, interval, leechers, seeders, peers, []);
      assert response + [] == response;
    } else {
      var buf := response[..ANNOUNCE_BUFFER];
      var parts := AnnounceResponseParts(tid, interval, leechers, seeders, peers);
      AnnounceResponseLayout(tid, interval, leechers, seeders, peers);
      ConcatPart(parts, 0);
      ConcatPart(parts, 5);
      assert buf[0..4] == response[0..4];
      EncodePeersPrefix(peers, MAX_PEERS);
      assert buf[ANNOUNCE_HEADER_LEN..] == EncodePeers(peers)[..PEER_LEN * MAX_PEERS];
      ParsePeersEncode(peers[..MAX_PEERS], []);
      assert EncodePeers(peers[..MAX_PEERS]) + [] == EncodePeers(peers[..MAX_PEERS]);
    }
  }

  // ---------------------------------------------------------------------
  // The request
  // ---------------------------------------------------------------------

  /** What one call of `request` does: the datagrams it sends, in order, and
      its outcome. */
  datatype Exchange = Exchange(sent: seq<seq<Byte>>, outcome: Result<seq<PeerAddr>, TrackerError>)

  /** `request`: parse the URL, send the connect request, check the reply
      (read into 16 bytes), send the announce request with the connection id
      received, and read the peers from the reply (read into 2048 bytes). The
      tracker's replies, the two random transaction ids and the random key
      are parameters. */
  function Request(url: seq<Byte>, infoHash: seq<Byte>, connectTid: U32, announceTid: U32, key: U32,
      connectReply: seq<Byte>, announceReply: seq<Byte>): (r: Exchange)
    requires |infoHash| == ID_LEN
    ensures ParseUrl(url).Err? ==> r == Exchange([], Err(BadUrl(ParseUrl(url).error)))
    ensures ParseUrl(url).Ok? ==> 0 < |r.sent| && r.sent[0] == ConnectRequest(connectTid)
    ensures |r.sent| <= 2
    ensures r.outcome.Ok? ==> |r.sent| == 2
  {
    match ParseUrl(url)
    case Err(e) => Exchange([], Err(BadUrl(e)))
    case Ok(_) =>
      var connect := ConnectRequest(connectTid);
      match ParseConnectResponse(Receive(connectReply, CONNECT_LEN), connectTid)
      case Err(e) => Exchange([connect], Err(e))
      case Ok(connId) =>
        var announce := AnnounceRequest(connId, announceTid, infoHash, key);
        Exchange([connect, announce], ParseAnnounceResponse(Receive(announceReply, ANNOUNCE_BUFFER)))
  }

  /** Against a tracker that answers well, the request sends exactly the
      connect request and an announce request carrying the tracker's
      connection id, and returns the tracker's peers (the first 338 of
      them). Bytes past the 16 of a connect response are ignored. */
  lemma RequestSucceeds(url: seq<Byte>, infoHash: seq<Byte>, connectTid: U32, announceTid: U32, key: U32,
      connId: U64, extra: seq<Byte>, echoedTid: U32, interval: U32, leechers: U32, seeders: U32,
      peers: seq<PeerAddr>)
    requires |infoHash| == ID_LEN
    requires ParseUrl(url).Ok?
    ensures Request(url, infoHash, connectTid, announceTid, key,
        ConnectResponse(connectTid, connId) + extra,
        AnnounceResponse(echoedTid, interval, leechers, seeders, peers))
      == Exchange([ConnectRequest(connectTid), AnnounceRequest(connId, announceTid, infoHash, key)],
                  Ok(if |peers| <= MAX_PEERS then peers else peers[..MAX_PEERS]))
  {
    var reply := ConnectResponse(connectTid, connId) + extra;
    assert Receive(reply, CONNECT_LEN) == ConnectResponse(connectTid, connId);
    ParseConnectResponseSpec(ConnectResponse(connectTid, connId), connectTid, connId);
    AnnounceReplyReceived(echoedTid, interval, leechers, seeders, peers);
  }

  /** A connect response echoing the wrong transaction id ends the request:
      one datagram sent, no retry. */
  lemma RequestMismatchIsFatal(url: seq<Byte>, infoHash: seq<Byte>, connectTid: U32, announceTid: U32,
      key: U32, echoedTid: U32, connId: U64, announceReply: seq<Byte>)
    requires |infoHash| == ID_LEN
    requires ParseUrl(url).Ok?
    requires echoedTid != connectTid
    ensures Request(url, infoHash, connectTid, announceTid, key,
        ConnectResponse(echoedTid, connId), announceReply)
      == Exchange([ConnectRequest(connectTid)], Err(TransactionIdMismatch))
  {
    ConnectResponseMismatch(connectTid, echoedTid, connId);
  }
}
