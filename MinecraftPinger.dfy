/**
 * The three probes of a Minecraft endpoint: the modern status query (`ping`), the pre-1.7
 * legacy query (`legacyPing`) and the login probe (`tryJoin`), together with the handshake
 * packet they send. The socket is a parameter: a `Network` says, for an endpoint, a timeout
 * and the bytes written, whether the server can be reached and which bytes it answers with.
 * The status JSON is read by a `JsonParser` parameter that returns the keys the code looks at,
 * and a `Heap` parameter says whether the payload array can be allocated.
 */
module MinecraftPinger {
  import opened Results
  import opened JavaLang
  import opened Wire
  import opened VarInt
  import opened PingResponses

  /** Handshake "next state" values: 1 asks for the status, 2 starts a login. */
  const STATE_STATUS: Int32 := 1
  const STATE_LOGIN: Int32 := 2

  /** The status request packet that follows the handshake: length 1, packet id 0. */
  const STATUS_REQUEST: seq<Byte> := [0x01, 0x00]

  /** The legacy server-list ping and the id its answer must start with. */
  const LEGACY_REQUEST: seq<Byte> := [0xFE, 0x01]
  const LEGACY_RESPONSE_ID: Byte := 0xFF

  /** `reader.read(new char[3])` skips the marker (U+00A7, the digit 1, NUL) in front of the legacy fields. */
  const LEGACY_MARKER_UNITS: nat := 3

  const NUL: char := '\0'
  const REPLACEMENT: CodeUnit := 0xFFFD

  /** A host name short enough that its UTF-8 form and the handshake fit a Java array. */
  type HostString = s: string | |s| < 0x1000_0000

  type Port = p: int | 0 <= p < 0x1_0000

  /** InetSocketAddress: `getHostString()` and `getPort()`. */
  datatype Endpoint = Endpoint(host: HostString, port: Port)

  /**
   * What one connection does: the endpoint cannot be reached, or it answers the bytes written
   * with `reply` and then closes the connection (`closes`) or keeps it open until the read
   * timeout fires.
   */
  datatype Connection = Unreachable | Replied(reply: seq<Byte>, closes: bool)

  /** The server side of a connection: endpoint, read timeout and the bytes written. */
  type Network = (Endpoint, Int32, seq<Byte>) -> Connection

  /** The parts of the status JSON that `ping` reads; `None` is an absent or unreadable key. */
  datatype VersionJson = VersionJson(name: Option<string>, protocol: Option<Int32>)
  datatype PlayersJson = PlayersJson(online: Option<Int32>, max: Option<Int32>)
  datatype StatusJson = StatusJson(
    description: Option<ChatComponent>,
    version: Option<VersionJson>,
    players: Option<PlayersJson>)

  /** JsonParser.parseString(...).getAsJsonObject() on the payload; `None` when it throws. */
  type JsonParser = seq<Byte> -> Option<StatusJson>

  /**
   * Whether the JVM can allocate `new byte[n]`: false above the VM's array size limit and
   * whenever the free heap is too small.
   */
  type Heap = nat -> bool

  // ---------------------------------------------------------------------------------------
  // prepareHandshake
  // ---------------------------------------------------------------------------------------

  /** The handshake packet without its length prefix. */
  function HandshakeBody(protocol: Int32, host: seq<Byte>, port: Port, state: Int32): (body: seq<Byte>)
    requires |host| < 0x4000_0000
    ensures |body| <= |host| + 14
  {
    [0x00] + Encode(protocol) + Encode(|host|) + host + [port / 256, port % 256] + [state % 256]
  }

  /** The framed handshake packet: its length as a VarInt, then the body. */
  function Handshake(protocol: Int32, host: seq<Byte>, port: Port, state: Int32): (packet: seq<Byte>)
    requires |host| < 0x4000_0000
  {
    var body := HandshakeBody(protocol, host, port, state);
    Encode(|body|) + body
  }

  /** prepareHandshake: fills the body buffer, then a second buffer with the length and the body. */
  method PrepareHandshake(protocol: Int32, host: HostString, port: Port, state: Int32) returns (packet: seq<Byte>)
    ensures packet == Handshake(protocol, Utf8(host), port, state)
  {
    var rawData: seq<Byte> := [0x00];
    var protocolBytes := WriteVarInt(protocol);
    rawData := rawData + protocolBytes;
    var hostData := Utf8(host);
    var hostLength := WriteVarInt(|hostData|);
    rawData := rawData + hostLength + hostData;
    rawData := rawData + [port / 256, port % 256];
    rawData := rawData + [state % 256];
    packet := WriteVarInt(|rawData|);
    packet := packet + rawData;
  }

  /** The fields a server reads back out of a handshake packet. */
  datatype HandshakeFields = HandshakeFields(protocol: Int32, host: seq<Byte>, port: Port, state: Byte)

  /** A server's reading of a handshake packet that must fill `packet` exactly. */
  function ParseHandshake(packet: seq<Byte>): Option<HandshakeFields> {
    match Decode(packet, 0)
    case Failure(_) => None
    case Success(frame) =>
      if frame.value != |packet| - frame.next then None else ParseHandshakeBody(packet, frame.next)
  }

  /** The packet id, then the protocol VarInt. */
  function ParseHandshakeBody(packet: seq<Byte>, start: nat): Option<HandshakeFields> {
    if start >= |packet| || packet[start] != 0x00 then None
    else
      match Decode(packet, start + 1)
      case Failure(_) => None
      case Success(protocol) => ParseAddress(packet, protocol.value, protocol.next)
  }

  /** The host bytes with their length VarInt, the port and the state, which must end the packet. */
  function ParseAddress(packet: seq<Byte>, protocol: Int32, start: nat): Option<HandshakeFields> {
    match Decode(packet, start)
    case Failure(_) => None
    case Success(hostLength) =>
      if hostLength.value < 0 || hostLength.next + hostLength.value + 3 != |packet| then None
      else
        var h := hostLength.next + hostLength.value;
        var port: Port := packet[h] as int * 256 + packet[h + 1] as int;
        Some(HandshakeFields(protocol, packet[hostLength.next .. h], port, packet[h + 2]))
  }

  /**
   * The handshake is well framed and carries its fields: the server reads back the protocol,
   * the host bytes, the port and the low eight bits of the state.
   */
  lemma HandshakeRoundTrip(protocol: Int32, host: seq<Byte>, port: Port, state: Int32)
    requires |host| < 0x4000_0000
    ensures ParseHandshake(Handshake(protocol, host, port, state))
         == Some(HandshakeFields(protocol, host, port, state % 256))
  {
    var n0 := |Encode(|HandshakeBody(protocol, host, port, state)|)|;
    HandshakeLayout(protocol, host, port, state);
    LayoutParses(Handshake(protocol, host, port, state), n0, protocol, host, port, state % 256);
  }

  /** The server decodes the host bytes of a prepared handshake back to the host name. */
  lemma HandshakeHostRoundTrip(protocol: Int32, host: HostString, port: Port, state: Int32)
    ensures var parsed := ParseHandshake(Handshake(protocol, Utf8(host), port, state));
      parsed.Some? && Utf8Decode(parsed.value.host) == Some(host)
  {
    HandshakeRoundTrip(protocol, Utf8(host), port, state);
    Utf8RoundTrip(host);
  }

  /** A packet laid out field by field as a handshake parses back to its fields. */
  lemma LayoutParses(packet: seq<Byte>, n0: nat, protocol: Int32, host: seq<Byte>, port: Port, state: Byte)
    requires |host| < 0x4000_0000
    requires var n2 := n0 + 1 + |Encode(protocol)|;
      var n3 := n2 + |Encode(|host|)|;
      var h := n3 + |host|;
      |packet| == h + 3 && |packet| - n0 <= 0x7FFF_FFFF &&
      Decode(packet, 0) == Success(Decoded(|packet| - n0, n0)) &&
      packet[n0] == 0x00 && packet[n0 + 1 .. n2] == Encode(protocol) && packet[n2 .. n3] == Encode(|host|) &&
      packet[n3 .. h] == host && packet[h] == port / 256 && packet[h + 1] == port % 256 && packet[h + 2] == state
    ensures ParseHandshake(packet) == Some(HandshakeFields(protocol, host, port, state))
  {
    var n2 := n0 + 1 + |Encode(protocol)|;
    var fields := HandshakeFields(protocol, host, port, state);
    ParseAddressLaidOut(packet, protocol, n2, host, port, state);
    ParseBodyLaidOut(packet, n0, protocol);
    assert ParseHandshakeBody(packet, n0) == Some(fields);
    ParseFrameAt(packet, n0);
  }

  /** The packet id, then the protocol as a VarInt, are read back. */
  lemma ParseBodyLaidOut(packet: seq<Byte>, start: nat, protocol: Int32)
    requires var next := start + 1 + |Encode(protocol)|;
      next <= |packet| && packet[start] == 0x00 && packet[start + 1 .. next] == Encode(protocol)
    ensures ParseHandshakeBody(packet, start) == ParseAddress(packet, protocol, start + 1 + |Encode(protocol)|)
  {
    EncodeDecode(protocol, packet, start + 1);
    ParseBodyAt(packet, start, protocol, start + 1 + |Encode(protocol)|);
  }

  /** The host length as a VarInt, the host bytes, the port and the state are read back. */
  lemma ParseAddressLaidOut(packet: seq<Byte>, protocol: Int32, start: nat, host: seq<Byte>, port: Port, state: Byte)
    requires |host| < 0x4000_0000
    requires var next := start + |Encode(|host|)|;
      var h := next + |host|;
      h + 3 == |packet| && packet[start .. next] == Encode(|host|) && packet[next .. h] == host &&
      packet[h] == port / 256 && packet[h + 1] == port % 256 && packet[h + 2] == state
    ensures ParseAddress(packet, protocol, start) == Some(HandshakeFields(protocol, host, port, state))
  {
    EncodeDecode(|host|, packet, start);
    ParseAddressAt(packet, protocol, start, |host|, start + |Encode(|host|)|, host, port, state);
  }

  lemma ParseFrameAt(packet: seq<Byte>, start: nat)
    requires Decode(packet, 0).Success? && Decode(packet, 0).value.value == |packet| - start
    requires Decode(packet, 0).value.next == start
    ensures ParseHandshake(packet) == ParseHandshakeBody(packet, start)
  {
  }

  lemma ParseBodyAt(packet: seq<Byte>, start: nat, protocol: Int32, next: nat)
    requires start < |packet| && packet[start] == 0x00
    requires Decode(packet, start + 1) == Success(Decoded(protocol, next))
    ensures ParseHandshakeBody(packet, start) == ParseAddress(packet, protocol, next)
  {
  }

  lemma ParseAddressAt(packet: seq<Byte>, protocol: Int32, start: nat, hostLength: Int32, next: nat,
                       host: seq<Byte>, port: Port, state: Byte)
    requires 0 <= hostLength && next + hostLength + 3 == |packet|
    requires Decode(packet, start) == Success(Decoded(hostLength, next))
    requires packet[next .. next + hostLength] == host
    requires packet[next + hostLength] == port / 256 && packet[next + hostLength + 1] == port % 256
    requires packet[next + hostLength + 2] == state
    ensures ParseAddress(packet, protocol, start) == Some(HandshakeFields(protocol, host, port, state))
  {
  }

  /** The positions of the pieces of `[a] + p + q + r + [x, y] + [z]`. */
  lemma PiecesLayout<T>(a: T, p: seq<T>, q: seq<T>, r: seq<T>, x: T, y: T, z: T)
    ensures var s := [a] + p + q + r + [x, y] + [z];
      var m2 := 1 + |p|;
      var m3 := m2 + |q|;
      var h := m3 + |r|;
      |s| == h + 3 && s[0] == a && s[1 .. m2] == p && s[m2 .. m3] == q && s[m3 .. h] == r &&
      s[h] == x && s[h + 1] == y && s[h + 2] == z
  {
    var s1 := [a] + p;
    var s2 := s1 + q;
    var s3 := s2 + r;
    assert s1[1..] == p;
    assert s2[|s1|..] == q;
    assert s3[|s2|..] == r;
    assert ([a] + p + q + r + [x, y] + [z])[..|s3|] == s3;
  }

  /** Where each field of the handshake sits in the body. */
  lemma BodyLayout(protocol: Int32, host: seq<Byte>, port: Port, state: Int32)
    requires |host| < 0x4000_0000
    ensures var body := HandshakeBody(protocol, host, port, state);
      var m2 := 1 + |Encode(protocol)|;
      var m3 := m2 + |Encode(|host|)|;
      var h := m3 + |host|;
      |body| == h + 3 &&
      body[0] == 0x00 && body[1 .. m2] == Encode(protocol) && body[m2 .. m3] == Encode(|host|) &&
      body[m3 .. h] == host && body[h] == port / 256 && body[h + 1] == port % 256 && body[h + 2] == state % 256
  {
    PiecesLayout(0x00 as Byte, Encode(protocol), Encode(|host|), host, port / 256, port % 256, state % 256);
  }

  /** A slice of `prefix + rest` past the prefix is a slice of `rest`. */
  lemma SliceAfterPrefix<T>(prefix: seq<T>, rest: seq<T>, i: nat, j: nat)
    requires i <= j <= |rest|
    ensures (prefix + rest)[|prefix| + i .. |prefix| + j] == rest[i .. j]
  {
  }

  /** Where each field of the handshake sits in the packet. */
  lemma HandshakeLayout(protocol: Int32, host: seq<Byte>, port: Port, state: Int32)
    requires |host| < 0x4000_0000
    ensures var body := HandshakeBody(protocol, host, port, state);
      var packet := Handshake(protocol, host, port, state);
      var n0 := |Encode(|body|)|;
      var n2 := n0 + 1 + |Encode(protocol)|;
      var n3 := n2 + |Encode(|host|)|;
      var h := n3 + |host|;
      |packet| == h + 3 && |packet| - n0 == |body| &&
      Decode(packet, 0) == Success(Decoded(|body|, n0)) &&
      packet[n0] == 0x00 && packet[n0 + 1 .. n2] == Encode(protocol) && packet[n2 .. n3] == Encode(|host|) &&
      packet[n3 .. h] == host && packet[h] == port / 256 && packet[h + 1] == port % 256 && packet[h + 2] == state % 256
  {
    var body := HandshakeBody(protocol, host, port, state);
    var prefix := Encode(|body|);
    EncodeDecodePrefix(|body|, body);
    BodyLayout(protocol, host, port, state);
    var m2 := 1 + |Encode(protocol)|;
    var m3 := m2 + |Encode(|host|)|;
    var h := m3 + |host|;
    SliceAfterPrefix(prefix, body, 1, m2);
    SliceAfterPrefix(prefix, body, m2, m3);
    SliceAfterPrefix(prefix, body, m3, h);
  }

  // ---------------------------------------------------------------------------------------
  // ping
  // ---------------------------------------------------------------------------------------

  /** What `ping` writes: the status handshake, then the status request. */
  function StatusRequest(endpoint: Endpoint, protocol: Int32): seq<Byte> {
    Handshake(protocol, Utf8(endpoint.host), endpoint.port, STATE_STATUS) + STATUS_REQUEST
  }

  /**
   * The response built from the status JSON: the version name and player counts when their
   * objects are present (each present object must hold both its keys), the defaults
   * otherwise; the protocol is always the caller's.
   */
  function StatusFromJson(document: StatusJson, protocol: Int32): (r: Result<PingResponse, ProbeError>)
    ensures r.Success? <==>
      (document.version.Some? ==> document.version.value.name.Some? && document.version.value.protocol.Some?) &&
      (document.players.Some? ==> document.players.value.online.Some? && document.players.value.max.Some?)
    ensures r.Success? ==> !r.value.isLegacy && !r.value.isUnlisted
    ensures r.Success? ==> r.value.protocol == protocol && r.value.description == document.description
    ensures r.Success? ==>
      r.value.version == (if document.version.None? then "Unknown" else document.version.value.name.value)
    ensures r.Success? && document.players.None? ==> r.value.players == 0 && r.value.maxPlayers == 0
    ensures r.Success? && document.players.Some? ==>
      r.value.players == document.players.value.online.value &&
      r.value.maxPlayers == document.players.value.max.value
  {
    var versionComplete := document.version.None? ||
      (document.version.value.name.Some? && document.version.value.protocol.Some?);
    var playersComplete := document.players.None? ||
      (document.players.value.online.Some? && document.players.value.max.Some?);
    if !versionComplete || !playersComplete then Failure(MalformedJson)
    else
      var versionName := if document.version.Some? then document.version.value.name.value else "Unknown";
      var online := if document.players.Some? then document.players.value.online.value else 0;
      var max := if document.players.Some? then document.players.value.max.value else 0;
      Success(Listed(versionName, protocol, online, max, document.description, false))
  }

  /** The status reply read from a stream holding `reply`; running out of bytes is end of stream. */
  function StatusReply(reply: seq<Byte>, protocol: Int32, parseJson: JsonParser, heap: Heap): (r: Result<PingResponse, ProbeError>)
    ensures r.Success? ==> r.value.protocol == protocol && !r.value.isLegacy && !r.value.isUnlisted
  {
    var length :- Decode(reply, 0);
    if length.value < 2 then Failure(IllegalPacketLength) else StatusPacket(reply, length.next, protocol, parseJson, heap)
  }

  /** The packet id, then the payload length and the payload. */
  function StatusPacket(reply: seq<Byte>, start: nat, protocol: Int32, parseJson: JsonParser, heap: Heap): (r: Result<PingResponse, ProbeError>)
    ensures r.Success? ==> r.value.protocol == protocol && !r.value.isLegacy && !r.value.isUnlisted
  {
    if start >= |reply| then Failure(EndOfStream)
    else if reply[start] != 0x00 then Failure(IllegalPacketId)
    else
      var size :- Decode(reply, start + 1);
      if size.value < 0 then Failure(NegativeArraySize)
      else if !heap(size.value) then Failure(OutOfMemory)
      else if size.next + size.value > |reply| then Failure(EndOfStream)
      else StatusPayload(reply[size.next .. size.next + size.value], protocol, parseJson)
  }

  /** The JSON payload: unreadable JSON fails, otherwise the keys are picked out. */
  function StatusPayload(json: seq<Byte>, protocol: Int32, parseJson: JsonParser): (r: Result<PingResponse, ProbeError>)
    ensures parseJson(json).None? ==> r == Failure(MalformedJson)
    ensures parseJson(json).Some? ==> r == StatusFromJson(parseJson(json).value, protocol)
  {
    match parseJson(json)
    case None => Failure(MalformedJson)
    case Some(document) => StatusFromJson(document, protocol)
  }

  /** On a connection the server keeps open, a read past its reply waits for the timeout. */
  function OnConnection<T>(r: Result<T, ProbeError>, closes: bool): (r': Result<T, ProbeError>)
    ensures r'.Success? <==> r.Success?
    ensures r.Success? ==> r' == r
  {
    if !closes && r == Failure(EndOfStream) then Failure(ReadTimedOut) else r
  }

  /** ping(endpoint, protocol, timeout). */
  function PingResult(endpoint: Endpoint, protocol: Int32, timeout: Int32,
                      network: Network, parseJson: JsonParser, heap: Heap): (r: Result<PingResponse, ProbeError>)
    ensures timeout < 0 ==> r == Failure(NegativeTimeout)
    ensures r.Success? ==> r.value.protocol == protocol && !r.value.isLegacy && !r.value.isUnlisted
  {
    if timeout < 0 then Failure(NegativeTimeout)
    else
      match network(endpoint, timeout, StatusRequest(endpoint, protocol))
      case Unreachable => Failure(ConnectionFailed)
      case Replied(reply, closes) => OnConnection(StatusReply(reply, protocol, parseJson, heap), closes)
  }

  method Ping(endpoint: Endpoint, protocol: Int32, timeout: Int32, network: Network, parseJson: JsonParser, heap: Heap)
    returns (r: Result<PingResponse, ProbeError>)
    ensures r == PingResult(endpoint, protocol, timeout, network, parseJson, heap)
  {
    if timeout < 0 {
      return Failure(NegativeTimeout);
    }
    var handshake := PrepareHandshake(protocol, endpoint.host, endpoint.port, STATE_STATUS);
    var connection := network(endpoint, timeout, handshake + STATUS_REQUEST);
    if connection.Unreachable? {
      return Failure(ConnectionFailed);
    }
    r := ReadStatus(connection.reply, protocol, parseJson, heap);
    r := OnConnection(r, connection.closes);
  }

  /** The reads `ping` makes once the request is written. */
  method ReadStatus(input: seq<Byte>, protocol: Int32, parseJson: JsonParser, heap: Heap) returns (r: Result<PingResponse, ProbeError>)
    ensures r == StatusReply(input, protocol, parseJson, heap)
  {
    var length := ReadVarInt(input, 0);
    if length.Failure? {
      return Failure(length.error);
    }
    if length.value.value < 2 {
      return Failure(IllegalPacketLength);
    }
    var cursor := length.value.next;
    if cursor >= |input| {
      return Failure(EndOfStream);
    }
    if input[cursor] != 0x00 {
      return Failure(IllegalPacketId);
    }
    var size := ReadVarInt(input, cursor + 1);
    if size.Failure? {
      return Failure(size.error);
    }
    if size.value.value < 0 {
      return Failure(NegativeArraySize);
    }
    if !heap(size.value.value) {
      return Failure(OutOfMemory);
    }
    cursor := size.value.next;
    if cursor + size.value.value > |input| {
      return Failure(EndOfStream);
    }
    var jsonData := input[cursor .. cursor + size.value.value];
    var document := parseJson(jsonData);
    if document.None? {
      return Failure(MalformedJson);
    }
    r := StatusFromJson(document.value, protocol);
  }

  /**
   * A well-framed status reply whose payload can be allocated is handed to the JSON reader,
   * whatever follows it.
   */
  lemma PingReadsFrame(length: Int32, json: seq<Byte>, rest: seq<Byte>, protocol: Int32, parseJson: JsonParser, heap: Heap)
    requires length >= 2 && |json| < 0x8000_0000 && heap(|json|)
    ensures StatusReply(Encode(length) + [0x00] + Encode(|json|) + json + rest, protocol, parseJson, heap)
         == StatusPayload(json, protocol, parseJson)
  {
    var reply := Encode(length) + [0x00] + Encode(|json|) + json + rest;
    var n0 := |Encode(length)|;
    var n2 := n0 + 1 + |Encode(|json|)|;
    assert reply[0 .. n0] == Encode(length);
    assert reply[n0] == 0x00;
    assert reply[n0 + 1 .. n2] == Encode(|json|);
    assert reply[n2 .. n2 + |json|] == json;
    StatusFrameAt(reply, length, n0, json, protocol, parseJson, heap);
  }

  /** A reply laid out as a status frame, located by its parts. */
  lemma StatusFrameAt(reply: seq<Byte>, length: Int32, n0: nat, json: seq<Byte>, protocol: Int32, parseJson: JsonParser, heap: Heap)
    requires length >= 2 && |json| < 0x8000_0000 && heap(|json|) && n0 == |Encode(length)|
    requires var n2 := n0 + 1 + |Encode(|json|)|;
      n2 + |json| <= |reply| && reply[0 .. n0] == Encode(length) && reply[n0] == 0x00 &&
      reply[n0 + 1 .. n2] == Encode(|json|) && reply[n2 .. n2 + |json|] == json
    ensures StatusReply(reply, protocol, parseJson, heap) == StatusPayload(json, protocol, parseJson)
  {
    StatusFrameLaidOut(reply, length, protocol, parseJson, heap);
    StatusPacketLaidOut(reply, n0, json, protocol, parseJson, heap);
  }

  /** The frame length as a VarInt is read back. */
  lemma StatusFrameLaidOut(reply: seq<Byte>, length: Int32, protocol: Int32, parseJson: JsonParser, heap: Heap)
    requires length >= 2 && |Encode(length)| <= |reply| && reply[0 .. |Encode(length)|] == Encode(length)
    ensures StatusReply(reply, protocol, parseJson, heap) == StatusPacket(reply, |Encode(length)|, protocol, parseJson, heap)
  {
    EncodeDecode(length, reply, 0);
    StatusReplyAt(reply, length, |Encode(length)|, protocol, parseJson, heap);
  }

  /** The packet id, the payload length as a VarInt and the payload are read back. */
  lemma StatusPacketLaidOut(reply: seq<Byte>, start: nat, json: seq<Byte>, protocol: Int32, parseJson: JsonParser, heap: Heap)
    requires |json| < 0x8000_0000 && heap(|json|)
    requires var next := start + 1 + |Encode(|json|)|;
      next + |json| <= |reply| && reply[start] == 0x00 &&
      reply[start + 1 .. next] == Encode(|json|) && reply[next .. next + |json|] == json
    ensures StatusPacket(reply, start, protocol, parseJson, heap) == StatusPayload(json, protocol, parseJson)
  {
    var next := start + 1 + |Encode(|json|)|;
    EncodeDecode(|json|, reply, start + 1);
    StatusPacketAt(reply, start, |json|, next, protocol, parseJson, heap);
  }

  lemma StatusReplyAt(reply: seq<Byte>, length: Int32, next: nat, protocol: Int32, parseJson: JsonParser, heap: Heap)
    requires length >= 2 && Decode(reply, 0) == Success(Decoded(length, next))
    ensures StatusReply(reply, protocol, parseJson, heap) == StatusPacket(reply, next, protocol, parseJson, heap)
  {
  }

  lemma StatusPacketAt(reply: seq<Byte>, start: nat, size: Int32, next: nat, protocol: Int32, parseJson: JsonParser, heap: Heap)
    requires start < |reply| && reply[start] == 0x00
    requires 0 <= size && heap(size) && next + size <= |reply| && Decode(reply, start + 1) == Success(Decoded(size, next))
    ensures StatusPacket(reply, start, protocol, parseJson, heap) == StatusPayload(reply[next .. next + size], protocol, parseJson)
  {
  }

  /**
   * The frame checks: a length below 2 is rejected whatever follows; after a good length a
   * missing id is end of stream and an id other than 0 is rejected.
   */
  lemma PingRejectsFrame(length: Int32, id: Byte, rest: seq<Byte>, protocol: Int32, parseJson: JsonParser, heap: Heap)
    ensures length < 2 ==> StatusReply(Encode(length) + rest, protocol, parseJson, heap) == Failure(IllegalPacketLength)
    ensures length >= 2 ==> StatusReply(Encode(length), protocol, parseJson, heap) == Failure(EndOfStream)
    ensures length >= 2 && id != 0x00 ==>
      StatusReply(Encode(length) + [id] + rest, protocol, parseJson, heap) == Failure(IllegalPacketId)
  {
    EncodeDecodePrefix(length, rest);
    EncodeDecodePrefix(length, []);
    assert Encode(length) + [] == Encode(length);
    EncodeDecodePrefix(length, [id] + rest);
    assert Encode(length) + [id] + rest == Encode(length) + ([id] + rest);
  }

  /**
   * A payload length the heap cannot hold ends the status ping with OutOfMemoryError before a
   * payload byte is read, whether or not the server sends them and keeps the connection open.
   */
  lemma PingOutOfMemory(endpoint: Endpoint, protocol: Int32, timeout: Int32, length: Int32, size: Int32,
                        rest: seq<Byte>, closes: bool, network: Network, parseJson: JsonParser, heap: Heap)
    requires timeout >= 0 && length >= 2 && size >= 0 && !heap(size)
    requires network(endpoint, timeout, StatusRequest(endpoint, protocol)) ==
             Replied(Encode(length) + [0x00] + Encode(size) + rest, closes)
    ensures PingResult(endpoint, protocol, timeout, network, parseJson, heap) == Failure(OutOfMemory)
  {
    var reply := Encode(length) + [0x00] + Encode(size) + rest;
    var n0 := |Encode(length)|;
    assert reply[0 .. n0] == Encode(length);
    StatusFrameLaidOut(reply, length, protocol, parseJson, heap);
    assert reply[n0] == 0x00;
    assert reply[n0 + 1 .. n0 + 1 + |Encode(size)|] == Encode(size);
    EncodeDecode(size, reply, n0 + 1);
  }

  // ---------------------------------------------------------------------------------------
  // legacyPing
  // ---------------------------------------------------------------------------------------

  /** DataInputStream.readShort: two bytes, big-endian, two's complement. */
  function Short(high: Byte, low: Byte): (v: int)
    ensures -0x8000 <= v < 0x8000
    ensures (v <= 0) == (high >= 0x80 || (high == 0 && low == 0))
  {
    var u := high * 256 + low;
    if u >= 0x8000 then u - 0x1_0000 else u
  }

  /** The code units an InputStreamReader(UTF_16BE) yields; a lone trailing byte is malformed. */
  function Utf16BeUnits(bytes: seq<Byte>): (units: seq<CodeUnit>)
    ensures |units| == (|bytes| + 1) / 2
  {
    if |bytes| == 0 then []
    else if |bytes| == 1 then [REPLACEMENT]
    else
      var unit: CodeUnit := bytes[0] as int * 256 + bytes[1] as int;
      [unit] + Utf16BeUnits(bytes[2..])
  }

  /** The status text the legacy reader collects: every code unit after the marker. */
  function LegacyStatusUnits(payload: seq<Byte>): (status: seq<CodeUnit>)
  {
    var units := Utf16BeUnits(payload);
    if |units| <= LEGACY_MARKER_UNITS then [] else units[LEGACY_MARKER_UNITS..]
  }

  /**
   * The legacy reader loop: `read(new char[3])` takes the marker, then one code unit at a time
   * is appended to the builder until the stream ends.
   */
  method ReadLegacyStatus(payload: seq<Byte>) returns (status: seq<CodeUnit>)
    ensures status == LegacyStatusUnits(payload)
  {
    var units := Utf16BeUnits(payload);
    var next := if |units| < LEGACY_MARKER_UNITS then |units| else LEGACY_MARKER_UNITS;
    status := [];
    while true
      invariant next <= |units|
      invariant LEGACY_MARKER_UNITS <= next ==> status == units[LEGACY_MARKER_UNITS .. next]
      invariant next < LEGACY_MARKER_UNITS ==> status == [] && next == |units|
      decreases |units| - next
    {
      if next == |units| {
        break;
      }
      status := status + [units[next]];
      next := next + 1;
    }
  }

  /** A code unit as a character; a surrogate half on its own is no character and reads as U+FFFD. */
  function UnitChar(u: CodeUnit): (c: char)
    ensures c as int == (if 0xD800 <= u < 0xE000 then REPLACEMENT else u)
  {
    if 0xD800 <= u < 0xE000 then REPLACEMENT as char else u as char
  }

  function UnitsString(units: seq<CodeUnit>): (s: string)
    ensures |s| == |units|
    ensures forall i :: 0 <= i < |units| ==> s[i] == UnitChar(units[i])
  {
    if units == [] then [] else [UnitChar(units[0])] + UnitsString(units[1..])
  }

  /** The response built from the split legacy fields: protocol, version, motd, online, max. */
  function LegacyFields(args: seq<string>): (r: Result<PingResponse, ProbeError>)
    ensures r.Success? <==>
      |args| >= 5 && ParseInt(args[0]).Some? && ParseInt(args[3]).Some? && ParseInt(args[4]).Some?
    ensures r.Success? ==> r.value.isLegacy && !r.value.isUnlisted
    ensures r.Success? ==>
      r.value.protocol == ParseInt(args[0]).value && r.value.version == args[1] &&
      r.value.description == Some(PlainText(args[2])) &&
      r.value.players == ParseInt(args[3]).value && r.value.maxPlayers == ParseInt(args[4]).value
  {
    if |args| < 5 then Failure(InvalidLegacyResponse)
    else
      match (ParseInt(args[0]), ParseInt(args[3]), ParseInt(args[4]))
      case (Some(protocol), Some(online), Some(max)) =>
        Success(Listed(args[1], protocol, online, max, Some(PlainText(args[2])), true))
      case _ => Failure(InvalidLegacyResponse)
  }

  /**
   * The legacy reply: id 0xFF, a positive signed length (otherwise unused), then UTF-16BE text
   * read until the server closes the connection.
   */
  function LegacyReply(reply: seq<Byte>, closes: bool): (r: Result<PingResponse, ProbeError>)
    ensures r.Success? ==> r.value.isLegacy && !r.value.isUnlisted
    ensures r.Success? ==> closes && |reply| >= 3 && reply[0] == LEGACY_RESPONSE_ID && Short(reply[1], reply[2]) > 0
  {
    var atEnd := if closes then EndOfStream else ReadTimedOut;
    if |reply| == 0 then Failure(if closes then InvalidLegacyId else ReadTimedOut)
    else if reply[0] != LEGACY_RESPONSE_ID then Failure(InvalidLegacyId)
    else if |reply| < 3 then Failure(atEnd)
    else if Short(reply[1], reply[2]) <= 0 then Failure(InvalidLegacyLength)
    else if !closes then Failure(ReadTimedOut)
    else LegacyFields(JavaSplit(UnitsString(LegacyStatusUnits(reply[3..])), NUL))
  }

  /** legacyPing(endpoint, timeout). */
  function LegacyPingResult(endpoint: Endpoint, timeout: Int32, network: Network): (r: Result<PingResponse, ProbeError>)
    ensures timeout < 0 ==> r == Failure(NegativeTimeout)
    ensures r.Success? ==> r.value.isLegacy && !r.value.isUnlisted
  {
    if timeout < 0 then Failure(NegativeTimeout)
    else
      match network(endpoint, timeout, LEGACY_REQUEST)
      case Unreachable => Failure(ConnectionFailed)
      case Replied(reply, closes) => LegacyReply(reply, closes)
  }

  method LegacyPing(endpoint: Endpoint, timeout: Int32, network: Network) returns (r: Result<PingResponse, ProbeError>)
    ensures r == LegacyPingResult(endpoint, timeout, network)
  {
    if timeout < 0 {
      return Failure(NegativeTimeout);
    }
    var connection := network(endpoint, timeout, LEGACY_REQUEST);
    if connection.Unreachable? {
      return Failure(ConnectionFailed);
    }
    var input := connection.reply;
    if |input| == 0 {
      return Failure(if connection.closes then InvalidLegacyId else ReadTimedOut);
    }
    if input[0] != LEGACY_RESPONSE_ID {
      return Failure(InvalidLegacyId);
    }
    if |input| < 3 {
      return Failure(if connection.closes then EndOfStream else ReadTimedOut);
    }
    var len := Short(input[1], input[2]);
    if len <= 0 {
      return Failure(InvalidLegacyLength);
    }
    if !connection.closes {
      return Failure(ReadTimedOut);
    }
    var status := ReadLegacyStatus(input[3..]);
    var args := JavaSplit(UnitsString(status), NUL);
    r := LegacyFields(args);
  }

  /** Only the sign of the legacy length field matters. */
  lemma LegacyLengthOnlyChecked(high: Byte, low: Byte, high': Byte, low': Byte, payload: seq<Byte>, closes: bool)
    requires Short(high, low) > 0 && Short(high', low') > 0
    ensures LegacyReply([LEGACY_RESPONSE_ID, high, low] + payload, closes)
         == LegacyReply([LEGACY_RESPONSE_ID, high', low'] + payload, closes)
  {
    assert ([LEGACY_RESPONSE_ID, high, low] + payload)[3..] == payload;
    assert ([LEGACY_RESPONSE_ID, high', low'] + payload)[3..] == payload;
  }

  /** Text every character of which is one UTF-16 code unit. */
  predicate Bmp(s: string) {
    forall i :: 0 <= i < |s| ==> s[i] as int < 0x1_0000
  }

  /** How a legacy server writes its text: each character as a big-endian code unit. */
  function Utf16BeEncode(s: string): (bytes: seq<Byte>)
    requires Bmp(s)
    ensures |bytes| == 2 * |s|
  {
    if s == [] then [] else [s[0] as int / 256, s[0] as int % 256] + Utf16BeEncode(s[1..])
  }

  /** The code units of BMP text. */
  function Units(s: string): (units: seq<CodeUnit>)
    requires Bmp(s)
    ensures |units| == |s|
    ensures forall i :: 0 <= i < |s| ==> units[i] == s[i] as int
  {
    if s == [] then [] else [s[0] as int] + Units(s[1..])
  }

  lemma {:induction false} Utf16BeDecodesEncode(s: string)
    requires Bmp(s)
    ensures Utf16BeUnits(Utf16BeEncode(s)) == Units(s)
  {
    if s != [] {
      var bytes := Utf16BeEncode(s);
      assert bytes[2..] == Utf16BeEncode(s[1..]);
      Utf16BeDecodesEncode(s[1..]);
    }
  }

  lemma UnitsStringOfUnits(s: string)
    requires Bmp(s)
    ensures UnitsString(Units(s)) == s
  {
  }

  /**
   * Round trip of the legacy reply: a closing server that answers 0xFF, a positive length and
   * a three-character marker followed by the five fields joined with NUL yields those fields,
   * provided the last field is not empty (Java's split drops trailing empty fields) and no
   * field holds NUL.
   */
  lemma LegacyRoundTrip(high: Byte, low: Byte, marker: string, fields: seq<string>)
    requires Short(high, low) > 0
    requires |marker| == LEGACY_MARKER_UNITS && |fields| == 5
    requires forall i :: 0 <= i < 5 ==> NUL !in fields[i]
    requires fields[4] != []
    requires Bmp(marker + Join(fields, NUL))
    requires ParseInt(fields[0]).Some? && ParseInt(fields[3]).Some? && ParseInt(fields[4]).Some?
    ensures LegacyReply([LEGACY_RESPONSE_ID, high, low] + Utf16BeEncode(marker + Join(fields, NUL)), true)
         == Success(Listed(fields[1], ParseInt(fields[0]).value, ParseInt(fields[3]).value,
                           ParseInt(fields[4]).value, Some(PlainText(fields[2])), true))
  {
    var text := marker + Join(fields, NUL);
    var payload := Utf16BeEncode(text);
    assert ([LEGACY_RESPONSE_ID, high, low] + payload)[3..] == payload;
    Utf16BeDecodesEncode(text);
    var rest := text[LEGACY_MARKER_UNITS..];
    assert rest == Join(fields, NUL);
    assert Units(text)[LEGACY_MARKER_UNITS..] == Units(rest);
    UnitsStringOfUnits(rest);
    JavaSplitJoin(fields, NUL);
  }

  /** A 1.8.9 server with 3 of 20 players online, as a legacy reply announces it. */
  lemma LegacyExample()
    ensures var text := "\U{A7}1\0" + Join(["47", "1.8.9", "A server", "3", "20"], NUL);
      Bmp(text) &&
      LegacyReply([LEGACY_RESPONSE_ID, 0, 20] + Utf16BeEncode(text), true)
        == Success(Listed("1.8.9", 47, 3, 20, Some(PlainText("A server")), true))
  {
    var fields := ["47", "1.8.9", "A server", "3", "20"];
    ExampleFields(fields);
    ExampleNumbers();
    LegacyRoundTrip(0, 20, "\U{A7}1\0", fields);
  }

  lemma ExampleFields(fields: seq<string>)
    requires fields == ["47", "1.8.9", "A server", "3", "20"]
    ensures forall i :: 0 <= i < 5 ==> NUL !in fields[i]
    ensures Bmp("\U{A7}1\0" + Join(fields, NUL))
  {
    JoinBmp(fields);
  }

  /** Text joined from BMP pieces with NUL is BMP text. */
  lemma {:induction false} JoinBmp(parts: seq<string>)
    requires |parts| >= 1 && forall i :: 0 <= i < |parts| ==> Bmp(parts[i])
    ensures Bmp(Join(parts, NUL))
  {
    if |parts| > 1 {
      JoinBmp(parts[1..]);
      var rest := Join(parts[1..], NUL);
      forall i | 0 <= i < |parts[0] + [NUL] + rest|
        ensures (parts[0] + [NUL] + rest)[i] as int < 0x1_0000
      {
        if i > |parts[0]| {
          assert (parts[0] + [NUL] + rest)[i] == rest[i - |parts[0]| - 1];
        }
      }
    }
  }

  lemma ExampleNumbers()
    ensures ParseInt("47") == Some(47) && ParseInt("3") == Some(3) && ParseInt("20") == Some(20)
  {
    assert "47"[..1] == "4" && "4"[..0] == "";
    assert DigitsValue("47") == 47;
    assert "3"[..0] == "";
    assert DigitsValue("3") == 3;
    assert "20"[..1] == "2" && "2"[..0] == "";
    assert DigitsValue("20") == 20;
  }

  // ---------------------------------------------------------------------------------------
  // tryJoin
  // ---------------------------------------------------------------------------------------

  /** What `tryJoin` writes: only the login handshake with protocol -1. */
  function LoginRequest(endpoint: Endpoint): seq<Byte> {
    Handshake(-1, Utf8(endpoint.host), endpoint.port, STATE_LOGIN)
  }

  /** The login probe's two checks on the reply; any failure to read counts as a refusal. */
  function LoginAccepted(reply: seq<Byte>): bool {
    match Decode(reply, 0)
    case Failure(_) => false
    case Success(length) =>
      length.value >= 2 &&
      match Decode(reply, length.next)
      case Failure(_) => false
      case Success(id) => id.value == 0
  }

  /** tryJoin(endpoint, timeout): never fails, any exception is `false`. */
  function JoinResult(endpoint: Endpoint, timeout: Int32, network: Network): bool {
    timeout >= 0 &&
    match network(endpoint, timeout, LoginRequest(endpoint))
    case Unreachable => false
    case Replied(reply, _) => LoginAccepted(reply)
  }

  method TryJoin(endpoint: Endpoint, timeout: Int32, network: Network) returns (joined: bool)
    ensures joined == JoinResult(endpoint, timeout, network)
  {
    if timeout < 0 {
      return false;
    }
    var handshake := PrepareHandshake(-1, endpoint.host, endpoint.port, STATE_LOGIN);
    var connection := network(endpoint, timeout, handshake);
    if connection.Unreachable? {
      return false;
    }
    var length := ReadVarInt(connection.reply, 0);
    if length.Failure? || length.value.value < 2 {
      return false;
    }
    var id := ReadVarInt(connection.reply, length.value.next);
    if id.Failure? || id.value.value != 0 {
      return false;
    }
    return true;
  }

  /** The login probe succeeds exactly when the first VarInt is at least 2 and the second is 0. */
  lemma LoginAcceptedFrames(length: Int32, id: Int32, rest: seq<Byte>)
    ensures LoginAccepted(Encode(length) + Encode(id) + rest) == (length >= 2 && id == 0)
  {
    var reply := Encode(length) + Encode(id) + rest;
    var n := |Encode(length)|;
    assert reply[0 .. n] == Encode(length);
    EncodeDecode(length, reply, 0);
    assert reply[n .. n + |Encode(id)|] == Encode(id);
    EncodeDecode(id, reply, n);
  }
}
