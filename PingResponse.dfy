/**
 * The classification of one endpoint. The Java class has only final fields, three
 * constructors (two public) and getters, so it is a value here; the getters are the
 * datatype's fields.
 */
module PingResponses {
  import opened Results
  import opened JavaLang

  /** The chat library's text: the legacy reply gives plain text, the status JSON a rich component. */
  datatype ChatComponent = PlainText(text: string) | JsonText(source: string)

  /** The private seven-argument constructor: every field as given. */
  datatype PingResponse = PingResponse(
    version: string,
    protocol: Int32,
    players: Int32,
    maxPlayers: Int32,
    description: Option<ChatComponent>,
    isLegacy: bool,
    isUnlisted: bool)

  /** `new PingResponse()`: a server that answered the login handshake but not the status query. */
  function Unlisted(): (r: PingResponse)
    ensures r.isUnlisted && !r.isLegacy
    ensures r.version == "Unknown" && r.protocol == 0 && r.players == 0 && r.maxPlayers == 0
    ensures r.description == None
  {
    PingResponse("Unknown", 0, 0, 0, None, false, true)
  }

  /** The public six-argument constructor: a server that answered a status query. */
  function Listed(version: string, protocol: Int32, players: Int32, maxPlayers: Int32,
                  description: Option<ChatComponent>, isLegacy: bool): (r: PingResponse)
    ensures !r.isUnlisted && r.isLegacy == isLegacy
    ensures r.version == version && r.protocol == protocol && r.description == description
    ensures r.players == players && r.maxPlayers == maxPlayers
  {
    PingResponse(version, protocol, players, maxPlayers, description, isLegacy, false)
  }

  /** The responses the two public constructors can produce. */
  ghost predicate Constructible(r: PingResponse) {
    r == Unlisted() || exists v, p, n, m, d, l :: r == Listed(v, p, n, m, d, l)
  }

  /**
   * No response built through the public constructors is both legacy and unlisted, and an
   * unlisted one carries only the sentinel values.
   */
  lemma ConstructibleInvariant(r: PingResponse)
    requires Constructible(r)
    ensures !(r.isLegacy && r.isUnlisted)
    ensures r.isUnlisted ==> r == Unlisted()
  {
  }

  /** Conversely, every response that is not both legacy and unlisted, and is the sentinel when unlisted, is constructible. */
  lemma InvariantConstructible(r: PingResponse)
    requires r.isUnlisted ==> r == Unlisted()
    ensures Constructible(r)
  {
    if !r.isUnlisted {
      assert r == Listed(r.version, r.protocol, r.players, r.maxPlayers, r.description, r.isLegacy);
    }
  }
}
