/** What can go wrong while talking to a server: the exceptions a probe can end with, and the one Error. */
module Wire {

  datatype ProbeError =
    | ConnectionFailed       // connect refused, reset or timed out (the network oracle's `Unreachable`)
    | NegativeTimeout        // Socket.setSoTimeout rejects a negative timeout
    | EndOfStream            // a read needed more bytes than the server sent
    | ReadTimedOut           // the server kept the connection open but sent nothing more
    | VarIntTooBig           // readVarInt met a fifth byte with the continuation bit
    | IllegalPacketLength    // status frame length below 2
    | IllegalPacketId        // status packet id other than 0
    | NegativeArraySize      // status payload length below 0
    | MalformedJson          // the payload is not a status object the code can read
    | InvalidLegacyId        // legacy reply does not start with 0xFF
    | InvalidLegacyLength    // legacy length field is 0 or negative
    | InvalidLegacyResponse  // fewer than five fields, or a numeric field does not parse
    | OutOfMemory            // `new byte[size]` for the status payload fails: an Error, not an Exception
}
