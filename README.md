# ngrok Minecraft scanner, modelled in Dafny

This project models the core of the ngrok Minecraft scanner. The scanner is a command-line tool that looks for Minecraft servers shared through ngrok's TCP tunnels. For that it:

- resolves ngrok's ten TCP host names (`0.tcp.ngrok.io` … `9.tcp.ngrok.io`, with an optional region label);
- generates every pair of a host and a port in ngrok's range [10000, 20000);
- splits the pairs into one chunk per worker thread;
- probes each endpoint with the probe ladder.

The ladder is:

1. the modern Server List Ping (a handshake, then a status request answered by JSON);
2. the pre-1.7 legacy ping (`0xFE 0x01`, answered in UTF-16BE);
3. a login handshake that detects servers with the listing disabled.

The modules follow the Java classes:

- `VarInt` is the protocol's variable-length integer, written and read the way `MinecraftPinger.writeVarInt`/`readVarInt` do it.
- `MinecraftPinger` covers the handshake packet, the three probes and their frame checks. The socket is a `Network` parameter. Given an endpoint, a read timeout and the bytes written, it says whether the server can be reached, what it answers, and whether it then closes the connection. The JSON reader is a `JsonParser` parameter that returns the keys the code looks at. Whether the JVM can allocate the status payload's byte array is a `Heap` parameter.
- `NgrokScanner` covers target generation, `split`, host-name resolution (DNS is a `Resolver` parameter) and the per-endpoint ladder with its callbacks. A worker stops at the first endpoint whose status payload cannot be allocated, because that OutOfMemoryError escapes every handler.
- `PingResponses` is the immutable result record, with its "unlisted" sentinel.
- `CommandLineOptions` is the option table, the lookup by key and the four value validators.
- `ScannerMain` covers `parseOptions` and the settings `run` derives from the option map.
- `JavaLang` holds what the code borrows from the Java platform:
  - `int`/`long` ranges and narrowing;
  - `Integer.parseInt` and `Long.parseLong`;
  - case folding;
  - `String.split` and `indexOf`;
  - UTF-8 encoding.
- `Wire` is the list of ways a probe can fail.
- `Results` holds `Option` and `Result`.

Each loop of the Java code that builds a value or a state is a method proved equal to a function, and the properties are proved about that function. The read-only search loop of `getByKey` is the recursive function `FindByKey`, and the user-name loop of `tryJoin` is not modelled (see "Left out"). Some behaviours of the code as written are kept deliberately:

- The modern ping's response carries the protocol number the caller asked for, not the one the server reports. It still fails when the server's `version` object lacks `protocol`.
- The legacy length field is only checked for sign.
- `tryJoin` writes only the login handshake.

## Model

| member | source | states |
|---|---|---|
| `JavaLang.Unsigned` | src/main/java/io/github/defective4/minecraft/ngrokscanner/MinecraftPinger.java:180 | the bit pattern `>>>` shifts: below 2^31 exactly for non-negative values, and equal to the value modulo 2^32 |
| `JavaLang.Signed` | src/main/java/io/github/defective4/minecraft/ngrokscanner/MinecraftPinger.java:160 | the `int` whose bit pattern is the accumulated 32 bits; it inverts `Unsigned` |
| `JavaLang.NarrowToInt` | src/main/java/io/github/defective4/minecraft/ngrokscanner/ScannerMain.java:285 | `(int)` of a `long` agrees with it modulo 2^32 and is the identity on the `int` range |
| `JavaLang.ParseDecimal` | src/main/java/io/github/defective4/minecraft/ngrokscanner/CommandLineOption.java:40 | a number is only read from a non-empty string, and is non-negative unless the string starts with '-' |
| `JavaLang.ParseInt` | src/main/java/io/github/defective4/minecraft/ngrokscanner/CommandLineOption.java:40 | `Integer.parseInt` succeeds exactly on a decimal literal whose value lies in the `int` range, and returns that value |
| `JavaLang.ParseLong` | src/main/java/io/github/defective4/minecraft/ngrokscanner/CommandLineOption.java:53 | `Long.parseLong` succeeds exactly on a decimal literal whose value lies in the `long` range, and returns that value |
| `JavaLang.ToLowerCase` | src/main/java/io/github/defective4/minecraft/ngrokscanner/CommandLineOption.java:33 | keeps the length, and lower-cases each letter in place |
| `JavaLang.IndexOf` | src/main/java/io/github/defective4/minecraft/ngrokscanner/ScannerMain.java:55 | -1 exactly when the character is absent; otherwise the index of its first occurrence |
| `JavaLang.SplitChars` | src/main/java/io/github/defective4/minecraft/ngrokscanner/ScannerMain.java:60 | `split("")` gives one string per character, and `[""]` for the empty string |
| `JavaLang.JavaSplit` | src/main/java/io/github/defective4/minecraft/ngrokscanner/MinecraftPinger.java:54 | `split` on one character: `[s]` when the character is absent; otherwise no trailing empty piece; no piece holds the separator |
| `JavaLang.SplitAll` | src/main/java/io/github/defective4/minecraft/ngrokscanner/MinecraftPinger.java:54 | the pieces between separators: at least one, none holding the separator, and `[s]` when there is none |
| `JavaLang.DropTrailingEmpty` | src/main/java/io/github/defective4/minecraft/ngrokscanner/MinecraftPinger.java:54 | a prefix of the pieces that ends in a non-empty piece, and drops only empty pieces |
| `JavaLang.SplitAllJoin` | src/main/java/io/github/defective4/minecraft/ngrokscanner/MinecraftPinger.java:54 | splitting pieces joined by a separator they do not hold gives the pieces back |
| `JavaLang.JavaSplitJoin` | src/main/java/io/github/defective4/minecraft/ngrokscanner/MinecraftPinger.java:54 | Java's split recovers two or more separator-free fields when the last one is not empty |
| `JavaLang.Utf8` | src/main/java/io/github/defective4/minecraft/ngrokscanner/MinecraftPinger.java:133 | `getBytes(UTF_8)` lays the characters' encodings end to end, one to four bytes per character |
| `JavaLang.Utf8Char` | src/main/java/io/github/defective4/minecraft/ngrokscanner/MinecraftPinger.java:133 | one byte, the character itself, below 0x80; otherwise two, three or four bytes by range, a lead byte 110xxxxx, 1110xxxx or 11110xxx followed by 10xxxxxx continuation bytes |
| `JavaLang.Utf8CharDecodes` | src/main/java/io/github/defective4/minecraft/ngrokscanner/MinecraftPinger.java:133 | the bytes of a character decode to that character and its width, whatever follows |
| `JavaLang.Utf8RoundTrip` | src/main/java/io/github/defective4/minecraft/ngrokscanner/MinecraftPinger.java:133 | decoding the UTF-8 bytes of a string gives the string back |
| `JavaLang.Utf8Injective` | src/main/java/io/github/defective4/minecraft/ngrokscanner/MinecraftPinger.java:133 | two strings have the same UTF-8 bytes exactly when they are equal |
| `VarInt.Groups` | src/main/java/io/github/defective4/minecraft/ngrokscanner/MinecraftPinger.java:172-182 | the writer emits at least one byte |
| `VarInt.GroupsContinue` | src/main/java/io/github/defective4/minecraft/ngrokscanner/MinecraftPinger.java:172-182 | every group but the last carries the continuation bit, and the last is below 0x80 |
| `VarInt.GroupsLength` | src/main/java/io/github/defective4/minecraft/ngrokscanner/MinecraftPinger.java:172-182 | the number of bytes for each range of the unsigned pattern (1 below 2^7 … 5 from 2^28) |
| `VarInt.Encode` | src/main/java/io/github/defective4/minecraft/ngrokscanner/MinecraftPinger.java:172-182 | 1 to 5 bytes; a value in [0,127] is the single byte equal to itself; a negative value takes 5 bytes |
| `VarInt.EncodeContinuation` | src/main/java/io/github/defective4/minecraft/ngrokscanner/MinecraftPinger.java:172-182 | 0x80 is set on every written byte except the last, which is below 0x80 |
| `VarInt.WriteVarInt` | src/main/java/io/github/defective4/minecraft/ngrokscanner/MinecraftPinger.java:172-182 | the writer loop emits exactly `Encode(value)` |
| `VarInt.Decode` | src/main/java/io/github/defective4/minecraft/ngrokscanner/MinecraftPinger.java:153-170 | a successful read consumes at least one and at most five bytes |
| `VarInt.ReadVarInt` | src/main/java/io/github/defective4/minecraft/ngrokscanner/MinecraftPinger.java:153-170 | the reader loop returns exactly `Decode(s, pos)` |
| `VarInt.DecodeGroups` | src/main/java/io/github/defective4/minecraft/ngrokscanner/MinecraftPinger.java:158-167 | reading the groups of a pattern from any shift yields the accumulated value and stops right after them |
| `VarInt.EncodeDecode` | src/main/java/io/github/defective4/minecraft/ngrokscanner/MinecraftPinger.java:153-182 | round trip: wherever `writeVarInt(v)` lies in a stream, `readVarInt` there returns `v` and consumes exactly those bytes |
| `VarInt.EncodeDecodePrefix` | src/main/java/io/github/defective4/minecraft/ngrokscanner/MinecraftPinger.java:153-182 | the round trip at the start of a stream, whatever follows |
| `VarInt.FiveContinuationBytes` | src/main/java/io/github/defective4/minecraft/ngrokscanner/MinecraftPinger.java:158-167 | five bytes that all carry the continuation bit fail with "VarInt is too big" |
| `VarInt.DecodeReadsAtMostFive` | src/main/java/io/github/defective4/minecraft/ngrokscanner/MinecraftPinger.java:158-167 | the reader's outcome depends only on the five bytes from its start |
| `PingResponses.Unlisted` | src/main/java/io/github/defective4/minecraft/ngrokscanner/PingResponse.java:16-18 | the no-argument constructor: version "Unknown", all numbers 0, no description, not legacy, unlisted |
| `PingResponses.Listed` | src/main/java/io/github/defective4/minecraft/ngrokscanner/PingResponse.java:20-23 | the public six-argument constructor: every getter returns its argument and `isUnlisted` is false |
| `PingResponses.ConstructibleInvariant` | src/main/java/io/github/defective4/minecraft/ngrokscanner/PingResponse.java:16-34 | no response the public constructors build is both legacy and unlisted; an unlisted one is the sentinel |
| `PingResponses.InvariantConstructible` | src/main/java/io/github/defective4/minecraft/ngrokscanner/PingResponse.java:16-34 | conversely, every response satisfying that invariant comes from a public constructor |
| `MinecraftPinger.HandshakeBody` | src/main/java/io/github/defective4/minecraft/ngrokscanner/MinecraftPinger.java:131-137 | the body is at most 14 bytes longer than the host bytes |
| `MinecraftPinger.PrepareHandshake` | src/main/java/io/github/defective4/minecraft/ngrokscanner/MinecraftPinger.java:127-151 | the two buffers produce `VarInt(|body|) ++ body`, where body is id 0, the protocol VarInt, the UTF-8 host with its length VarInt, the port big-endian and the state's low byte |
| `MinecraftPinger.HandshakeRoundTrip` | src/main/java/io/github/defective4/minecraft/ngrokscanner/MinecraftPinger.java:127-151 | a server reading the packet finds its length frame filled exactly, and reads back protocol, host bytes, port and `state & 0xFF` |
| `MinecraftPinger.HandshakeHostRoundTrip` | src/main/java/io/github/defective4/minecraft/ngrokscanner/MinecraftPinger.java:127-151 | the host bytes a server reads from a prepared handshake decode to the host name |
| `MinecraftPinger.StatusFromJson` | src/main/java/io/github/defective4/minecraft/ngrokscanner/MinecraftPinger.java:88-103 | succeeds exactly when each present `version`/`players` object has both its keys; then: not legacy, not unlisted, the caller's protocol, the description as given, version "Unknown" and players 0/0 when those objects are absent |
| `MinecraftPinger.StatusReply` | src/main/java/io/github/defective4/minecraft/ngrokscanner/MinecraftPinger.java:77-103 | a status read that succeeds reports the caller's protocol and is neither legacy nor unlisted |
| `MinecraftPinger.StatusPacket` | src/main/java/io/github/defective4/minecraft/ngrokscanner/MinecraftPinger.java:80-103 | the same for the part after the frame length |
| `MinecraftPinger.StatusPayload` | src/main/java/io/github/defective4/minecraft/ngrokscanner/MinecraftPinger.java:84-103 | unreadable JSON fails; readable JSON gives `StatusFromJson` of the document |
| `MinecraftPinger.OnConnection` | src/main/java/io/github/defective4/minecraft/ngrokscanner/MinecraftPinger.java:69 | on a connection the server keeps open, running out of bytes becomes a read timeout; successes are unchanged |
| `MinecraftPinger.PingResult` | src/main/java/io/github/defective4/minecraft/ngrokscanner/MinecraftPinger.java:67-105 | a negative timeout fails; a success reports the caller's protocol and is neither legacy nor unlisted |
| `MinecraftPinger.Ping` | src/main/java/io/github/defective4/minecraft/ngrokscanner/MinecraftPinger.java:67-105 | the probe writes handshake and request and returns exactly `PingResult` |
| `MinecraftPinger.ReadStatus` | src/main/java/io/github/defective4/minecraft/ngrokscanner/MinecraftPinger.java:77-103 | the reads after the request return exactly `StatusReply` |
| `MinecraftPinger.PingReadsFrame` | src/main/java/io/github/defective4/minecraft/ngrokscanner/MinecraftPinger.java:77-87 | a frame of length at least 2 with id 0 and a length-prefixed payload the heap can hold hands exactly that payload to the JSON reader, whatever follows |
| `MinecraftPinger.PingOutOfMemory` | src/main/java/io/github/defective4/minecraft/ngrokscanner/MinecraftPinger.java:77-85 | a payload length the heap cannot hold ends the ping with OutOfMemoryError, whether or not the payload follows and the connection stays open |
| `MinecraftPinger.PingRejectsFrame` | src/main/java/io/github/defective4/minecraft/ngrokscanner/MinecraftPinger.java:77-82 | a length below 2 is rejected; a good length with no id byte is end of stream; an id other than 0 is rejected |
| `MinecraftPinger.Short` | src/main/java/io/github/defective4/minecraft/ngrokscanner/MinecraftPinger.java:41-42 | `readShort` is a signed 16-bit value, and it is at most 0 exactly when the sign bit is set or both bytes are 0 |
| `MinecraftPinger.Utf16BeUnits` | src/main/java/io/github/defective4/minecraft/ngrokscanner/MinecraftPinger.java:45-53 | the UTF-16BE reader yields one code unit per byte pair; a lone trailing byte yields one replacement unit |
| `MinecraftPinger.ReadLegacyStatus` | src/main/java/io/github/defective4/minecraft/ngrokscanner/MinecraftPinger.java:44-53 | the reader loop collects every code unit after the three-unit marker |
| `MinecraftPinger.UnitChar` | src/main/java/io/github/defective4/minecraft/ngrokscanner/MinecraftPinger.java:50-51 | a code unit becomes its character; a surrogate half becomes U+FFFD |
| `MinecraftPinger.UnitsString` | src/main/java/io/github/defective4/minecraft/ngrokscanner/MinecraftPinger.java:44-54 | the builder's string has one character per collected unit, in order |
| `MinecraftPinger.LegacyFields` | src/main/java/io/github/defective4/minecraft/ngrokscanner/MinecraftPinger.java:54-63 | succeeds exactly with at least five fields whose fields 0, 3 and 4 parse as `int`; the fields map to protocol, version, motd, online and max; the result is legacy and not unlisted |
| `MinecraftPinger.LegacyReply` | src/main/java/io/github/defective4/minecraft/ngrokscanner/MinecraftPinger.java:39-63 | a success needs id 0xFF, a positive signed length and a server that closes the connection; it is legacy and not unlisted |
| `MinecraftPinger.LegacyPingResult` | src/main/java/io/github/defective4/minecraft/ngrokscanner/MinecraftPinger.java:30-65 | a negative timeout fails; a success is legacy and not unlisted |
| `MinecraftPinger.LegacyPing` | src/main/java/io/github/defective4/minecraft/ngrokscanner/MinecraftPinger.java:30-65 | the probe returns exactly `LegacyPingResult` |
| `MinecraftPinger.LegacyLengthOnlyChecked` | src/main/java/io/github/defective4/minecraft/ngrokscanner/MinecraftPinger.java:41-42 | any two positive length fields give the same outcome |
| `MinecraftPinger.LegacyRoundTrip` | src/main/java/io/github/defective4/minecraft/ngrokscanner/MinecraftPinger.java:39-63 | a closing server that answers 0xFF, a positive length, a three-character marker and five NUL-joined fields (last non-empty, numbers parseable) yields exactly those fields |
| `MinecraftPinger.LegacyExample` | src/main/java/io/github/defective4/minecraft/ngrokscanner/MinecraftPinger.java:39-63 | the reply made of the marker (U+00A7, "1", NUL) and the fields "47", "1.8.9", "A server", "3", "20" joined by NUL reads as a 1.8.9 server, protocol 47, with 3 of 20 players |
| `MinecraftPinger.Utf16BeDecodesEncode` | src/main/java/io/github/defective4/minecraft/ngrokscanner/MinecraftPinger.java:45 | the UTF-16BE reader recovers the code units of BMP text written as big-endian pairs |
| `MinecraftPinger.TryJoin` | src/main/java/io/github/defective4/minecraft/ngrokscanner/MinecraftPinger.java:107-125 | the probe writes only the login handshake with protocol -1 and state 2, never fails, and returns exactly `JoinResult` |
| `MinecraftPinger.LoginAcceptedFrames` | src/main/java/io/github/defective4/minecraft/ngrokscanner/MinecraftPinger.java:117-124 | the login probe accepts exactly when the first VarInt is at least 2 and the second is 0 |
| `NgrokScanner.PortRange` | src/main/java/io/github/defective4/minecraft/ngrokscanner/NgrokScanner.java:58 | the 10000 pairs of one host, with ports ascending from 10000 |
| `NgrokScanner.GenerateTargetAddresses` | src/main/java/io/github/defective4/minecraft/ngrokscanner/NgrokScanner.java:55-61 | the nested loops produce exactly `TargetAddresses(hosts)` |
| `NgrokScanner.TargetAddressesAppend` | src/main/java/io/github/defective4/minecraft/ngrokscanner/NgrokScanner.java:57-59 | the targets of two host lists are the targets of each, one after the other |
| `NgrokScanner.TargetAddressesAt` | src/main/java/io/github/defective4/minecraft/ngrokscanner/NgrokScanner.java:55-61 | exactly \|hosts\| × 10000 pairs, and pair k is `(hosts[k / 10000], 10000 + k % 10000)` |
| `NgrokScanner.TargetAddressesComplete` | src/main/java/io/github/defective4/minecraft/ngrokscanner/NgrokScanner.java:55-61 | every pair of a listed host and an ngrok port is a target, at its host-major place |
| `NgrokScanner.ChunkIndexMono` | src/main/java/io/github/defective4/minecraft/ngrokscanner/NgrokScanner.java:117-119 | the chunk index never decreases along the list |
| `NgrokScanner.ChunkIndexBelow` | src/main/java/io/github/defective4/minecraft/ngrokscanner/NgrokScanner.java:117-119 | elements of the list land in chunks below `parts` |
| `NgrokScanner.SplitOf` | src/main/java/io/github/defective4/minecraft/ngrokscanner/NgrokScanner.java:115-125 | the number of chunks is `NumChunks(n, parts)` |
| `NgrokScanner.Split` | src/main/java/io/github/defective4/minecraft/ngrokscanner/NgrokScanner.java:115-125 | the loop that pads with empty chunks and appends each element produces exactly `SplitOf(list, parts)` |
| `NgrokScanner.SplitFlattens` | src/main/java/io/github/defective4/minecraft/ngrokscanner/NgrokScanner.java:115-125 | the chunks, concatenated in order, are the input list |
| `NgrokScanner.SplitOfAt` | src/main/java/io/github/defective4/minecraft/ngrokscanner/NgrokScanner.java:117-121 | chunk c is the slice between the starts of chunks c and c + 1 |
| `NgrokScanner.SplitPlacement` | src/main/java/io/github/defective4/minecraft/ngrokscanner/NgrokScanner.java:117-121 | element i is in chunk ⌊i·parts/n⌋, at its offset from that chunk's start |
| `NgrokScanner.NumChunksBound` | src/main/java/io/github/defective4/minecraft/ngrokscanner/NgrokScanner.java:116-124 | at most `parts` chunks, and exactly `parts` when parts ≤ n |
| `NgrokScanner.SplitChunkCount` | src/main/java/io/github/defective4/minecraft/ngrokscanner/NgrokScanner.java:116-124 | never more than `parts` chunks; none for an empty list; with 1 ≤ parts ≤ n exactly `parts` chunks, none empty |
| `NgrokScanner.RegionInfix` | src/main/java/io/github/defective4/minecraft/ngrokscanner/NgrokScanner.java:64-65 | "." when the region is null or "us" in any case; otherwise the region between two dots |
| `NgrokScanner.NgrokHost` | src/main/java/io/github/defective4/minecraft/ngrokscanner/NgrokScanner.java:68 | host name x starts with the digit x and is 13 characters longer than the infix |
| `NgrokScanner.NgrokHostsDistinct` | src/main/java/io/github/defective4/minecraft/ngrokscanner/NgrokScanner.java:67-68 | the ten host names are pairwise different, whatever the region |
| `NgrokScanner.NgrokHostNoRegion` | src/main/java/io/github/defective4/minecraft/ngrokscanner/NgrokScanner.java:64-68 | without a region, host 0 is "0.tcp.ngrok.io" |
| `NgrokScanner.NgrokHostUs` | src/main/java/io/github/defective4/minecraft/ngrokscanner/NgrokScanner.java:64-68 | region "US" gives the bare name "3.tcp.ngrok.io" for host 3 |
| `NgrokScanner.NgrokHostEu` | src/main/java/io/github/defective4/minecraft/ngrokscanner/NgrokScanner.java:64-68 | region "eu" gives "9.tcp.eu.ngrok.io" for host 9 |
| `NgrokScanner.ResolveAllNgrokHostnames` | src/main/java/io/github/defective4/minecraft/ngrokscanner/NgrokScanner.java:63-80 | the loop builds exactly `ResolvedMap` and fires exactly `ResolveEvents` when a callback is given, none otherwise |
| `NgrokScanner.ResolvedMapKeys` | src/main/java/io/github/defective4/minecraft/ngrokscanner/NgrokScanner.java:66-72 | every key is one of the host names tried, and maps to the address it resolved to |
| `NgrokScanner.ResolvedMapValues` | src/main/java/io/github/defective4/minecraft/ngrokscanner/NgrokScanner.java:66-72 | an address is a value exactly when some host name tried resolved to it |
| `NgrokScanner.ResolvedMapInjective` | src/main/java/io/github/defective4/minecraft/ngrokscanner/NgrokScanner.java:72 | no two keys share an address |
| `NgrokScanner.ResolvedMapFirstWins` | src/main/java/io/github/defective4/minecraft/ngrokscanner/NgrokScanner.java:67-72 | host x is kept exactly when it resolves and no earlier host resolved to the same address |
| `NgrokScanner.ResolvedMapStep` | src/main/java/io/github/defective4/minecraft/ngrokscanner/NgrokScanner.java:71-72 | the step for host x puts it exactly when it resolves to an address no earlier host had |
| `NgrokScanner.ResolvedMapStable` | src/main/java/io/github/defective4/minecraft/ngrokscanner/NgrokScanner.java:67-72 | later steps never add or remove a host name already considered |
| `NgrokScanner.ResolveEventsAt` | src/main/java/io/github/defective4/minecraft/ngrokscanner/NgrokScanner.java:69-76 | the callback hears `resolving` then `resolved` (success flag and address) for each host, in order |
| `NgrokScanner.ResultToOption` | src/main/java/io/github/defective4/minecraft/ngrokscanner/NgrokScanner.java:89-91 | a probe's response is reported exactly when the probe succeeds |
| `NgrokScanner.Ladder` | src/main/java/io/github/defective4/minecraft/ngrokscanner/NgrokScanner.java:88-107 | the decision table of the worker's try block: one to three probes; a fatal ladder is the status ping alone and finds nothing; a legacy response comes from a final legacy ping, and an unlisted one is the sentinel from a final login probe (the `Ladder…` lemmas below give the rest) |
| `NgrokScanner.ProbeEndpoint` | src/main/java/io/github/defective4/minecraft/ngrokscanner/NgrokScanner.java:88-107 | the worker's try block finds exactly what `Ladder` finds, and raises an uncaught Error exactly when the ladder is fatal |
| `NgrokScanner.LadderForcedLegacy` | src/main/java/io/github/defective4/minecraft/ngrokscanner/NgrokScanner.java:89-91 | with legacy > 1 only the legacy ping is made, it is never fatal, and `join` makes no difference |
| `NgrokScanner.LadderOrder` | src/main/java/io/github/defective4/minecraft/ngrokscanner/NgrokScanner.java:92-105 | otherwise the status ping (protocol 754) comes first; the ladder is fatal exactly when that ping ran out of memory, and then nothing else is tried or found; the legacy ping comes exactly when legacy == 1 and that ping failed with an exception; the login probe comes exactly when `join` is set and every ping failed with an exception, and it comes last |
| `NgrokScanner.LadderFoundSource` | src/main/java/io/github/defective4/minecraft/ngrokscanner/NgrokScanner.java:89-106 | a legacy response comes only from a final legacy ping; the unlisted sentinel comes only from an accepted login probe; any other response is the status ping's, with protocol 754 |
| `NgrokScanner.LadderReports` | src/main/java/io/github/defective4/minecraft/ngrokscanner/NgrokScanner.java:89-106 | the converse: forced legacy mode reports the legacy ping's response; otherwise a successful status ping is reported, then a successful legacy fallback, and a login probe reports the unlisted sentinel exactly when `tryJoin` returns true |
| `NgrokScanner.LadderNegativeTimeout` | src/main/java/io/github/defective4/minecraft/ngrokscanner/NgrokScanner.java:89-105 | with a negative timeout every probe fails and nothing is discovered |
| `NgrokScanner.PrefixBefore` | src/main/java/io/github/defective4/minecraft/ngrokscanner/NgrokScanner.java:86-110 | the length of the longest prefix free of stopping elements: every element before it goes on, and the element at it stops |
| `NgrokScanner.Completed` | src/main/java/io/github/defective4/minecraft/ngrokscanner/NgrokScanner.java:86-110 | the pairs a worker gets through are those before its first fatal pair, or the whole chunk |
| `NgrokScanner.CompletedStep` | src/main/java/io/github/defective4/minecraft/ngrokscanner/NgrokScanner.java:86-110 | after completing `i` pairs a worker stops for good at a fatal pair `i` and completes it otherwise |
| `NgrokScanner.ReportAllStep` | src/main/java/io/github/defective4/minecraft/ngrokscanner/NgrokScanner.java:86-110 | finishing a pair appends exactly its `discovered` (when found) and `scanned` callbacks to the trace |
| `NgrokScanner.RunWorker` | src/main/java/io/github/defective4/minecraft/ngrokscanner/NgrokScanner.java:86-110 | the worker loop fires exactly `WorkerEvents` for its chunk, stopping at the first fatal pair |
| `NgrokScanner.Scan` | src/main/java/io/github/defective4/minecraft/ngrokscanner/NgrokScanner.java:82-113 | one trace per chunk, each the events of that chunk's worker up to its first fatal pair |
| `NgrokScanner.ScannedPairsAppend` | src/main/java/io/github/defective4/minecraft/ngrokscanner/NgrokScanner.java:86-110 | the scanned pairs of two traces are those of each, one after the other |
| `NgrokScanner.ReportScansOnce` | src/main/java/io/github/defective4/minecraft/ngrokscanner/NgrokScanner.java:106-109 | one pair's callbacks report that pair as scanned exactly once |
| `NgrokScanner.ReportAllScans` | src/main/java/io/github/defective4/minecraft/ngrokscanner/NgrokScanner.java:86-110 | the reports of completed pairs name each pair as scanned exactly once, in order |
| `NgrokScanner.ReportAllHas` | src/main/java/io/github/defective4/minecraft/ngrokscanner/NgrokScanner.java:86-110 | every callback of a pair's report is among the reports of a chunk holding that pair |
| `NgrokScanner.ReportAllShape` | src/main/java/io/github/defective4/minecraft/ngrokscanner/NgrokScanner.java:86-110 | one or two events per completed pair, each `discovered` followed by its pair's `scanned` |
| `NgrokScanner.WorkerScansInOrder` | src/main/java/io/github/defective4/minecraft/ngrokscanner/NgrokScanner.java:86-110 | the pairs reported scanned are the completed prefix of the chunk, each once and in chunk order; with no fatal pair, the whole chunk |
| `NgrokScanner.WorkerEventShape` | src/main/java/io/github/defective4/minecraft/ngrokscanner/NgrokScanner.java:86-110 | one or two events per completed pair; each `discovered` carries the ladder's response for its endpoint and is followed by that pair's `scanned`; a trace that completed a pair ends with `scanned` |
| `NgrokScanner.WorkerReportsFound` | src/main/java/io/github/defective4/minecraft/ngrokscanner/NgrokScanner.java:86-110 | every completed pair gets `scanned`, and `discovered` with what the ladder found whenever it found something |
| `NgrokScanner.ScanCoversSplit` | src/main/java/io/github/defective4/minecraft/ngrokscanner/NgrokScanner.java:82-125 | scanning the chunks of `split` reports, chunk after chunk, each chunk's completed prefix; with no fatal pair that is every target exactly once |
| `CommandLineOptions.Key` | src/main/java/io/github/defective4/minecraft/ngrokscanner/CommandLineOption.java:6-59 | every key is one character |
| `CommandLineOptions.ValuesComplete` | src/main/java/io/github/defective4/minecraft/ngrokscanner/CommandLineOption.java:78 | `values()` lists every option exactly once |
| `CommandLineOptions.KeysDistinct` | src/main/java/io/github/defective4/minecraft/ngrokscanner/CommandLineOption.java:6-59 | keys are pairwise distinct, case-sensitively (J/j, L/l) |
| `CommandLineOptions.ArgumentIffParser` | src/main/java/io/github/defective4/minecraft/ngrokscanner/CommandLineOption.java:20-58 | exactly OUTPUT, REGION, THREADS and TIMEOUT have an argument, and exactly those have a parser |
| `CommandLineOptions.FindByKey` | src/main/java/io/github/defective4/minecraft/ngrokscanner/CommandLineOption.java:78-79 | a found option is in the list and has the key; none is found only when no listed option has it |
| `CommandLineOptions.GetByKey` | src/main/java/io/github/defective4/minecraft/ngrokscanner/CommandLineOption.java:77-80 | an option is returned exactly when one has the key, and it has that key |
| `CommandLineOptions.GetByKeyRoundTrip` | src/main/java/io/github/defective4/minecraft/ngrokscanner/CommandLineOption.java:77-80 | looking an option up by its key finds it, and no other key finds it |
| `CommandLineOptions.ValidateOutput` | src/main/java/io/github/defective4/minecraft/ngrokscanner/CommandLineOption.java:24-28 | accepts exactly paths that are not directories; otherwise "File … is a directory!" |
| `CommandLineOptions.ValidateRegion` | src/main/java/io/github/defective4/minecraft/ngrokscanner/CommandLineOption.java:33-36 | accepts exactly inputs whose lower case is "eu" or "us"; otherwise `Unknown region "…"` |
| `CommandLineOptions.ValidateThreads` | src/main/java/io/github/defective4/minecraft/ngrokscanner/CommandLineOption.java:38-46 | accepts exactly an `int` greater than 0; a non-number and a non-positive number get their two messages |
| `CommandLineOptions.ValidateTimeout` | src/main/java/io/github/defective4/minecraft/ngrokscanner/CommandLineOption.java:51-57 | accepts exactly a parseable `long`; otherwise "Invalid number: …" |
| `CommandLineOptions.RegionAcceptsExactly` | src/main/java/io/github/defective4/minecraft/ngrokscanner/CommandLineOption.java:33-36 | the region validator accepts exactly the eight case variants of "eu" and "us" |
| `CommandLineOptions.TimeoutAcceptsNonPositive` | src/main/java/io/github/defective4/minecraft/ngrokscanner/CommandLineOption.java:38-57 | TIMEOUT accepts "0" and "-1"; THREADS rejects "0" as not greater than 0 and "two" as not a number |
| `ScannerMain.ParseSwitch` | src/main/java/io/github/defective4/minecraft/ngrokscanner/ScannerMain.java:52-62 | an argument names at least one key, and has a value exactly when it holds '=' |
| `ScannerMain.KeyOption` | src/main/java/io/github/defective4/minecraft/ngrokscanner/ScannerMain.java:64-83 | a key passes exactly when it names an option whose value suits it; the four error messages: unknown option, missing arguments, the validator's message, no arguments accepted |
| `ScannerMain.PutKeys` | src/main/java/io/github/defective4/minecraft/ngrokscanner/ScannerMain.java:63-86 | the inner loop produces exactly `ApplyKeys` |
| `ScannerMain.ParseOptions` | src/main/java/io/github/defective4/minecraft/ngrokscanner/ScannerMain.java:48-90 | the outer loop, with its early returns, produces exactly `ParsedOptions` |
| `ScannerMain.ApplyKeysStops` | src/main/java/io/github/defective4/minecraft/ngrokscanner/ScannerMain.java:64-83 | after the first bad key the other keys are never looked at |
| `ScannerMain.ApplyArgsStops` | src/main/java/io/github/defective4/minecraft/ngrokscanner/ScannerMain.java:64-83 | after the first bad argument the later ones are never looked at |
| `ScannerMain.ApplyArgsAppend` | src/main/java/io/github/defective4/minecraft/ngrokscanner/ScannerMain.java:51-87 | parsing `a + b` is parsing `a`, then continuing with `b` from its result |
| `ScannerMain.PlainArgumentIgnored` | src/main/java/io/github/defective4/minecraft/ngrokscanner/ScannerMain.java:51 | an argument not starting with '-' changes nothing, wherever it stands |
| `ScannerMain.ApplyKeysWellFormed` | src/main/java/io/github/defective4/minecraft/ngrokscanner/ScannerMain.java:70-85 | applying keys keeps every stored value suited to its option |
| `ScannerMain.ApplyArgsWellFormed` | src/main/java/io/github/defective4/minecraft/ngrokscanner/ScannerMain.java:70-85 | the same across arguments |
| `ScannerMain.ParsedOptionsWellFormed` | src/main/java/io/github/defective4/minecraft/ngrokscanner/ScannerMain.java:70-85 | in a successful parse every option has a value its validator accepted, or none if it is a flag |
| `ScannerMain.ApplyKeysSets` | src/main/java/io/github/defective4/minecraft/ngrokscanner/ScannerMain.java:85 | each key's option maps to the shared value; other options are untouched; nothing else is added |
| `ScannerMain.LastOccurrenceWins` | src/main/java/io/github/defective4/minecraft/ngrokscanner/ScannerMain.java:85-89 | after a successful parse every key of the last switch maps to that switch's value |
| `ScannerMain.IndexOfAfterName` | src/main/java/io/github/defective4/minecraft/ngrokscanner/ScannerMain.java:55 | the first '=' after a name free of '=' is the one that follows the name |
| `ScannerMain.LongSwitch` | src/main/java/io/github/defective4/minecraft/ngrokscanner/ScannerMain.java:52-62 | "--name" names the single key `name` with no value |
| `ScannerMain.LongSwitchValue` | src/main/java/io/github/defective4/minecraft/ngrokscanner/ScannerMain.java:52-62 | "--name=v" gives `name` the value `v`, which may itself hold '=' |
| `ScannerMain.ShortSwitch` | src/main/java/io/github/defective4/minecraft/ngrokscanner/ScannerMain.java:52-62 | "-abc" names one key per letter |
| `ScannerMain.ShortSwitchValue` | src/main/java/io/github/defective4/minecraft/ngrokscanner/ScannerMain.java:52-62 | "-abc=v" gives every letter's key the value `v` |
| `ScannerMain.BareDashSwitch` | src/main/java/io/github/defective4/minecraft/ngrokscanner/ScannerMain.java:52-62 | a bare "-" or "--" names the single empty key |
| `ScannerMain.EmptyKeyNoOption` | src/main/java/io/github/defective4/minecraft/ngrokscanner/CommandLineOption.java:77-80 | no option has the empty key |
| `ScannerMain.EmptyKeyUnknown` | src/main/java/io/github/defective4/minecraft/ngrokscanner/ScannerMain.java:64-68 | the empty key fails with `Unknown option ""` |
| `ScannerMain.BareDashIsUnknown` | src/main/java/io/github/defective4/minecraft/ngrokscanner/ScannerMain.java:51-68 | the arguments "-" and "--" each make the parse fail with `Unknown option ""` |
| `ScannerMain.LegacyMode` | src/main/java/io/github/defective4/minecraft/ngrokscanner/ScannerMain.java:284 | 2 exactly with FORCE_LEGACY_PING, 1 exactly with LEGACY_PING alone, 0 otherwise |
| `ScannerMain.Configure` | src/main/java/io/github/defective4/minecraft/ngrokscanner/ScannerMain.java:145-153 | region, threads and timeout are the given values parsed, or "us", 2 and 1000; protocol 754; threads ≥ 1; the region is "eu" or "us" in some case; the legacy, join, skip-empty and resolve switches |
| `ScannerMain.ScanTimeout` | src/main/java/io/github/defective4/minecraft/ngrokscanner/ScannerMain.java:285 | the `(int)` timeout given to `scan` agrees with the `long` modulo 2^32, and equals it within the `int` range |
| `ScannerMain.ScanTimeoutWraps` | src/main/java/io/github/defective4/minecraft/ngrokscanner/ScannerMain.java:285 | a timeout of 4294968296 ms reaches the probes as 1000 ms |
| `ScannerMain.MainAction` | src/main/java/io/github/defective4/minecraft/ngrokscanner/ScannerMain.java:38-46 | a parse error exactly when the parse fails, carrying the parse's message; help exactly when HELP is present; otherwise a run whose settings are `Configure` of the parsed, well-formed option map, with at least one thread |
| `ScannerMain.NoArgumentsDefaults` | src/main/java/io/github/defective4/minecraft/ngrokscanner/ScannerMain.java:145-153 | with no arguments: region "us", 2 threads, 1000 ms, protocol 754, no legacy ping, no join, no filter, resolution on |
| `ScannerMain.ForceLegacyMeansLegacyOnly` | src/main/java/io/github/defective4/minecraft/ngrokscanner/ScannerMain.java:284 | with "-L" every endpoint's ladder is a single legacy ping |
| `ScannerMain.Shown` | src/main/java/io/github/defective4/minecraft/ngrokscanner/ScannerMain.java:257 | without SKIP_EMPTY everything is printed; with it, exactly the unlisted results and those with players online |
| `ScannerMain.UnlistedAlwaysShown` | src/main/java/io/github/defective4/minecraft/ngrokscanner/ScannerMain.java:257 | the unlisted sentinel is always printed |
| `ScannerMain.UnresolvedHosts` | src/main/java/io/github/defective4/minecraft/ngrokscanner/ScannerMain.java:205-210 | without resolution the map's keys are the ten host names of the region, each mapped to itself |
| `ScannerMain.UnresolvedHostCount` | src/main/java/io/github/defective4/minecraft/ngrokscanner/ScannerMain.java:207-210 | those are ten different host names |

## Left out

- Sockets are left out: connecting, `setSoTimeout` and the stream reads and writes themselves. A probe gets the server's whole answer from the `Network` parameter as one byte sequence. Partial reads, timing, and what a zero timeout means in Java are not modelled; only a negative timeout is rejected, as `setSoTimeout` rejects it.
- The error kinds on a connection the server keeps open are approximate. Any read past the answer is a read timeout (`OnConnection`, and `LegacyReply` before the reader loop). Which exception Java raises first in each such case is not distinguished, because every `catch (Exception e)` treats all exceptions alike.
- Only one allocation can fail for lack of memory: `new byte[...]` for the status payload (MinecraftPinger.java:84). Whether it succeeds is the `Heap` parameter. Its OutOfMemoryError is an Error, not an Exception, so no handler of `scan` catches it and the worker thread dies (`Outcome.fatal`). Running out of memory anywhere else (the legacy reader's `StringBuilder`, the JSON parser) is not modelled, nor is the stack trace the dying thread prints.
- The worker threads of `scan` run concurrently in Java. The model gives one callback trace per worker and says nothing about how the traces interleave.
- The synchronized `progress` counter and its console output (ScannerMain.java:135-141) are left out, because they are concurrency and I/O.
- DNS (`InetAddress.getByName`) is the `Resolver` parameter. `printStackTrace` on a failed lookup is left out.
- Gson and the chat library are foreign code. The status JSON is a `StatusJson` record with optional keys, read by the `JsonParser` parameter. A key of the wrong JSON type, and a `description` that `ChatComponent.fromJson` rejects, both appear as an unreadable document or key. `PingResponse.toJson` and `toString` are not modelled.
- These parts of the user interface are left out because they are I/O: `printHelp`, `askYN`, `System.exit`, console formatting, the verbose flag, `Thread.sleep` and writing discovered servers to the output file. For the same reason `run`'s abort paths are left out: a declined prompt, an empty host map, and a failure to open the output file.
- `File.isDirectory` in the OUTPUT validator is the `FileSystem` parameter.
- `run` builds the targets from `map.values()`, which comes in `HashMap` order. `NgrokScanner.GenerateTargetAddresses` takes the host list in whatever order it is given.
- ScannerMain.java:153 and 167 use an option `PROTOCOL` that `CommandLineOption` does not declare, and ScannerMain.java:284-285 pass six arguments to the five-parameter `scan`. The model follows `CommandLineOption` and `NgrokScanner` as declared: `ScannerMain.Configure` always yields protocol 754, and the status ping of `scan` hard-codes 754.
- The loop in `tryJoin` that builds a random user name (MinecraftPinger.java:114-115) is left out, because the name is never sent. `tryJoin` writes only the handshake.
- NgrokScanner.Split: requires `parts >= 1`. The only caller passes a thread count that the THREADS validator made positive. What the double division does for zero or negative parts is not modelled.
- NgrokScanner.ChunkIndex: the chunk of element `i` is `(int) (i / (n / (double) parts))`. The model computes it exactly as ⌊i·parts/n⌋; double rounding is abstracted away.
- MinecraftPinger.HostString: host names are shorter than 2^28 characters, so the UTF-8 host and the handshake length fit a VarInt without wrapping. Longer host names are not modelled.
- MinecraftPinger.ReadLegacyStatus: `reader.read(new char[3])` is taken to read min(3, available) code units. A `Reader` may legally return fewer, and that is not modelled.
- MinecraftPinger.UnitChar: a surrogate code unit becomes U+FFFD, because a Dafny `char` is a Unicode scalar value. Java keeps a surrogate pair as two `char`s, so legacy text with characters outside the Basic Multilingual Plane is not modelled faithfully. UTF-16BE decoding is otherwise one code unit per byte pair.
- JavaLang.ToLowerCase: folds ASCII letters only. `String.toLowerCase` also maps non-ASCII letters, so non-ASCII region strings are not modelled faithfully.
- JavaLang.EqualsIgnoreCase: compares the ASCII-folded strings. Java also matches characters whose upper-case forms agree (such as U+017F against 's'), and the model does not.
- JavaLang.SplitChars: splits into Unicode scalar values, and `JavaLang.IndexOf` counts them, because a Dafny `string` holds scalar values. Java counts UTF-16 code units, so an option key with a character outside the Basic Multilingual Plane is split differently. For example `-😀` splits into two lone surrogates in Java, and the `Unknown option` error names a different key than in the model.
- JavaLang.ParseDecimal: accepts ASCII digits only. `Integer.parseInt` and `Long.parseLong` also accept other Unicode decimal digits.
