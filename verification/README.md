# LAppS, verified

LAppS is a WebSocket application server. This project models the parts of it that are hard to get right and proves what
they are for. `dfyconfig.toml` names all its files.

The parts, each a value-level specification with theorems and the code's own loops and fields proved against it:

- **The stream parser** (`Wire`, `StreamSpec`, `Chunking`, `FrameGrammar`, `StreamTheorems`, `Refusals`, `Words`,
  `ParserSteps`, `StreamParser`): a machine that can stop after any byte and resume in the next buffer, for servers and clients.
  `StreamSpec` reads a byte at a time, `FrameGrammar` knows whole frames, `StreamParser.Parser` has the real fields,
  states and word-wise unmasking.
- **The frame printers and the text validator** (`Printers`, `Utf8`, `RoundTrips`): what is printed is what is parsed.
- **A connection and its end** (`Connection`, `Replies`, `CloseSequence`, `CloseAccounts`, `CloseAnswers`): the input
  loop and responses in place, what a stream is answered with, and the close sequence over all interleavings of I/O
  workers and service.
- **The robin-hood hash table** (`GrowthPolicy`, `RobinBuckets`, `RobinHash`): buckets displaced and shifted in place,
  against a plain map.
- **The CBOR codec** (`Cbor`, `CborEncoder`, `CborDecoder`, `CborRoundTrip`, and `CborNumbers`, `CborText`,
  `CborObjects`, `CborLengths`, `CborReads`, `CborPieces`, `CborForms`, `CborFormsRead`, `CborPrefix`): printer over a
  growing buffer, recursive parser, exactly which values survive both, and what the parser makes of every other way to
  write a value.
- **The statistics gate** (`StatsMachine`, `StatsGate`, `StatsHistory`, `StatsValues`): a lock-free gate as atomic steps
  of any number of threads, and what the table behind it holds after any run.
- **Registry, deployer and broadcast** (`Registry`, `RegistryAnswers`, `ServiceStart`, `ServiceReach`, `Deployer`, `Broadcast`).
- **The opening handshake** (`Handshake`, `HandshakeRules`): both printers and both parsers, and exactly what each end
  accepts.

Where a promise does not hold of the code on all inputs, the code is kept, the exact condition is proved, and a lemma
gives an input on the failing side:

- a limit below 125: `ChunkingInvisibleExactly`, `GrammarFollowedExactly`, `EventsIndependentExactly` and
  `MessagesBoundedExactly`; `SmallLimitShowsChunking`, `SmallLimitBreaksGrammar` and `SmallLimitQueues`,
- empty client messages: `MaskedRoundTripExactly`; `EmptyMessageLost`,
- an empty frame at the end of a client's input: `EmptyMessageWaitsExactly`; `EmptyMessageWaits`,
- two bytes too many given to the validator of a Close reason: `StaleDecides`; `StaleCompletes`,
- text units from 0xE000 on, lone surrogates and `__proto__` keys: `RoundTripExactly`; `NotComingBack`,
- buffers beyond 2^30 bytes: `GrowthEndsExactly`; `GrowthStalls`,
- dependency loops: `ReturnsExactly`; `TwoServiceLoop`,
- several kinds under one name, one target under several names: `NoDanglingExactly` and `ReachableExactly`;
  `TwoKindsDangle`, `SharedTargetLost` and `EmptyTargetLost`,
- configured headers that repeat the accepted key: `ClientUnderstands`; `ForgedAcceptRefused`,
- blanks in a target: `TargetExactly`; `BlankTargetCut`,
- a line end in front of a request: `LeadingBreakMisread`, on all of them.

Bytes are the integers 0 to 255; masks and shifts of the source are written as division and remainder, and exclusive-or
is defined on the binary digits of natural numbers (`Bits`).

## Model

| member | source | states |
|---|---|---|
| `Wire.MaskedTwice` | include/WSStreamServerParser.h:175-211 | masking with the same key twice gives back the payload (section 5.3 of RFC 6455) |
| `Words.XorWord` | include/WSStreamServerParser.h:194-202 | one 64-bit exclusive-or, at a payload offset where the key starts over, masks each of the eight bytes with the key byte of its own offset |
| `Words.WordStep` | include/WSStreamServerParser.h:194-202 | the same for the words themselves: storing the exclusive-or of two loaded words is byte-wise masking |
| `Chunking.ScanResumes` | include/WSStreamServerParser.h:330-403 | one call on a stream is one call on a beginning of it continued on the rest: stopping after any byte and resuming loses and repeats nothing |
| `Chunking.ScanBounded` | include/WSStreamParser.h:138-160 | under a limit of at least 125, no call delivers a data message over the limit or a control message over 125 bytes |
| `Chunking.RunSplit` | include/WebSocket.h:391-427 | the driver loop on a stream is the loop on a beginning of it followed by the loop on the rest, messages and closing code alike |
| `Chunking.ChunksAreTheStream` | include/WebSocket.h:354-427 | for every stream and every division of it into chunks, the messages delivered and the closing code are those of the undivided stream |
| `FrameGrammar.ScanFrame` | include/WSStreamServerParser.h:330-403 | a whole frame in front of a stream, in any of the three length forms, has exactly the effect of the frame as a value, and the bytes after it are untouched |
| `FrameGrammar.ScanBody` | include/WSStreamServerParser.h:166-305 | the payload bytes of a frame, from wherever reading was suspended, come out as the masked bytes with their own offsets |
| `StreamTheorems.RunFrames` | include/WSStreamServerParser.h:330-424 | a stream of frames is parsed into exactly the messages those frames carry, with a refused frame ending it |
| `StreamTheorems.DeframeBytes` | include/WSStreamServerParser.h:330-403 | every stream of bytes is a list of frames followed by the beginning of one |
| `StreamTheorems.IncompleteDeliversNothing` | include/WSStreamServerParser.h:166-403 | the beginning of a frame delivers no message, at a server or a client |
| `StreamTheorems.ClosedInsideFrame` | include/WSStreamServerParser.h:330-403 | a connection closed inside a frame is closed with the code that every completion of that frame would be refused with |
| `StreamTheorems.DeframeFrames` | include/WSStreamServerParser.h:330-403 | the frame grammar is unambiguous: frames followed by the beginning of one are taken apart into just these |
| `StreamTheorems.StreamFollowsGrammar` | include/WSStreamServerParser.h:330-403 | a stream delivers exactly the messages of its frames, closes with the code of the first refused frame, and inside an incomplete frame only with the code of all its completions; an empty frame that ends a client's input is read but has no effect yet |
| `StreamTheorems.ParserFollowsGrammar` | include/WSStreamServerParser.h:330-403 | the same for every byte stream, taken apart into frames, at clients and at servers under a limit of at least 125; and the messages are all there exactly unless an empty frame that completes one ends a client's input |
| `StreamTheorems.EmptyMessageWaitsExactly` | include/WSStreamClientParser.h:183-202 | a client hears of all the messages of its frames exactly when the last frame is not an empty one that completes a message |
| `StreamTheorems.GrammarFollowedExactly` | include/WSStreamServerParser.h:231-249 | every stream follows the grammar exactly at clients and at servers with a limit of at least 125 |
| `StreamTheorems.SmallLimitBreaksGrammar` | include/WSStreamServerParser.h:231-249 | with a limit below 125 a server delivers a message that its frames do not amount to |
| `StreamTheorems.OpenAtFrameBoundary` | include/WSStreamParser.h:291-385 | after any accepted frames a message is under reassembly exactly when the last data frame was not final, whatever control frames came after it |
| `StreamTheorems.Reassembly` | include/WSStreamServerParser.h:231-303 | accepted data frames deliver one message per group of fragments: the opcode of the first and all payloads joined; the rest is what stays under reassembly |
| `StreamTheorems.Interleaving` | include/WSStreamParser.h:291-385 | control frames inserted anywhere between fragments leave the data messages and the closing code as they are (section 5.4 of RFC 6455) |
| `StreamTheorems.SmallLimitShowsChunking` | include/WSStreamServerParser.h:231-249 | with a limit below 125 a server shows how its input was divided: two divisions of one stream end differently |
| `StreamTheorems.ChunkingInvisibleExactly` | include/WebSocket.h:354-427 | the division into chunks is invisible exactly for clients and for servers with a limit of at least 125 |
| `StreamTheorems.MessagesBoundedExactly` | include/WSStreamParser.h:138-160 | every delivered data message keeps to the limit, on every stream, exactly when the limit is at least 125 |
| `Refusals.RefusedExactly` | include/WSStreamParser.h:291-385 | after any accepted frames and whatever follows, a connection closes at a frame with 1000, 1002, 1003 or 1009 exactly for the stated frames: an empty final Close; reserved bits, a wrong mask bit, a control frame that is not final or over 125 bytes, a continuation of nothing or a new message inside another; an unknown opcode; a size over the limit alone or together; and with no other code |
| `Refusals.ClosesExactly` | include/WSStreamServerParser.h:330-403 | whether a run over whole frames closes at a frame is decided by the frame and those before it, not by what is behind it |
| `Refusals.AcceptedDeliver` | include/WSStreamServerParser.h:231-424 | accepted frames deliver one message per control frame and per completed group of fragments, in the order of the frames that complete them |
| `Refusals.StandardExamples` | include/WSStreamServerParser.h:166-424 | the frames of the examples in section 5.7 of RFC 6455, byte by byte, are read as the messages that section gives for them, at the end each is meant for |
| `StreamParser.Parser.constructor` | include/WSStreamParser.h:402-409 | a new parser is between frames with nothing under reassembly |
| `StreamParser.Parser.SetMaxMsgSize` | include/WSStreamParser.h:421-424 | changing the limit, at any time, disturbs nothing that has been read |
| `StreamParser.Parser.Reset` | include/WSStreamParser.h:72-77 | a frame header starts from scratch |
| `StreamParser.Parser.GetHeader1stByte` | include/WSStreamParser.h:79-118 | the first byte agrees with the byte-at-a-time scan: reserved bits, unknown opcodes, end of input |
| `StreamParser.Parser.GetHeader2ndByte` | include/WSStreamServerParser.h:34-81 | the second byte agrees with the scan: the mask bit each role demands, and the three length forms |
| `StreamParser.Parser.ReadSize` | include/WSStreamParser.h:120-287 | the extended length, resumed at any of its bytes, agrees with the scan, with the limit applied when it is complete |
| `StreamParser.Parser.ReadLongSize` | include/WSStreamParser.h:162-287 | the eight-byte length, resumed at any byte |
| `StreamParser.Parser.ReadMask` | include/WSStreamServerParser.h:82-165 | the masking key, resumed at any of its bytes, agrees with the scan |
| `StreamParser.Parser.ValidateHeader` | include/WSStreamParser.h:291-385 | the tests of the source in their order, with nothing that has been read changed; which frames are refused and with which code is stated over frames by RefusedExactly |
| `StreamParser.Parser.Unmask` | include/WSStreamServerParser.h:175-211 | byte-wise head, word-wise middle and byte-wise tail together write payload byte i as input byte i masked with key byte i mod 4, and nothing outside the frame |
| `StreamParser.Parser.MaskWordStep` | include/WSStreamServerParser.h:194-202 | one turn of the word loop fills eight bytes; entered only at an offset divisible by 4 |
| `StreamParser.Parser.CopyBlock` | include/WSStreamClientParser.h:82-181 | a client copies what is needed or what is there, unchanged |
| `StreamParser.Parser.FillFragments` | include/WSStreamServerParser.h:231-303 | a fragment is appended behind the earlier ones, which stay as they were; refused exactly when the sum passes the limit |
| `StreamParser.Parser.ProcessPayload` | include/WSStreamServerParser.h:166-305 | payload reading, for whole messages and fragments, agrees with the scan whether the frame ends or the input does |
| `StreamParser.Parser.ParseHeader` | include/WSStreamServerParser.h:330-385 | the fall-through over the header states agrees with the scan from whichever state it is entered in |
| `StreamParser.Parser.ParseBody` | include/WSStreamServerParser.h:370-403 | validation and payload agree with the scan |
| `StreamParser.Parser.DecideOnDone` | include/WSStreamServerParser.h:307-326 | a complete message is handed over, a complete fragment makes parsing go on; the mutual recursion ends with the input |
| `StreamParser.Parser.Parse` | include/WSStreamServerParser.h:330-403 | one call of the real parser is one call of the byte-at-a-time scan: same message, same code, same resting state, same position |
| `StreamParser.Parser.GetMessage` | include/WSStreamServerParser.h:405-424 | hands over exactly the message announced, once, and leaves the parser between frames; without one a server gets the error |
| `StreamParser.Parser.GetBuffer` | include/WSStreamParser.h:387-399 | the first recycled buffer, its bytes kept, cut or filled with zeros to the preset size |
| `StreamParser.Parser.ReturnBuffer` | include/WSStreamParser.h:415-419 | a returned buffer goes to the front of the queue |
| `Utf8.WellFormedExactly` | include/WSStreamParser.h:439-485 | the grammar of section 4 of RFC 3629 derives exactly the encodings of lists of Unicode scalar values |
| `Utf8.IsValidUtf8` | include/WSStreamParser.h:439-485 | the validator with its four-byte ASCII skip says yes exactly to well-formed text, and reads inside its bounds |
| `Utf8.SequenceLength` | include/WSStreamParser.h:458-481 | the tests on one multi-byte sequence accept exactly the sequences of the grammar |
| `Printers.PutLength` | include/WSProtocol.h:245-269 | the length field is the shortest of the three forms |
| `Printers.WholeFrameShortest` | include/WSProtocol.h:245-269 | no frame with the same payload and key is shorter than the one printed |
| `Printers.ServerMessage` | include/WSServerMessage.h:239-250 | prints exactly one unmasked final frame |
| `Printers.ServerCloseMessage` | include/WSServerMessage.h:328-365 | prints a Close frame whose payload is the code in network order and the reason |
| `Printers.FragmentedServerMessage` | include/WSServerMessage.h:66-120 | prints exactly the frames of the fragmented message, with the count kept in 32 bits as the source keeps it |
| `Printers.MaskedMessage` | include/ClientWebSocket.h:650-698 | prints exactly one masked final frame for a non-empty payload, and a header without key for an empty one |
| `RoundTrips.MaskedRoundTrip` | include/ClientWebSocket.h:650-698 | any list of non-empty client messages, with any keys, concatenated and divided into any chunks, is parsed by the server into those messages in order |
| `RoundTrips.MaskedRoundTripExactly` | include/ClientWebSocket.h:661-697 | a list of client messages survives printing and parsing exactly when none of them is empty |
| `RoundTrips.EmptyMessageLost` | include/ClientWebSocket.h:661-697 | one empty client message does not arrive |
| `RoundTrips.FragmentedRoundTrip` | include/WSServerMessage.h:66-120 | the frames of a fragmented message, in any chunks and with anything behind them, give the client that message exactly when it fits its limit, and otherwise the too-big code |
| `RoundTrips.EmptyMessageWaits` | include/WSStreamClientParser.h:183-202 | one empty message at the end of a client's input is not delivered; which lists of frames are delivered short is stated by EmptyMessageWaitsExactly |
| `RoundTrips.FragmentsShape` | include/WSServerMessage.h:66-120 | a message of n = len / 1392 >= 2 goes out in n frames, all of 1392 bytes but the last, which carries 1392 + len mod 1392 |
| `Connection.EventsIndependentOfChunks` | include/WebSocket.h:354-510 | the events queued for the service do not depend on how the input was divided |
| `Connection.EventsIndependentExactly` | include/WebSocket.h:354-510 | the events a server connection queues are those of its whole stream, however divided, exactly when its limit is at least 125 |
| `Connection.SmallLimitQueues` | include/WebSocket.h:354-510 | with a limit below 125 one division of a stream queues a message and the undivided one the too-big code |
| `Connection.StaleDecides` | include/WebSocket.h:538-574 | the two bytes the validator reads past a Close payload: a well-formed reason is answered as bad data exactly when they are not well-formed text |
| `Connection.StaleCompletes` | include/WebSocket.h:538-574 | the same two bytes may make a reason that is cut short pass |
| `Connection.ServeSplit` | include/WebSocket.h:391-510 | serving two chunks one after the other, the second only while input is open, is serving them as one |
| `Connection.ServerSocket.constructor` | include/WebSocket.h:296-303 | a connection starts with an idle parser and an empty queue |
| `Connection.ServerSocket.CloseSocket` | include/WebSocket.h:511-536 | queues one CLOSE event holding the frame of that code and stops the input |
| `Connection.ServerSocket.OnCloseMessage` | include/WebSocket.h:538-574 | the tests of the source in their order; which status numbers are answered with which code is stated by CloseAnswered |
| `Connection.ServerSocket.OnMessage` | include/WebSocket.h:450-510 | the branches of the source, one event or none per message; what the events of a whole stream are is stated by EventsExactly |
| `Connection.ServerSocket.Turn` | include/WebSocket.h:398-427 | one turn of the input loop accounts for exactly the part of the chunk it consumed |
| `Connection.ServerSocket.ProcessInput` | include/WebSocket.h:391-427 | a chunk queues exactly the events its messages stand for and leaves the parser where the specification leaves it |
| `Replies.EventsExactly` | include/WebSocket.h:450-536 | the events of a whole stream: text and binary messages with their opcode and bytes in order, for each Ping a frame that a client reads as a Pong with its payload, none for a Pong, and at the first message that ends the input, or at the refused frame, one CLOSE event whose frame a client reads as a Close with the code due |
| `Replies.CloseAnswered` | include/WebSocket.h:538-574 | for a Close payload with well-formed text: below two bytes 1002, status 1000 to 1003 and 1007 to 1011 give 1000, 3000 to 4999 the same number, every other 1002 |
| `CloseSequence.InvKept` | include/LuaReactiveService.h:175-230 | every step of every worker and of the service keeps: the queue holds what each connection queued, in order, and a connection whose CLOSE was taken is closed or about to be |
| `CloseSequence.ForwardOnly` | include/WebSocket.h:315-322 | over every run a connection only moves forward |
| `CloseSequence.CloseIsLast` | include/WebSocket.h:511-536 | in every state of every run a connection has queued at most one CLOSE event and nothing after it |
| `CloseSequence.QueuedIsServed` | include/WebSocket.h:354-427 | what a connection has queued is the beginning of what its whole input stands for |
| `CloseSequence.NothingAfterClose` | include/WebSocket.h:342-352 | once the service has processed a CLOSE event, in every later state each send on that connection returns -1 and writes nothing |
| `CloseAnswers.AnswersWritten` | include/LuaReactiveService.h:175-230 | when the service has dealt with the CLOSE event of a connection, and nothing else was sent to it and no send failed, what has been written to it is exactly the frames of all its PONG events, in order, and then its Close frame |
| `CloseAnswers.ClosingRun` | include/LuaReactiveService.h:175-230 | a run, for every setup, in which a CLOSE event is queued, taken, answered and the connection closed |
| `GrowthPolicy.MaskIsMod` | include/ext/tsl/robin_growth_policy.h:115-117 | masking with n - 1 is the remainder by n, for n a power of two |
| `GrowthPolicy.TruncatedMask` | include/ext/tsl/robin_hash.h:408-420 | a hash cut to 32 bits selects the same bucket as the whole hash when n - 1 fits 32 bits |
| `GrowthPolicy.PowerOfTwoTest` | include/ext/tsl/robin_growth_policy.h:163-165 | the bit test holds exactly of powers of two |
| `GrowthPolicy.RoundUpToPowerOfTwo` | include/ext/tsl/robin_growth_policy.h:146-161 | the bit-smearing loop returns the least power of two not below its argument |
| `RobinBuckets.ProbeIsModular` | include/ext/tsl/robin_hash.h:1157-1175 | position is home plus distance, modulo the number of buckets |
| `RobinBuckets.NoEarlyExit` | include/ext/tsl/robin_hash.h:1161-1174 | on the way from its home to a stored key no bucket is poorer than the probe count, so the early exit never misses a key |
| `RobinBuckets.Steal` | include/ext/tsl/robin_hash.h:1296-1298 | taking a richer bucket keeps every entry in place and the order of distances, and leaves the evicted entry fit for the next bucket |
| `RobinBuckets.ShiftBack` | include/ext/tsl/robin_hash.h:1192-1204 | one backward shift keeps every entry in place and the order of distances, with the hole moved on by one |
| `RobinBuckets.SomeEmpty` | include/ext/tsl/robin_hash.h:1284-1302 | a table with fewer entries than buckets has an empty bucket, so every probe loop ends |
| `RobinHash.Table.Create` | include/ext/tsl/robin_hash.h:532-563 | a new table stands for the empty map and has at least the buckets asked for; none exactly when that is more than the largest number |
| `RobinHash.Table.TakeAll` | include/ext/tsl/robin_hash.h:1313-1324 | moving the buckets of a table into an empty one moves exactly its map |
| `RobinHash.Table.Search` | include/ext/tsl/robin_hash.h:1208-1236 | finds a key exactly when it is stored; otherwise stops where the key may be put down |
| `RobinHash.Table.Find` | include/ext/tsl/robin_hash.h:1157-1175 | the bucket with the key and its value, or the end exactly when the key is not in the map |
| `RobinHash.Table.InsertValueImpl` | include/ext/tsl/robin_hash.h:1276-1306 | the displacement loop adds exactly the new entry to the map, in the bucket it started from |
| `RobinHash.Table.Insert` | include/ext/tsl/robin_hash.h:1207-1254 | adds the key exactly when it was missing, reports the bucket that now holds it, and fails exactly when the key is missing and the table is full enough to grow at its largest size, changing nothing |
| `RobinHash.Table.EraseFromBucket` | include/ext/tsl/robin_hash.h:1177-1205 | removes exactly that entry from the map and closes the hole |
| `RobinHash.Table.Erase` | include/ext/tsl/robin_hash.h:907-917 | removes the key from the map and counts what it removed |
| `RobinHash.Table.EraseAt` | include/ext/tsl/robin_hash.h:819-834 | removes the entry at an iterator and returns the next occupied bucket or the end |
| `RobinHash.Table.InsertValueOnRehash` | include/ext/tsl/robin_hash.h:1344-1363 | the insertion loop of a rehash adds exactly the entry |
| `RobinHash.Table.StoredHashSelects` | include/ext/tsl/robin_hash.h:1313-1324 | the stored truncated hash, where it is used, selects the bucket the full hash selects |
| `RobinHash.Table.RehashImpl` | include/ext/tsl/robin_hash.h:1308-1331 | a rehash keeps the map |
| `RobinHash.Table.RehashOnExtremeLoad` | include/ext/tsl/robin_hash.h:1372-1390 | growing keeps the map and makes room for one more entry, or reports that it cannot |
| `RobinHash.Table.Rehash` | include/ext/tsl/robin_hash.h:1078-1082 | keeps the map and reaches the number of buckets asked for, exactly when both that and twice the entries are allowed |
| `RobinHash.Table.Perform` | include/ext/tsl/robin_hash.h:1157-1390 | one operation answers as on a plain map and leaves that map; it throws exactly when it is one the table refuses in that state, and then changes nothing |
| `RobinHash.Table.Replay` | include/ext/tsl/robin_hash.h:1157-1390 | any run of insert, find, erase by key or iterator and rehash answers as a plain map does and leaves that map, up to the first operation that the table refuses in the state then reached |
| `CborEncoder.Encoder.PrepareWrite` | examples/echo_lapps_client/cbor.js:36-52 | growing the buffer keeps what was written and makes the room asked for |
| `CborEncoder.Encoder.CopyWords` | examples/echo_lapps_client/cbor.js:42-48 | copying whole 32-bit words copies everything written and stays inside both buffers |
| `CborEncoder.GrowthStalls` | examples/echo_lapps_client/cbor.js:37-40 | doubling in 32 bits never gets past 2^30: beyond it the growing loop would turn negative, then 0, for good |
| `CborEncoder.GrowthEndsExactly` | examples/echo_lapps_client/cbor.js:37-40 | the growing loop reaches the required size exactly when that is at most 2^30 |
| `CborEncoder.Encoder.WriteUint8Array` | examples/echo_lapps_client/cbor.js:62-67 | appends exactly these bytes |
| `CborEncoder.Encoder.WriteUint64` | examples/echo_lapps_client/cbor.js:74-81 | two halves written one after the other are the eight-byte big-endian number |
| `CborEncoder.Encoder.WriteTypeAndLength` | examples/echo_lapps_client/cbor.js:82-98 | appends the head with the shortest of five length forms |
| `CborEncoder.Encoder.Utf8Data` | examples/echo_lapps_client/cbor.js:124-146 | the UTF-16 to UTF-8 loop produces the bytes of the text |
| `CborEncoder.Encoder.EncodeItem` | examples/echo_lapps_client/cbor.js:100-172 | printing a value appends exactly its bytes to what was written |
| `CborEncoder.Encode` | examples/echo_lapps_client/cbor.js:30-184 | the printer as a whole returns the bytes of the value |
| `CborDecoder.Decoder.ReadUint64` | examples/echo_lapps_client/cbor.js:236-238 | two 32-bit reads are the eight-byte big-endian number, rounded to the nearest double as the source computes it |
| `CborDecoder.Decoder.ReadLengthOf` | examples/echo_lapps_client/cbor.js:245-259 | reads the announced length in each of its forms, or throws |
| `CborDecoder.Decoder.AppendUtf16Data` | examples/echo_lapps_client/cbor.js:270-300 | the loop with its shrinking bound appends exactly the text of those bytes |
| `CborDecoder.Decoder.ReadElements` | examples/echo_lapps_client/cbor.js:330-336 | collects pieces that together are the indefinite byte string |
| `CborDecoder.Decoder.DecodeArray` | examples/echo_lapps_client/cbor.js:354-365 | definite and indefinite arrays agree with the parsing function, offset and exceptions included |
| `CborDecoder.Decoder.DecodeObject` | examples/echo_lapps_client/cbor.js:366-372 | objects likewise, with repeated keys overwritten in place and keys that are not text converted by any function that may throw |
| `CborDecoder.Decoder.DecodeItem` | examples/echo_lapps_client/cbor.js:302-389 | the recursive parser agrees with the parsing function on every input: value, offset, exception |
| `CborDecoder.Decode` | examples/echo_lapps_client/cbor.js:186-395 | the parser as a whole, refusing left-over bytes |
| `CborRoundTrip.HeadRead` | examples/echo_lapps_client/cbor.js:245-259 | every printed length is read back, in each of its five forms, as its nearest double |
| `Cbor.RoundedExact` | examples/echo_lapps_client/cbor.js:236-238 | numbers up to 2^53 are their own nearest double |
| `CborRoundTrip.CleanTextExactly` | examples/echo_lapps_client/cbor.js:123-146 | text comes back unchanged exactly when it is made of units below 0xD800 and well-formed surrogate pairs |
| `CborRoundTrip.ItemRead` | examples/echo_lapps_client/cbor.js:302-389 | parsing what was printed for a value, wherever it stands, consumes exactly that and yields a stated value |
| `CborRoundTrip.RoundTripExactly` | examples/echo_lapps_client/cbor.js:30-395 | decode(encode(v)) is v exactly when all text in v is clean and no field is called __proto__ |
| `CborRoundTrip.NotComingBack` | examples/echo_lapps_client/cbor.js:30-395 | a text of one private-use character and an object with a __proto__ field come back changed |
| `CborText.UnicodeRead` | examples/echo_lapps_client/cbor.js:270-300 | any list of Unicode scalar values is read from its UTF-8 bytes as UTF-16 units that stand for just these |
| `CborLengths.ShortestHead` | examples/echo_lapps_client/cbor.js:82-98 | no way to write the length of an item is shorter than the one printed |
| `CborPieces.PiecesJoined` | examples/echo_lapps_client/cbor.js:346-353 | text in pieces is the text of all their characters |
| `CborFormsRead.AnyRead` | examples/echo_lapps_client/cbor.js:302-389 | however a value is written, wherever it stands, the parser reads that value and consumes exactly its bytes |
| `CborFormsRead.EveryFormRead` | examples/echo_lapps_client/cbor.js:186-395 | a whole message in any form that sections 2.1 to 2.3 of RFC 7049 allow (lengths in any form that holds them, strings in pieces, arrays and objects with a number of entries or a break, tags, simple values, float images) is parsed into the value it stands for |
| `CborObjects.ObjectExactly` | examples/echo_lapps_client/cbor.js:366-372 | an object has exactly the keys that were written but __proto__, each with the value written last |
| `CborObjects.ObjectInOrder` | examples/echo_lapps_client/cbor.js:366-372 | its keys differ and stand in the order in which they were first written |
| `CborPrefix.ItemSame` | examples/echo_lapps_client/cbor.js:302-389 | what is read at a position does not depend on the bytes behind it |
| `CborPrefix.CutShortRefused` | examples/echo_lapps_client/cbor.js:391-394 | of two messages that are accepted neither is the beginning of the other: nothing is read from a message that is cut short or run on |
| `CborNumbers.RoundedNearest` | examples/echo_lapps_client/cbor.js:236-238 | the number read for an eight-byte length is a double, no double is nearer to it, and of two it is the one with an even last bit |
| `StatsGate.CountKept` | include/WorkerStats.h:97-109 | the counter is the number of threads between their add and their subtract, after every step |
| `StatsGate.ChangeKept` | include/WorkerStats.h:113-150 | no step brings a table change and an admitted update together |
| `StatsGate.GateIsSafe` | include/WorkerStats.h:93-165 | in every state of every run, for any number of threads: at most one holder of the gate, no table change while an update uses the table, no dangling iterator, no torn set of slots for a reader |
| `StatsGate.WritesMayOverlapReading` | include/WorkerStats.h:98-104 | a run in which an in-place write and a reading of the table overlap: the gate does not exclude these |
| `StatsGate.GateReopens` | include/WorkerStats.h:113-165 | from every reachable state the threads already inside can bring the gate to open again: no deadlock |
| `StatsGate.BytesKept` | include/WorkerStats.h:61-71 | the byte counters of the table stay 0; what its other fields hold is stated by LatestUpdateHolds and NewSlotIsZero |
| `StatsValues.LatestUpdateHolds` | include/WorkerStats.h:61-109 | over every run, a slot holds all fields of the latest update of it that reported success but the byte counters, which are 0 |
| `StatsValues.NewSlotIsZero` | include/WorkerStats.h:113-130 | over every run, a slot is all zeros from the call that made it to the first update of it that reports success |
| `StatsValues.SlotExplained` | include/WorkerStats.h:93-150 | in every state of every run each slot of the table is one or the other |
| `StatsValues.ThereExactly` | include/WorkerStats.h:113-150 | a slot is in the table exactly when it was added and not taken away since |
| `StatsValues.ReaderSees` | include/WorkerStats.h:152-165 | getStats returns a value for every slot of the table, each the value that slot had at some state between the taking of the flag and the return |
| `StatsValues.UpdateAlone` | include/WorkerStats.h:93-109 | with the gate open an undisturbed update of a slot that is there stores its value and reports success |
| `StatsValues.ChangeAlone` | include/WorkerStats.h:113-150 | with the gate open and nobody counted, an undisturbed call adds its slot, as zeros unless it is there, or takes it away, changes no other and leaves the gate open |
| `StatsValues.ReadAlone` | include/WorkerStats.h:152-165 | with the gate open an undisturbed reader returns exactly the table |
| `ServiceStart.ReturnsExactly` | include/Deployer.h:301-420 | starting a service returns exactly when it meets no dependency loop of several unstarted services |
| `ServiceStart.TwoServiceLoop` | include/Deployer.h:317-332 | two services that depend on each other: no depth of calls is enough |
| `ServiceStart.StartsInOrder` | include/Deployer.h:301-420 | then every newly registered service has exactly its configured number of instances, however many paths lead to it, and comes after everything it depends on |
| `ServiceReach.RegistersExactly` | include/Deployer.h:301-420 | the services registered by it are exactly those that can be started among the ones reached from it along dependencies not started yet |
| `ServiceReach.DependenciesInTurn` | include/Deployer.h:317-332 | the dependencies of a service are started in the order they are listed: for each beginning of the list there is a point where exactly the services it leads to are registered |
| `ServiceReach.EachStarted` | include/Deployer.h:157-168 | starting several services, none of which meets a loop, registers exactly what they lead to, in order across them and in the turn of the list |
| `ServiceStart.DependenciesFirst` | include/Deployer.h:317-332 | all transitive dependencies are registered, each before its dependents |
| `Deployer.Deployer.StartService` | include/Deployer.h:301-420 | the recursive method does what the bounded function does |
| `Deployer.Deployer.Deploy` | include/Deployer.h:301-420 | a start from outside registers exactly these services, each after what it depends on |
| `Deployer.Deployer.AutoStart` | include/Deployer.h:157-168 | starting all marked services in place: exactly what any of them leads to is registered, in order across all of them and in their turn, and each is settled |
| `Registry.TargetsServed` | include/ServiceRegistry.h:193-248 | with one kind per name, in every reachable state every target leads to a running service all of whose instances have that target |
| `Registry.TwoKindsDangle` | include/ServiceRegistry.h:205-221 | two kinds of one name, registered and unregistered, leave a target behind |
| `Registry.NoDanglingExactly` | include/ServiceRegistry.h:193-248 | no run over a fleet of instances leaves a target behind exactly when each name is one kind of service with one target |
| `Registry.ReachableExactly` | include/ServiceRegistry.h:193-248 | over every fleet, every running service stays the one its target leads to exactly when different services have different targets and no service of both kinds shares the registry with another one on the empty target |
| `Registry.SharedTargetLost` | include/ServiceRegistry.h:193-203 | of two services with one target the later takes it over |
| `Registry.EmptyTargetLost` | include/ServiceRegistry.h:205-221 | unregistering a service of both kinds takes the empty target from a running service |
| `Registry.RoundRobinIsFair` | include/ServiceRegistry.h:70-83 | over any number of turns no index comes up more than once more than another; the same of the instances returned is stated by AnswersAreFair |
| `Registry.InstanceHolder.Next` | include/ServiceRegistry.h:70-83 | the instance at the index after the turn, or the error exactly when there is none; what repeated calls return is stated by AnswersAreFair |
| `Registry.InstanceHolder.PopBack` | include/ServiceRegistry.h:85-97 | drops the last instance, if there is one, and says where the index is then; left one past the end it still continues at the first |
| `Registry.ServiceRegistry.Reg` | include/ServiceRegistry.h:193-203 | registering in place is registering on the value |
| `Registry.ServiceRegistry.Unreg` | include/ServiceRegistry.h:205-221 | unregistering in place, with its two turns of the round robin |
| `Registry.ServiceRegistry.FindByName` | include/ServiceRegistry.h:223-232 | the next instance of the service, or the error exactly when there is none |
| `Registry.ServiceRegistry.FindByTarget` | include/ServiceRegistry.h:234-248 | the next instance of the service the target leads to, or the error that is due; where targets are served, an instance with that target |
| `RegistryAnswers.AnswersAreFair` | include/ServiceRegistry.h:70-83 | of the instances returned over any number of turns, no one comes more than once more often than another |
| `RegistryAnswers.AnswerAt` | include/ServiceRegistry.h:70-83 | the answers go on from the instance after the one chosen last, round and round, and from the first if that one is gone |
| `RegistryAnswers.AnyRoundIsAll` | include/ServiceRegistry.h:70-83 | any stretch of as many answers as there are instances is all the instances |
| `RegistryAnswers.ServiceAnswersFairly` | include/ServiceRegistry.h:223-248 | both of what the registry answers for a service, by name and by target together, over any operations on other services in between |
| `RegistryAnswers.HoldsRegistered` | include/ServiceRegistry.h:193-221 | a service holds exactly the instances registered since it was last unregistered away, in order |
| `Broadcast.PurgedExactly` | include/Broadcast.h:46-65 | removing first occurrences one by one is one pass that drops what is owed of each connection, so the order of unsubscriptions does not matter |
| `Broadcast.PurgedMeans` | include/Broadcast.h:46-65 | what a purge leaves is the multiset difference, in the order it was |
| `Broadcast.HistoryCounted` | include/Broadcast.h:106-126 | after any history the channel holds the live subscriptions, newest first, and owes what was unsubscribed since the last broadcast |
| `Broadcast.BroadcastChannel.Purge` | include/Broadcast.h:46-65 | the nested loops in place |
| `Broadcast.BroadcastChannel.BcastMessage` | include/Broadcast.h:117-126 | sends once per entry of the subscriptions minus the pending unsubscriptions, in order, and leaves none pending |
| `Handshake.ServerReadsLines` | include/HTTPRequestParser.h:71-98 | the lines of any plain fields and a blank line are collected as exactly those fields, first one of a name winning |
| `Handshake.ServerUnderstands` | include/Shakespeer.h:169-194 | the server accepts every request the client prints and finds its exact target and key |
| `Handshake.TargetExactly` | include/HTTPRequestParser.h:125-131 | whatever the other fields, the request is read with its target cut at the first blank, so the target comes through exactly when it has no blanks |
| `Handshake.BlankTargetCut` | include/HTTPRequestParser.h:125-131 | the target /a b is read as /a |
| `Handshake.ClientReadsLines` | include/ClientWebSocket.h:240-285 | the client reads the same lines up to the first byte after the blank line |
| `Handshake.ClientUnderstands` | include/ClientWebSocket.h:231-297 | the client accepts the printed response exactly when no configured header claims another accepted key first, and its cursor is at the first byte after the blank line, or 0 if there is none |
| `Handshake.ForgedAcceptRefused` | include/ClientWebSocket.h:286-297 | one configured Sec-WebSocket-Accept header makes the client refuse |
| `Handshake.HandshakeAgrees` | include/Shakespeer.h:169-261 | a whole handshake, both ends together, for any digest of keys that prints as one word |
| `Handshake.RequestParser.CollectHeaders` | include/HTTPRequestParser.h:71-98 | the cursor loops collect what the reading function says |
| `Handshake.RequestParser.Parse` | include/HTTPRequestParser.h:106-154 | the parser in place, malformed requests included: a request is read onto whatever the parser still holds |
| `Handshake.RequestParser.ParseHeader` | include/Shakespeer.h:169-194 | the tests of the source in their order, whatever the parser still holds; which requests are accepted is stated by AgreedExactly |
| `Handshake.RequestParser.Handshake` | include/Shakespeer.h:71-82 | a handshake starts from a cleared parser, so earlier requests leave no trace |
| `Handshake.ClientHandshake.WsUpgrade` | include/ClientWebSocket.h:492-531 | the literals, target, host, key and origin appended one by one are the request the server theorem is about |
| `Handshake.ClientHandshake.ResponseOK` | include/ClientWebSocket.h:231-297 | the response parser in place: decision and cursor |
| `Handshake.PrepareOKResponse` | include/Shakespeer.h:195-261 | the literals, configured headers, alias and accepted key appended one by one are the response the client theorem is about |
| `HandshakeRules.AgreedExactly` | include/Shakespeer.h:169-194 | a request with any target without blanks and any plain fields is accepted exactly when the first Connection value contains upgrade in any case, the first Upgrade value is websocket in any case, the first version is 13 and the first key is not empty |
| `HandshakeRules.PlainRequestRefused` | include/Shakespeer.h:176-180 | the request GET / with a Host field alone is refused, however much is behind it in the buffer |
| `HandshakeRules.OnlyGetRequests` | include/HTTPRequestParser.h:106-154 | nothing shorter than 168 bytes, and nothing that does not begin with GET and a blank after at most one line end, is read as a request |
| `HandshakeRules.ResponseAcceptedExactly` | include/ClientWebSocket.h:231-297 | a switching response with any plain fields is accepted exactly when it has 113 bytes, its first Connection and Upgrade values are upgrade and websocket in any case, and its first accepted key is the expected one |
| `HandshakeRules.OnlySwitching` | include/ClientWebSocket.h:231-240 | nothing shorter than 113 bytes, and nothing that does not begin with the switching status line, is accepted |
| `HandshakeRules.RequestSays` | include/ClientWebSocket.h:492-531 | the server reads the host and the origin the client was given |
| `HandshakeRules.ResponseCarries` | include/Shakespeer.h:195-261 | the client reads every configured header, the first of a name, and the announced protocol |
| `HandshakeRules.LeadingBreakMisread` | include/HTTPRequestParser.h:106-131 | with a line end in front, every request is read with the target T, whatever its target is |

## Left out

- Sockets, epoll, TLS, threads, signals, inotify, the file system, JSON configuration and Lua: received chunks, queue
  operations and configurations are values or abstract steps.
- `ClientWebSocket::handleInput`: it does not keep the cursor after a ready message; the client parser is driven by the
  same loop as the server's.
- Connection.ServerSocket.OnCloseMessage: the source hands its validator a length two bytes too long; the bytes read past
  the payload are an arbitrary parameter of the connection, so the answer is stated for whatever they are (`StaleDecides`).
- CloseSequence.NothingAfterClose: closes initiated by the application and broadcasts of other services are not steps of
  the model.
- StreamParser.Parser.FillFragments: the sum of fragment sizes is unbounded, where the source adds in 64 bits.
- StreamParser.Parser.Parse: buffers are sequences that are replaced, so aliasing between a recycled buffer and a message
  still in use is not captured.
- The range erase of the hash table, its 16-bit distances, serialisation, the other growth policies and fractional load
  factors: distances are unbounded and the load factor is 1/2 with no lower bound.
- RobinHash.Table.Search: hashes are any function to the natural numbers; key equality is equality of values.
- CborRoundTrip.RoundTripExactly: numbers that are not integers within 2^53 are represented by the bytes of their image,
  an object by its fields in order; the language's own reordering of integer-like keys is not modelled.
- CborDecoder.Decoder.DecodeObject: the text of a key that is not text is an arbitrary function of it, which may throw.
- CborDecoder.Decoder.ReadUint64: doubles are modelled by rounding to the nearest, ties to even, of the exact number.
- CborDecoder.Decoder.AppendUtf16Data: the limit on the number of arguments of one call, met when a long text is turned
  into a string, is not modelled.
- CborEncoder.Encode: the buffer is limited to 2^30 bytes; `GrowthEndsExactly` shows that the source gets no further.
- ServiceStart.StartsInOrder: a descriptor either reads well or not; an instance that fails to load half-way is not modelled,
  and configurations do not change during a start.
- Handshake.HandshakeAgrees: SHA-1 and base64 are any function of the key that prints as one word; the request arrives in
  one receive.
- StatsGate.GateIsSafe: atomic operations are sequentially consistent.
- Network ACLs, the URI and HTTP grammars generated from tables, the random number generator, the balancer and the plain
  statistics structures: none of the parts above depends on what they compute.
