# lightmqtt core in Dafny

A model of the core of lightmqtt, a C client library for MQTT 3.1.1, with
proofs about it. lightmqtt is non-blocking: every operation does as much
work as its buffers and callbacks allow, then reports whether it finished,
would block, or failed. The model covers these parts:

- **Packet layer** (`src/lmqtt_packet.c`):
  - the Remaining Length variable-byte encoding and the fixed-header decoder that reads it back;
  - the set of QoS 2 packet ids already received;
  - the validators of CONNECT, SUBSCRIBE/UNSUBSCRIBE and PUBLISH and their remaining lengths;
  - the header builders;
  - the resumable encode buffer and the resumable string encoder;
  - the transmit "finders", the table that says which encoder sends each step of a packet;
  - `kind_expects_response`;
  - the receive decoders of CONNACK and SUBACK, and the remaining-length check each decoded byte goes through.
- **Store** (`src/lmqtt_store.c`): the queue of packets waiting to be sent or answered. It has a mark cursor separating sent entries from unsent ones, 16-bit packet ids, and the keep-alive and answer timeouts.
- **Time** (`src/lmqtt_time.c`): deadline arithmetic on (seconds, nanoseconds) pairs, and the touched time stamp.
- **Client** (`src/lmqtt_client.c`):
  - the connection state machine (initial, connecting, connected, failed);
  - the commands that queue packets;
  - the CONNACK handler;
  - keep-alive;
  - store clean-up when a connection ends;
  - the byte pump between a side's callback and its buffer;
  - how `run_once` combines the statuses of its steps into one result word.
- **Result word** (`include/lightmqtt/client.h`): the `LMQTT_RES_*` bits and the predicates over them.

Entities whose fields the C code updates in place are classes:

| class | models |
|---|---|
| `Store.Store` | a store |
| `IdSet.IdSet` | the id set |
| `FixedHeader.FixedHeaderDecoder` | the decoder state |
| `EncodeBuffer.EncodeBuffer` | the encode buffer |
| `Time.Stamp` | a time stamp |
| `Io.Io` | a pump |
| `Io.Buffer` | a read or write buffer |
| `Client.Client` | the client |

Each of their methods states the whole new state in terms of a ghost view:

| view | of |
|---|---|
| `Items()` | the queued entries, oldest first |
| `Ids()` | the ids in the set |
| `Contents()` | the waiting bytes |

Pure code is written as functions over datatypes, with lemmas: validators, length computations, builders, finders, decoders, and the result predicates.

### How the source's features are represented

- Bytes are integers 0..255 and packet ids are integers 0..65535. The C bit masks on bytes are written as the equivalent arithmetic.
- The result word is a 32-bit bit-vector.
- The client's function table is a `State` value. The class invariant `Valid()` ties that state to the `closed` and `failed` flags and to the store the client works on.
- A store entry holds a copy of its packet as a value, and a tag naming its completion callback.
- The clock (`get_time`) is a parameter `now`.
- For every external callback, each call is given what the callback reported:
  - a string's read callback;
  - the socket read/write callbacks behind a pump.

## Model

| member | source | states |
|---|---|---|
| PacketTypes.KindExpectsResponse | src/lmqtt_packet.c:45-50 | a known kind other than PUBREC expects a response exactly when MQTT answers the packet it sends (CONNECT, PUBLISH QoS 1/2, PUBREL, SUBSCRIBE, UNSUBSCRIBE, PINGREQ); a PUBREC, though MQTT answers it with PUBREL, is not kept, since the receiver answers that PUBREL from the id set; any other value counts as expecting one |
| RemainingLength.Encoding | src/lmqtt_packet.c:29-43 | the Remaining Length takes 1, 2, 3 or 4 bytes for lengths below 2^7, 2^14, 2^21 and up to 268435455 |
| RemainingLength.EncodingDigits | src/lmqtt_packet.c:29-43 | every byte but the last has the continuation bit; the last is the only nonzero terminator (shortest form); the base-128 digits add up to the length |
| RemainingLength.EncodeRemainingLength | src/lmqtt_packet.c:29-43 | the loop writes exactly the encoding at the given offset, returns its length and leaves the rest of the buffer untouched |
| FixedHeader.Step | src/lmqtt_packet.c:301-371 | one byte fed to the fixed-header decoder; what it does is stated by `FixedHeader.StepFailure`, `FixedHeader.StepFirstByte` and `FixedHeader.StepLengthByte` |
| FixedHeader.StepFailure | src/lmqtt_packet.c:306-307 | one decoder byte: the state is failed iff the result is an error; once failed, always an error with the state unchanged; every accepted byte is counted |
| FixedHeader.StepFirstByte | src/lmqtt_packet.c:309-344 | the first byte is accepted iff its type and flags are legal (PUBREL/SUBSCRIBE/UNSUBSCRIBE flags 0x2, PUBLISH not QoS 3 nor DUP with QoS 0, others 0); it sets the type, and dup/qos/retain from a PUBLISH first byte, 0 otherwise |
| FixedHeader.StepLengthByte | src/lmqtt_packet.c:345-365 | a byte after FINISHED, a fourth continuation byte and a 0x00 after a continuation byte are errors; any other length byte adds its seven bits times the current weight, and the first one without the continuation bit finishes with that remaining length |
| FixedHeader.Feed | src/lmqtt_packet.c:301-371 | feeding a sequence gives one result per byte |
| FixedHeader.FailureIsSticky | src/lmqtt_packet.c:306-307 | after an error every later byte is an error and the state stays put |
| FixedHeader.NothingAfterFinished | src/lmqtt_packet.c:346-349 | after FINISHED every byte is an error |
| FixedHeader.DecodeLengthDigits | src/lmqtt_packet.c:346-369 | feeding an encoding after k digits adds its value times 128^k and finishes on its last byte |
| FixedHeader.RemainingLengthRoundTrip | src/lmqtt_packet.c:346-363 | a legal first byte followed by Encoding(len) is accepted, the last byte finishing, with remaining length len |
| FixedHeader.AcceptedLengthDigits | src/lmqtt_packet.c:346-369 | length bytes the decoder accepts are the encoding of some number, at most four bytes in all |
| FixedHeader.AcceptedIsCanonical | src/lmqtt_packet.c:314-369 | a header accepted byte by byte is a legal first byte followed by exactly Encoding(len) of its decoded length, with len at most 268435455 |
| FixedHeader.EncodingGrows | src/lmqtt_packet.c:29-43 | lengths above 268435455 need more than four bytes, which the decoder rejects |
| FixedHeader.FixedHeaderDecoder.Decode | src/lmqtt_packet.c:301-371 | the in-place decoder moves its state exactly as one decoder step does (the three lemmas above) |
| Base.CloseGap | src/lmqtt_store.c:34-35 | the memmove closing a gap (in store_pop_at and in lmqtt_id_set_remove): the elements after the index move one place left in order |
| IdSet.RemoveAtKeepsOthers | src/lmqtt_packet.c:89-103 | taking one element out of a duplicate-free sequence keeps it duplicate-free and keeps every other element |
| IdSet.IdSet.constructor | src/lmqtt_packet.c:56-59 | a new set of the given capacity is empty |
| IdSet.IdSet.Clear | src/lmqtt_packet.c:56-59 | the set becomes empty |
| IdSet.IdSet.Contains | src/lmqtt_packet.c:61-71 | true iff the id is in the set |
| IdSet.IdSet.Put | src/lmqtt_packet.c:73-87 | succeeds iff the set is not full and lacks the id, and then appends it; otherwise nothing changes; no duplicates, count within capacity |
| IdSet.IdSet.Remove | src/lmqtt_packet.c:89-103 | succeeds iff the id is present; it is then removed with the others kept in order; afterwards the id is absent |
| Validate.ConnectValidate | src/lmqtt_packet.c:503-528 | true iff the five strings fit a 16-bit length, will topic and will message are both empty or both not, will retain only with a will topic, an empty client id only with clean session, a password only with a user name, will QoS 0..2; a valid connect has a remaining length in 1..268435455 |
| Validate.Visited | src/lmqtt_packet.c:534-545 | the loops visit the first `count` subscriptions, none for a count that is not positive |
| Validate.CalcSubscribeRemainingLength | src/lmqtt_packet.c:534-545 | the loop computes the packet id plus, per visited topic, its prefix, its bytes and (SUBSCRIBE) the QoS byte |
| Validate.SubscribeValidate | src/lmqtt_packet.c:616-633 | true iff the count is nonzero, the array is set and each of the first `count` subscriptions has a topic of 1..65535 bytes and QoS 0..2 (a negative count passes, visiting nothing) |
| Validate.TopicsLengthBounds | src/lmqtt_packet.c:534-545 | each valid topic adds its prefix (and QoS byte) plus 1 to 65535 bytes, so the length grows with the count and nothing bounds it |
| Validate.PublishValidateAsWritten | src/lmqtt_packet.c:720-725 | the check as written: topic 1..65535 bytes, QoS 0..2, remaining length at most 268435455 |
| Validate.NegativePayloadPassesValidation | src/lmqtt_packet.c:720-725 | a publish with a negative payload length passes the check as written |
| Validate.PublishValidate | src/lmqtt_packet.c:720-725 | the corrected check; a valid publish has a remaining length in 0..268435455 |
| Builders.ConnectFixedHeader | src/lmqtt_packet.c:379-403 | type byte 0x10 followed by the encoding of the connect's remaining length |
| Builders.ConnectFlagsFields | src/lmqtt_packet.c:413-439 | every field of the connect flags byte reads back its own bit: user name, password, will retain, will QoS, will flag and clean session |
| Builders.ConnectVariableHeader | src/lmqtt_packet.c:413-439 | the ten bytes: protocol name "MQTT", level 4, the flags byte and the big-endian keep alive |
| Builders.PacketIdHeader | src/lmqtt_packet.c:142-160 | a fixed header, its remaining length and the big-endian packet id |
| Builders.SubscribeHeaderFields | src/lmqtt_packet.c:547-573 | first byte 0x82 or 0xA2, the remaining length and the packet id |
| Builders.SubscribeQos | src/lmqtt_packet.c:594-602 | one byte, the requested QoS |
| Builders.PublishFixedHeaderAsWritten | src/lmqtt_packet.c:646-666 | the header as written: the DUP bit is set iff the publish was encoded before, whatever its QoS; it differs from the corrected header only in that bit, and only for a re-encoded QoS 0 publish |
| Builders.ResentQos0PublishIsMalformed | src/lmqtt_packet.c:646-666 | a QoS 0 publish encoded a second time gets DUP with QoS 0, which the library's own decoder rejects |
| Builders.PublishFixedHeader | src/lmqtt_packet.c:646-666 | the corrected header: type 3 with QoS, retain and (QoS > 0 only) DUP, then the remaining length |
| Builders.PublishFixedHeaderRoundTrip | src/lmqtt_packet.c:646-666 | the header of a valid publish decodes back to its QoS, retain, DUP and remaining length |
| Builders.PublishPacketId | src/lmqtt_packet.c:686-697 | the packet id in two big-endian bytes |
| Builders.AckHeader | src/lmqtt_packet.c:731-801 | PUBACK/PUBREC/PUBREL/PUBCOMP: type byte (flags 0x2 for PUBREL), length 2, packet id |
| Builders.EmptyHeader | src/lmqtt_packet.c:807-837 | PINGREQ/DISCONNECT: the type byte and a zero length |
| EncodeBuffer.EncodeBuffer.constructor | src/lmqtt_packet.c:109-140 | a new encode buffer holds nothing |
| EncodeBuffer.EncodeBuffer.Encode | src/lmqtt_packet.c:109-140 | builds only when nothing is built; copies the lesser of the room and what is left from `offset`; FINISHED, with the buffer cleared, iff the rest fits; CONTINUE keeps the built bytes |
| EncodeBuffer.EncodeBuffer.Fill | src/lmqtt_packet.c:119-121 | the built bytes land at the start of the buffer |
| EncodeBuffer.EncodeBuffer.CopyOut | src/lmqtt_packet.c:133 | the requested bytes from `offset` are copied to the front of the output buffer, the rest of it untouched |
| EncodeBuffer.EncodeBuffer.Zero | src/lmqtt_packet.c:136-137 | every byte of the buffer is zero |
| StringEncode.StringRead | src/lmqtt_packet.c:169-209 | a buffer read delivers the next bytes and advances the position; a callback read reports its status and at most the requested bytes |
| StringEncode.StringEncodeAsWritten | src/lmqtt_packet.c:218-285 | the encoder as written writes the same bytes as the corrected one, and gives the same outcome except when an empty string with a length prefix is resumed after its first byte |
| StringEncode.EmptyStringResumedAtLastByte | src/lmqtt_packet.c:244-251 | an empty string resumed at offset 1 writes its last prefix byte yet reports CONTINUE |
| StringEncode.StringEncode | src/lmqtt_packet.c:218-285 | the corrected encoder |
| StringEncode.BufferStringChunk | src/lmqtt_packet.c:218-285 | for a string in a buffer, a call at `offset` writes the next bytes of prefix plus string, as many as fit; FINISHED iff it reaches the end, else CONTINUE ready to resume |
| StringEncode.ChunkRequest | src/lmqtt_packet.c:218-285 | such a call meets what string_encode demands of its callers |
| StringEncode.PrefixChunk | src/lmqtt_packet.c:218-285 | a call that ends inside the length prefix writes the next prefix bytes |
| StringEncode.BodyOutcome | src/lmqtt_packet.c:218-285 | a call that passes the prefix writes the rest of it and then the string bytes that fit |
| StringEncode.BodyChunk | src/lmqtt_packet.c:218-285 | those bytes are the next chunk of the field |
| TxFinders.FindConnect | src/lmqtt_packet.c:851-864 | the CONNECT table: header, variable header, client id, will topic, will message, user name, password; its meaning is stated by `TxFinders.FinderTable` |
| TxFinders.FindSubscribe | src/lmqtt_packet.c:866-904 | the (UN)SUBSCRIBE table: header, then per subscription its topic and, for SUBSCRIBE, its QoS; stated by `TxFinders.FinderTable` and `TxFinders.SubscribeSteps` |
| TxFinders.FindPublish | src/lmqtt_packet.c:906-928 | the PUBLISH table: header, topic, packet id for QoS 1 and 2, payload, one more encoding counted past the end; stated by `TxFinders.FinderTable` |
| TxFinders.Find | src/lmqtt_packet.c:966-984 | the finder of an entry's kind; stated by `TxFinders.FinderTable` |
| TxFinders.FinderTable | src/lmqtt_packet.c:851-984 | every kind's finder hands out encoders for steps 0 to StepCount-1 and none after; a publish counts one more encoding when its last step is reached |
| TxFinders.OptionalFieldLength | src/lmqtt_packet.c:287-290 | an optional CONNECT string adds its calculated field length |
| TxFinders.ConnectHeaderFirst | src/lmqtt_packet.c:851-864 | for strings held in buffers, every CONNECT step after the first keeps the fixed header at the front |
| TxFinders.ConnectLength | src/lmqtt_packet.c:851-864 | for strings held in buffers, the seven steps write header, variable header and the five strings |
| TxFinders.ConnectLayout | src/lmqtt_packet.c:851-864 | for strings held in buffers, a CONNECT is sent as its fixed header followed by exactly the remaining length it announces |
| TxFinders.PublishLayout | src/lmqtt_packet.c:906-928 | for strings held in buffers, a PUBLISH is sent as its fixed header as built (DUP set iff the publish was encoded before, whatever its QoS), whose length bytes encode the remaining length, followed by exactly that many bytes |
| TxFinders.PublishStepsQos0 | src/lmqtt_packet.c:906-928 | for strings held in buffers, a QoS 0 PUBLISH writes its fixed header as built (with DUP once re-encoded), its topic and its payload |
| TxFinders.PublishStepsWithId | src/lmqtt_packet.c:906-928 | for strings held in buffers, a QoS 1 or 2 PUBLISH writes its fixed header as built, its topic, its packet id and its payload |
| TxFinders.TopicsBytesLength | src/lmqtt_packet.c:584-602 | for topics held in buffers, the topics write as many bytes as the length calculation counts |
| TxFinders.SubscribeStepWithQos | src/lmqtt_packet.c:866-884 | for a topic held in a buffer, the two steps of each subscription append its topic and its QoS |
| TxFinders.UnsubscribeStep | src/lmqtt_packet.c:886-904 | for a topic held in a buffer, the step of each subscription appends its topic |
| TxFinders.SubscribeSteps | src/lmqtt_packet.c:866-904 | for topics held in buffers, after the header, the steps write each subscription in order |
| TxFinders.SubscribeLayout | src/lmqtt_packet.c:866-904 | for topics held in buffers, a (UN)SUBSCRIBE is sent as its header followed by exactly the remaining length it announces |
| TxFinders.SubscribeLayoutNonEmpty | src/lmqtt_packet.c:866-904 | for topics held in buffers, with at least one subscription, the (UN)SUBSCRIBE bytes start with the header and make up the announced remaining length |
| TxFinders.SentTopicsLength | src/lmqtt_packet.c:534-545 | for topics held in buffers, the topics plus the packet id make up the remaining length |
| RxDecode.DecodeConnack | src/lmqtt_packet.c:1148-1174 | byte 0 accepted iff it is 0 or 1 (stored as session present), byte 1 iff at most 5 (stored as return code, FINISHED), any other offset an error; an error consumes nothing and changes nothing |
| RxDecode.CheckRemaining | src/lmqtt_packet.c:1389-1404 | a decoder's result stands exactly when it agrees with the remaining length: it is never turned from an error into anything else; FINISHED stands only at the packet's last byte and CONTINUE or WOULD_BLOCK only before it; anything else is an error |
| RxDecode.ConnackRun | src/lmqtt_packet.c:1148-1174 | the CONNACK decoder run over the remaining bytes one call at a time; stated by `RxDecode.ConnackRunAccepts` |
| RxDecode.ConnackRunAccepts | src/lmqtt_packet.c:1148-1174 | a CONNACK finishes iff its remaining length is 2 and both bytes are valid, and then holds them; two bytes always either finish or fail |
| RxDecode.DecodeSuback | src/lmqtt_packet.c:1268-1294 | the first code is refused unless the remaining length counts one code per subscription; invalid codes (other than 0, 1, 2, 0x80) are refused; an accepted code is stored in its subscription; FINISHED at the last one |
| RxDecode.SubackRun | src/lmqtt_packet.c:1268-1294 | the SUBACK decoder run over the return codes one call at a time; stated by `RxDecode.SubackRunFrom` and `RxDecode.SubackRunAccepts` |
| RxDecode.SubackRunFrom | src/lmqtt_packet.c:1268-1294 | from any code, a length-matched SUBACK finishes iff the remaining codes are present and valid, and then holds them in order |
| RxDecode.SubackRunAccepts | src/lmqtt_packet.c:1268-1294 | a SUBACK finishes iff its remaining length is 2 plus one byte per subscription and every code is valid; the subscriptions then hold the codes |
| Store.FirstMatch | src/lmqtt_store.c:8-23 | the index of the first entry of the given kind and packet id among the first n, or n |
| Store.Store.constructor | src/lmqtt_client.c:508-529 | a zeroed store: no entries, cursor 0, never touched |
| Store.Store.GetId | src/lmqtt_store.c:43-46 | returns the counter and increments it modulo 2^16 |
| Store.Store.Count | src/lmqtt_store.c:48-51 | the number of queued entries |
| Store.Store.HasCurrent | src/lmqtt_store.c:53-59 | true iff some entry is unsent |
| Store.Store.IsQueueable | src/lmqtt_store.c:61-64 | true iff the store is not full |
| Store.Store.Append | src/lmqtt_store.c:66-83 | fails iff full; otherwise appends the entry, a zeroed value for none |
| Store.Store.GetAt | src/lmqtt_store.c:85-104 | the entry at an index in range, else failure with zeroed outputs; nothing changes |
| Store.Store.PopAt | src/lmqtt_store.c:25-37 | removes exactly the entry at the index, later entries shifted left in order; the cursor moves back iff the index was before it |
| Store.Store.DeleteAt | src/lmqtt_store.c:106-109 | as PopAt, discarding the entry |
| Store.Store.MarkCurrent | src/lmqtt_store.c:111-119 | advances the cursor iff an entry is unsent, and says whether it did |
| Store.Store.DropCurrent | src/lmqtt_store.c:121-124 | removes the first unsent entry iff there is one; the cursor stays |
| Store.Store.Peek | src/lmqtt_store.c:126-130 | the first unsent entry, or failure with zeroed outputs |
| Store.Store.Find | src/lmqtt_store.c:8-23 | finds the first marked entry with the kind and packet id, or reports none among the marked ones |
| Store.Store.PopMarkedBy | src/lmqtt_store.c:132-144 | removes and returns the first marked match; unmarked entries are never popped |
| Store.Store.Shift | src/lmqtt_store.c:146-150 | removes and returns the oldest entry (FIFO), failing only when empty |
| Store.Store.UnmarkAll | src/lmqtt_store.c:152-155 | every entry is unsent again: the cursor returns to 0, the entries and the store's invariant unchanged |
| Store.Store.GetTimeout | src/lmqtt_store.c:157-172 | armed iff the interval (answer timeout with entries pending, keep alive otherwise) is nonzero and the store was touched; then the entry count and the time left to the deadline |
| Store.Store.Touch | src/lmqtt_store.c:174-177 | the store's stamp is the current time |
| Time.GetTimeoutTo | src/lmqtt_time.c:7-38 | disarmed with (0, 0) iff `when` is 0; otherwise the time left to `tm + when`, normalised, or (0, 0) once the deadline is reached |
| Time.Stamp.constructor | src/lmqtt_client.c:511 | a stamp that was never touched reads (0, 0) |
| Time.Stamp.Touch | src/lmqtt_time.c:40-43 | the stamp reads the current time |
| Io.Buffer.constructor | src/lmqtt_client.c:508-529 | an empty buffer of the given size |
| Io.Io.constructor | src/lmqtt_client.c:20-31 | a pump starts available, stale, successful, with count -1 |
| Io.Io.Append | src/lmqtt_client.c:48-51 | the bytes the callback stored after the contents now belong to them |
| Io.Io.Shift | src/lmqtt_client.c:53-57 | the first `count` bytes leave the buffer, the rest move to the front in order |
| Io.Io.MoveDown | src/lmqtt_client.c:55 | the memmove of io_shift: the bytes at `from` move to the front in order, the rest keep their values |
| Io.Io.Store | src/lmqtt_client.c:59-77 | the input callback's bytes land at the window's start, nothing else changes |
| Io.Io.Exec | src/lmqtt_client.c:59-77 | with an empty window or an unavailable side no call is made, the side becomes unavailable and nothing else changes; otherwise it records the callback's result and count, appends or shifts, stays available iff bytes moved, stops being stale once they have; false iff the result is an error |
| ResultFlags.IsError | include/lightmqtt/client.h:18-19 | true iff some bit of 0x00ff is set |
| ResultFlags.WouldBlockConnRd | include/lightmqtt/client.h:20-21 | true iff bit 0x0100 is set and 0x1000 clear; excludes IsEofRd |
| ResultFlags.WouldBlockConnWr | include/lightmqtt/client.h:22-23 | true iff bit 0x0200 is set and 0x1000 clear; excludes IsEofWr |
| ResultFlags.WouldBlockDataRd | include/lightmqtt/client.h:24-25 | true iff bit 0x0400 is set |
| ResultFlags.WouldBlockDataWr | include/lightmqtt/client.h:26-27 | true iff bit 0x0800 is set |
| ResultFlags.IsEof | include/lightmqtt/client.h:28-29 | true iff bit 0x1000 is set |
| ResultFlags.IsEofRd | include/lightmqtt/client.h:30-31 | true iff bits 0x1000 and 0x0100 are set; implies IsEof |
| ResultFlags.IsEofWr | include/lightmqtt/client.h:32-33 | true iff bits 0x1000 and 0x0200 are set; implies IsEof |
| ResultFlags.IsQueueable | include/lightmqtt/client.h:34-35 | true iff bit 0x2000 is set |
| ResultFlags.ResErrorIsOnlyAnError | include/lightmqtt/client.h:7-35 | LMQTT_RES_ERROR is an error and satisfies no EOF, blocking or queueable predicate |
| ResultFlags.BlockAndEofExclusive | include/lightmqtt/client.h:20-33 | a result never both blocks on and ends the connection, in either direction |
| Client.KeptStep | src/lmqtt_client.c:99-119 | what keeping the non-transient entries does to one more entry |
| Client.KeptExactly | src/lmqtt_client.c:99-119 | the kept entries are exactly the non-PINGREQ, non-DISCONNECT entries, in order; nothing is lost when none is transient |
| Client.KeptMembers | src/lmqtt_client.c:99-119 | an entry is kept iff it is in the queue and not transient |
| Client.KeptShorter | src/lmqtt_client.c:99-119 | cleaning never lengthens the queue |
| Client.KeptAllKept | src/lmqtt_client.c:99-119 | a queue with no transient entry is kept whole |
| Client.KeptIdempotent | src/lmqtt_client.c:99-119 | cleaning a cleaned queue changes nothing |
| Client.PosDuringStep | src/lmqtt_client.c:99-119 | the cursor during the loop counts the kept marked entries seen so far |
| Client.KeptGrows | src/lmqtt_client.c:99-119 | keeping more of a queue keeps at least as many entries |
| Client.DropStep | src/lmqtt_client.c:99-119 | deleting a transient entry at the loop index keeps the loop's contents invariant |
| Client.PosDuringEnd | src/lmqtt_client.c:99-119 | at the loop's end the cursor is the number of kept marked entries |
| Client.Client.constructor | src/lmqtt_client.c:508-529 | empty stores of the given capacities, an empty id set, empty buffers, in the initial state, with the next packet id, the keep alive and both timeouts zero as the memset leaves them |
| Client.Client.FlushStore | src/lmqtt_client.c:88-97 | the store ends empty and the flushed entries are returned oldest first |
| Client.Client.CleanupStores | src/lmqtt_client.c:99-119 | keeping the session, the main store keeps exactly its non-transient entries in order; otherwise it and the id set are emptied; the connect store is emptied in both cases |
| Client.Client.DropTransient | src/lmqtt_client.c:103-113 | the loop leaves exactly the kept entries, with the cursor over the kept marked ones |
| Client.Client.DropOrKeep | src/lmqtt_client.c:103-113 | one iteration: a transient entry is deleted, any other is stepped over |
| Client.Client.SetStateInitial | src/lmqtt_client.c:418-435 | closed, not failed, on the connect store, stores cleaned as CleanupStores for the session flag, connect store touched |
| Client.Client.SetStateConnecting | src/lmqtt_client.c:437-448 | open with empty read and write buffers |
| Client.Client.SetStateConnected | src/lmqtt_client.c:450-465 | open, on the main store, all entries unsent, stores cleaned as the clean-session flag says |
| Client.Client.SetStateFailed | src/lmqtt_client.c:467-478 | closed and failed |
| Client.Client.DoConnect | src/lmqtt_client.c:310-329 | succeeds iff the client is initial and the connect valid; then a CONNECT is queued and the client is connecting, else nothing changes |
| Client.Client.SubscribeWithKind | src/lmqtt_client.c:222-240 | a valid (UN)SUBSCRIBE takes the next packet id, even when the store is full, and is queued iff there is room |
| Client.Client.DoSubscribe | src/lmqtt_client.c:337-343 | succeeds iff connected, the subscribe valid and the store not full, queuing a SUBSCRIBE with the next packet id; a connected client with a valid subscribe advances the id modulo 2^16 even when full; otherwise nothing changes |
| Client.Client.DoUnsubscribe | src/lmqtt_client.c:351-357 | the same for UNSUBSCRIBE, including the id advance |
| Client.Client.DoPublish | src/lmqtt_client.c:365-388 | succeeds iff connected and the publish valid; QoS 0 is queued as PUBLISH_0 with id 0 using no id; QoS 1/2 as PUBLISH_1/2 with a fresh id |
| Client.Client.DoPingreq | src/lmqtt_client.c:395-405 | succeeds iff connected and room, queuing a PINGREQ |
| Client.Client.DoDisconnect | src/lmqtt_client.c:412-416 | succeeds iff connected and room, queuing a DISCONNECT |
| Client.Client.OnConnack | src/lmqtt_client.c:242-264 | on a closed client nothing changes (state, session flag, queues, cursors, current store, connect-store stamp, keep alive, id set); return code 0 connects with the connect's session flag and keep alive, all entries unsent, the queue and id set emptied for a clean session and otherwise kept without PINGREQ/DISCONNECT entries; any other code returns to the initial state, connect store touched, stores cleaned up for the unchanged session flag, keep alive unchanged |
| Client.Client.KeepAlive | src/lmqtt_client.c:201-220 | failed: ERROR with state and queue unchanged; timeout not armed or not elapsed: READY, nothing changes; elapsed with entries pending: the client fails with ERROR; elapsed with none: a PINGREQ is queued |
| Client.Client.Reset | src/lmqtt_client.c:531-535 | a failed client returns to the initial state on the connect store, touched now, with the stores cleaned up; any other client is left exactly as it was (state, flags, queues, cursors, id set, connect-store stamp) |
| Client.Client.Finalize | src/lmqtt_client.c:537-543 | the client fails for good and every store and the id set are emptied |
| Client.ProcessBuffer | src/lmqtt_client.c:480-502 | run_once goes on iff the pass blocked; a closed connection gives EOF with this side's flag and an error LMQTT_RES_ERROR alone, the blocking string untouched in both (with `Client.ProcessBufferEnds`); a data block reports the side's blocking string; the flag-keeping is stated by `Client.ProcessBufferBlockConn` and `Client.ProcessBufferBlockData` |
| Client.ProcessBufferEnds | src/lmqtt_client.c:484-492 | a pass that finds the connection closed stops run_once with LMQTT_RES_EOF and the side's flag; one that fails stops it with LMQTT_RES_ERROR alone |
| Client.ProcessBufferBlockConn | src/lmqtt_client.c:494-496 | a pass that blocked on the connection goes on, keeps every flag of the word and adds the side's connection flag |
| Client.ProcessBufferBlockData | src/lmqtt_client.c:497-501 | a pass that blocked on data goes on, keeps every flag of the word, reports the side's blocking string and adds the data flag iff that string is set |
| Client.RunOnceResult | src/lmqtt_client.c:620-661 | computes the run_once word from the statuses; what it means is stated by `Client.RunOnceError`, `Client.RunOnceResultFlags`, `Client.RunOnceInputEof` and `Client.RunOnceBlocking` |
| Client.RunOnceError | src/lmqtt_client.c:620-661 | the run_once result reports an error iff the keep-alive check, the output pass or an input pass that ran failed, and then it is exactly LMQTT_RES_ERROR |
| Client.RunOnceResultFlags | src/lmqtt_client.c:620-661 | the run_once result is an error iff a step failed, and then exactly LMQTT_RES_ERROR; an output EOF gives EOF_WR; an input EOF gives EOF_RD and not queueable; otherwise each blocking flag is set iff its side blocked, and queueable iff the store has room |
| Client.RunOnceInputEof | src/lmqtt_client.c:480-502 | when the input pass finds the connection closed, the result is EOF_RD, no error and not queueable |
| Client.RunOnceBlocking | src/lmqtt_client.c:620-661 | when both passes block, no error and no EOF; each blocking flag is set iff its side blocked that way, and queueable iff the store has room |

## Left out

- The transmit and receive drive loops, `lmqtt_tx_buffer_encode_impl` and `lmqtt_rx_buffer_decode_impl`, are not modelled. The model stops at the tables and decoders those loops call: the finders and the bytes each encoder step writes, and the CONNACK and SUBACK decoders run byte by byte.
- The decoders of PUBLISH and of the id-only packets (PUBACK, PUBREC, PUBREL, PUBCOMP, UNSUBACK, PINGRESP) are not modelled, because they call user memory-allocation and delivery callbacks. Also left out for the same reason:
  - `rx_buffer_decode_remaining_with_id`;
  - the pop handlers;
  - `rx_buffer_allocate_write`.
- In `client_process_buffer` and `lmqtt_client_run_once`, the buffer contents and the repetition of the passes are left out. `Client.ProcessBuffer` and `Client.RunOnceResult` take each pass's status as given, which is all the result word depends on. The byte moves of `client_buffer_transfer`, `process_input` and `process_output` are modelled by `Io.Io.Exec`.
- The user callbacks `on_connect`, `on_subscribe`, `on_unsubscribe`, `on_publish` and message delivery are not modelled. `FlushStore` returns the flushed entries, oldest first; the source calls the callback of each entry that has one.
- The setters `lmqtt_client_set_on_*`, `lmqtt_client_set_message_callbacks` and `lmqtt_client_set_default_timeout`, and `lmqtt_client_get_timeout`, only store or read fields. They are not modelled.
- The clock is the parameter `now`. Socket and string callbacks are parameters reporting their outcome.
- Resetting and finishing the rx/tx buffers (`lmqtt_rx_buffer_reset`, `lmqtt_tx_buffer_reset`, `lmqtt_rx_buffer_finish`, `lmqtt_tx_buffer_finish`) are not modelled. The model's client does not hold those buffers.
- The memmove byte counts in `lmqtt_id_set_remove` and `store_pop_at` are `sizeof` of an element's address, not of the moved elements. The model shifts the remaining elements left, as intended, and does not reproduce the byte arithmetic.
- A store entry holds a value copy of its packet. Aliasing between the entry and the caller's packet object is not captured; the publish encoding counter it updates lives in the copy.
- `lightmqtt/types.h` is not part of this model. The packet type range is taken as 1 (CONNECT) to 14 (DISCONNECT), and the `lmqtt_io_status_t` values as an enumeration.
- The string encoder is modelled on values (`StringEncode.StringEncode`): each call returns the bytes written and the string's new read position. It does not write into an output array, because of the many cases it splits into.
- `lmqtt_io_result_t` operating-system error numbers are not modelled. The macro `LMQTT_ERROR_NUM` is the constant 0 in the header, so it has no member of its own.
- RxDecode.DecodeSuback: requires the code's offset to lie within the subscriptions. The source indexes the subscriptions without checking, relying on its remaining-length check, which stops before that.
- Validate.CalcSubscribeRemainingLength: nothing upstream bounds the result by 268435455. `encode_remaining_length` asserts on it instead. The layout lemmas assume the bound (`TxFinders.SubscribeSendable`).
- TxFinders.ConnectLayout, TxFinders.SubscribeLayout, TxFinders.SubscribeLayoutNonEmpty, TxFinders.PublishLayout and their step lemmas (ConnectHeaderFirst, ConnectLength, PublishStepsQos0, PublishStepsWithId, TopicsBytesLength, SubscribeStepWithQos, UnsubscribeStep, SubscribeSteps, SentTopicsLength): they hold only for strings held in buffers (`ConnectSendable`, `SubscribeSendable`, `PublishSendable`). A string the source reads through a read callback is modelled one call at a time by `StringEncode.StringEncode`, and the packet layouts are not stated for it.
- Validate.ConnectValidate: accepts a will QoS of 1 or 2 without a will, as the source does.
- Client.Client.DoPublish: uses the corrected `Validate.PublishValidate`, which rejects a negative payload length. The as-written check is kept separately (see Findings).
- Client.Client.OnConnack: the CONNECT's response fields are the decoder's concern (`RxDecode.DecodeConnack`). The handler is given the return code, which is all that it reads.

## Findings

| source | as written | input that shows it | evidently intended | confidence | as-written member | corrected member |
|---|---|---|---|---|---|---|
| src/lmqtt_packet.c:244-251 | `string_encode` tests whether the length prefix ended inside this call with `pos >= 2`, where `pos` counts only this call's bytes | an empty string with `encode_len`, resumed at offset 1 with a 1-byte buffer: it writes the last prefix byte and returns CONTINUE, and the next call (offset 2) trips the assertion | compare the whole prefix written so far, `offset + pos >= 2`, and finish | not executed | StringEncode.StringEncodeAsWritten, StringEncode.EmptyStringResumedAtLastByte | StringEncode.StringEncode, StringEncode.BufferStringChunk |
| src/lmqtt_packet.c:720-725 | `lmqtt_publish_validate` bounds the remaining length from above only | a QoS 0 publish with a 1-byte topic and payload length -10 passes, and `encode_remaining_length` then asserts on a negative length | also require a non-negative payload length | not executed | Validate.PublishValidateAsWritten, Validate.NegativePayloadPassesValidation | Validate.PublishValidate |
| src/lmqtt_packet.c:646-666 | `publish_build_fixed_header` sets DUP on every encoding after the first | a QoS 0 publish queued again after being sent is framed with DUP and QoS 0, a combination that section 3.3.1.1 of MQTT 3.1.1 forbids and `fixed_header_decode` rejects | set DUP only for QoS 1 or 2, as section 3.3.1.1 of MQTT 3.1.1 requires and the library's own decoder enforces; this conflicts with the library's test tests/check_publish_encode.c:96-107 (`should_encode_dup`), which expects 0x38 for a QoS 0 publish with `encode_count` 1, so the transmit tables are modelled with the header as written | not executed | Builders.PublishFixedHeaderAsWritten, Builders.ResentQos0PublishIsMalformed | Builders.PublishFixedHeader, Builders.PublishFixedHeaderRoundTrip |
