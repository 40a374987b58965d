# remote-mod-server, modelled in Dafny

remote-mod-server is a small TypeScript service. It keeps a store of named,
typed parameters and a list of log lines. Two transports serve that store:

- a TCP server on port 3085 for a game mod;
- a WebSocket server on port 1984 for browser clients.

Both transports use hand-rolled little-endian binary layouts. This project
models the core of the service and proves properties of it:

- **Writer** (`binary/writer.ts`) is the growable `BinaryWriter`. Its class
  holds the byte region, the write head and one append per primitive layout.
  Every write method is proved to append exactly its layout to the bytes
  written so far. The 24- and 48-bit writers build their bytes one by one
  with truncating division. The unsigned ones are proved equal to the plain
  fixed-width layouts for v >= 0. The signed ones are proved to store two's
  complement for v >= -2^24 and v >= -2^48 respectively. Below 0 the
  unsigned writers do not produce those layouts: writeUInt24LE(-1) gives
  FF 00 00. The packed (LEB128) writer is proved to read back, and to be
  minimal in length.
- **Values** covers the value types of `state.ts` and the `sizes` table that
  both transports share.
- **StateStore** (`state.ts`) is the `State` class. It holds a parameter map
  and the log lines, and records every event each mutation emits.
- **Framer** covers `Client.handleRawData` of `modserver.ts`, the stream
  framer of the TCP side. It is a class with the client's four fields that
  runs the source's loop. It is proved against a single-step function
  `Advance` and the chunk function `Feed`. The proofs show that every framed
  packet is dispatched intact, and that the split of the stream into chunks
  never matters.
- **ModServer** (`modserver.ts`) holds the builders for the ParamApply,
  ParamDelete and Trigger packets, the replay of the store on a new
  connection, and `handleData`. Each builder is an imperative method that
  performs the source's stores into a zeroed region. It is proved equal to a
  byte-layout function, and the layouts are proved to read back.
- **WebSocket** (`websocket.ts`) holds `encodeValue`, the decoder for inbound
  messages that drives the store, the Logs and Params snapshots, and the log
  message. The decoder is proved to invert a reference encoder. The
  snapshots are written through `BinaryWriter` and proved equal to their
  layouts. The Logs layout is proved to read back.
- **Reader** is a bounds-checked cursor standing in for `BinaryReader`, whose
  source is not part of this model. **Wrappers** and **Bytes** provide
  Option/Result and the layouts `LE`/`BE` with their round trips.

The builders that depend on the `sizes` table (HandleParam, OnConnection,
EncodeValue, ParamsSnapshot) take the table as a parameter. The source's own
table is `Values.Sizes`. `Values.IntendedSizes` is the corrected table from
the Findings section. Lemmas are proved about the builders under both tables.

JavaScript numbers are integral here. Floats are kept as opaque IEEE-754
byte patterns, and strings as their UTF-8 bytes. Where the code stores a
number through a DataView (`setUint16`, `setInt32`, `setBigUint64`, ...), the
model writes `LE(v, n)` or `BE(v, n)`, by the store's byte order. That is v
modulo 256^n in two's complement, which is what such a store writes for an
integral number.

Where the written description of the protocol and the code disagree, the
model follows the code:

- F64 is given 4 bytes in the `sizes` table, not 8 (see Findings).
- A ParamApply packet carries a u16 name length of nameLen + 1 and a zero
  byte after the name.
- The Trigger packet has no length byte: it is the name followed by one zero
  byte.
- A ParamDelete name field is always 32 bytes. A longer name is cut to its
  first 32 bytes.

## Model

| member | source | states |
|---|---|---|
| Bytes.LERoundTrip | binary/writer.ts:87-90 | the n-byte little-endian store of v reads back as v modulo 256^n |
| Bytes.BERoundTrip | binary/writer.ts:89-90 | the n-byte big-endian store of v reads back as v modulo 256^n |
| Bytes.BEIsReversedLE | binary/writer.ts:56-59 | the big-endian layout is the little-endian one reversed |
| Bytes.SignedRoundTrip | binary/writer.ts:87 | an in-range signed value stored in n bytes reads back through a two's-complement load |
| Bytes.FromLERoundTrip | binary/writer.ts:55-57 | storing the number that a byte sequence denotes gives the sequence back |
| Bytes.CopyInto | binary/writer.ts:169 | `Uint8Array.set` at an offset changes exactly the bytes it copies |
| Writer.Grown | binary/writer.ts:33 | the capacity realloc is asked for: at least double the region and at least region + increment, and one of the two |
| Writer.Resized | binary/writer.ts:18-25 | a region resized to n bytes keeps its first min(old, n) bytes and zeroes the rest |
| Writer.BinaryWriter.Allocate | binary/writer.ts:4-6 | a fresh zeroed region of the requested size, head 0, nothing written |
| Writer.BinaryWriter.Realloc | binary/writer.ts:18-25 | the same region when the size is unchanged, else a fresh one with the old bytes kept up to the new size; head and written bytes untouched |
| Writer.BinaryWriter.Truncate | binary/writer.ts:27-29 | the region becomes exactly the bytes written |
| Writer.BinaryWriter.HasBytesLeftToWrite | binary/writer.ts:40 | whether writeHead + plus lies inside the region |
| Writer.BinaryWriter.IncrHead | binary/writer.ts:31-38 | returns the old head and advances it by value, growing the region until it fits, with the bytes written so far kept |
| Writer.BinaryWriter.GetBuffer | binary/writer.ts:42-46 | returns the truncated region, which holds exactly the bytes written |
| Writer.BinaryWriter.WriteBoolean | binary/writer.ts:52 | appends 1 for true and 0 for false |
| Writer.BinaryWriter.WriteSInt8 | binary/writer.ts:54 | appends v mod 256 |
| Writer.BinaryWriter.WriteUInt8 | binary/writer.ts:55 | appends v mod 256 |
| Writer.BinaryWriter.WriteSInt16LE | binary/writer.ts:56 | appends LE(v, 2) |
| Writer.BinaryWriter.WriteUInt16LE | binary/writer.ts:57 | appends LE(v, 2) |
| Writer.BinaryWriter.WriteSInt16BE | binary/writer.ts:58 | appends BE(v, 2) |
| Writer.BinaryWriter.WriteUInt16BE | binary/writer.ts:59 | appends BE(v, 2) |
| Writer.BinaryWriter.WriteSInt24LE | binary/writer.ts:61-66 | appends the byte-by-byte 24-bit layout of the folded value |
| Writer.BinaryWriter.WriteUInt24LE | binary/writer.ts:68-72 | appends low byte, then the truncated quotients by 2^8 and 2^16, each mod 256 |
| Writer.BinaryWriter.WriteSInt24BE | binary/writer.ts:74-79 | appends the big-endian 24-bit layout of the folded value |
| Writer.BinaryWriter.WriteUInt24BE | binary/writer.ts:81-85 | appends the same three bytes, most significant first |
| Writer.BinaryWriter.WriteSInt32LE | binary/writer.ts:87 | appends LE(v, 4) |
| Writer.BinaryWriter.WriteUInt32LE | binary/writer.ts:88 | appends LE(v, 4) |
| Writer.BinaryWriter.WriteSInt32BE | binary/writer.ts:89 | appends BE(v, 4) |
| Writer.BinaryWriter.WriteUInt32BE | binary/writer.ts:90 | appends BE(v, 4) |
| Writer.BinaryWriter.WriteSInt48LE | binary/writer.ts:92-97 | appends the 48-bit layout of the folded value |
| Writer.BinaryWriter.WriteUInt48LE | binary/writer.ts:99-106 | appends the six truncated-quotient bytes, least significant first |
| Writer.BinaryWriter.WriteSInt48BE | binary/writer.ts:108-113 | appends the big-endian 48-bit layout of the folded value |
| Writer.BinaryWriter.WriteUInt48BE | binary/writer.ts:116-123 | appends the six bytes, most significant first |
| Writer.BinaryWriter.WriteSInt64LE | binary/writer.ts:125 | appends LE(v, 8) |
| Writer.BinaryWriter.WriteUInt64LE | binary/writer.ts:126 | appends LE(v, 8) |
| Writer.BinaryWriter.WriteSInt64BE | binary/writer.ts:127 | appends BE(v, 8) |
| Writer.BinaryWriter.WriteUInt64BE | binary/writer.ts:128 | appends BE(v, 8) |
| Writer.BinaryWriter.WriteFloat32LE | binary/writer.ts:130 | appends the 4-byte pattern as given |
| Writer.BinaryWriter.WriteFloat32BE | binary/writer.ts:131 | appends the 4-byte pattern reversed |
| Writer.BinaryWriter.WriteFloat64LE | binary/writer.ts:132 | appends the 8-byte pattern as given |
| Writer.BinaryWriter.WriteFloat64BE | binary/writer.ts:133 | appends the 8-byte pattern reversed |
| Writer.BinaryWriter.WritePackedUInt32 | binary/writer.ts:135-147 | the do-while loop appends PackedUInt32(v), one byte per round |
| Writer.BinaryWriter.WritePackedSInt32 | binary/writer.ts:149-151 | appends the packed layout of v reinterpreted as unsigned 32-bit |
| Writer.BinaryWriter.WriteBytes | binary/writer.ts:153-170 | appends the bytes; growing the region first does not lose them |
| Writer.BinaryWriter.WriteString | binary/writer.ts:172-174 | appends the UTF-8 bytes with no prefix and no terminator |
| Writer.UInt24IsFixedWidth | binary/writer.ts:68-85 | for v >= 0 the byte-by-byte 24-bit writers produce LE(v, 3) and BE(v, 3) |
| Writer.SInt24IsTwosComplement | binary/writer.ts:61-85 | for v >= -2^24 the signed 24-bit writers store v in two's complement, the fold being 2^24 + v for negative v |
| Writer.SInt24MinusOne | binary/writer.ts:61-66 | -1 is written as FF FF FF by both signed 24-bit writers |
| Writer.UInt24LENegativeUnfolded | binary/writer.ts:68-72 | writeUInt24LE(-1) writes FF 00 00: truncating quotients of a negative value are 0 |
| Writer.UInt48IsFixedWidth | binary/writer.ts:99-123 | for v >= 0 the 48-bit writers produce LE(v, 6) and BE(v, 6) |
| Writer.SInt48IsTwosComplement | binary/writer.ts:92-123 | for v >= -2^48 the signed 48-bit writers store v in two's complement |
| Writer.PackedStep | binary/writer.ts:136-146 | one loop round on a u32: low seven bits, flagged exactly when more follow, and the value shifted by seven |
| Writer.PackedEmits | binary/writer.ts:143-146 | after one round, what remains to write is the packed layout of the shifted value, or nothing once it is zero |
| Writer.PackedProgress | binary/writer.ts:145-146 | each round lowers the loop measure, so the loop ends for every input |
| Writer.PackedUInt32Denotes | binary/writer.ts:135-147 | the packed layout of a u32 is terminated and denotes the value |
| Writer.PackedUInt32Length | binary/writer.ts:135-147 | the layout has the minimal length ceil(bits/7), at least one byte and at most five |
| Writer.PackedUInt32RoundTrip | binary/writer.ts:135-147 | a LEB128 reader returns the value and the layout's length, whatever follows |
| Writer.PackedSInt32Negative | binary/writer.ts:149-151 | every negative i32 takes the full five bytes: there is no zig-zag step |
| Writer.PackedOutsideUInt32 | binary/writer.ts:135-147 | outside u32 the loop misbehaves: 2^32 gives a lone continuation byte, and -129 starts with an unflagged byte yet goes on |
| Values.TypeOf | state.ts:4-16 | the enum tag of a value; 9 exactly for strings and 10 exactly for triggers |
| Values.StoreBytes | modserver.ts:85-94 | the bytes of each typed DataView store, with the store's width |
| Values.ValueField | modserver.ts:84-94 | a field of `room` bytes holding the store, or the RangeError of a store that runs past it |
| Values.SizesAsWritten | modserver.ts:13 | with the table as written every non-string store fits its field except F64's |
| Values.IntendedSizesFit | modserver.ts:13 | with F64 given 8 bytes, every non-string value fills its field exactly |
| Values.UnsignedLoad | websocket.ts:54-58 | an unsigned field reads back the number stored in it |
| Values.SignedLoad | websocket.ts:55-59 | a two's-complement field reads back the number stored in it |
| Values.StoreLoadRoundTrip | websocket.ts:54-62 | loading what a store wrote gives back every in-range value of every fixed-width type |
| StateStore.State.constructor | state.ts:25-31 | an empty store with no logs and no events |
| StateStore.State.PushLog | state.ts:33-36 | appends the log line, leaves the params alone, emits "log" |
| StateStore.State.SetParam | state.ts:38-41 | sets name to the value, leaves the logs alone, emits "param" |
| StateStore.State.DeleteParam | state.ts:43-46 | removes the name if present and emits "deletedParam" either way |
| StateStore.State.GetParam | state.ts:48-50 | the stored value exactly when the name is stored |
| StateStore.State.Trigger | state.ts:52-56 | stores (Trigger, false) under the name and emits "trigger" |
| StateStore.EnumeratesTail | modserver.ts:126 | dropping the first entry of an enumeration enumerates the store without that name |
| StateStore.EnumerationCount | modserver.ts:126 | an enumeration of the store (Object.entries) has one entry per stored name |
| Framer.Advance | modserver.ts:31-52 | one loop iteration: waits exactly when the chunk is shorter than what is wanted, consumes what was wanted, dispatches one packet exactly in the body phase, and keeps the framer invariant |
| Framer.Feed | modserver.ts:29-54 | the iterations over one chunk keep the framer invariant |
| Framer.AdvanceShort | modserver.ts:31-38 | a chunk shorter than what is wanted only fills the accumulator, and the next chunk continues as the joined chunk would |
| Framer.AdvanceLong | modserver.ts:31-52 | a chunk that completes the segment completes it the same way when more bytes follow |
| Framer.FeedSplit | modserver.ts:29-54 | feeding a then b gives the same state and the same packets, in order, as feeding a ++ b |
| Framer.ChunkingIrrelevant | modserver.ts:29-54 | however the transport splits the stream, the state and the dispatched packets are those of the unsplit stream |
| Framer.HeaderRead | modserver.ts:40-45 | four header bytes move the framer to the body phase with the declared type and length |
| Framer.FeedFrame | modserver.ts:29-54 | in the header phase a framed packet is dispatched intact, provided a byte follows an empty body, and the framer waits for the next header |
| Framer.FeedHeader | modserver.ts:40-45 | the header of a framed packet takes the framer to its body phase |
| Framer.FeedBody | modserver.ts:46-52 | in the body phase a complete body is dispatched as one packet |
| Framer.EmptyBodyWaits | modserver.ts:37-38 | a zero body length leaves the empty packet pending until another byte arrives |
| Framer.FeedFrames | modserver.ts:29-54 | a stream of framed packets is dispatched packet for packet |
| Framer.Client.constructor | modserver.ts:24-27 | a new client waits for a four-byte header with type 0 |
| Framer.Client.Iterate | modserver.ts:31-52 | the loop body takes the client's fields exactly as Advance does, and the early return is Advance's Wait |
| Framer.Client.HandleRawData | modserver.ts:29-54 | the loop leaves the fields and dispatches the packets that Feed gives for the chunk |
| ModServer.PreparedLayout | modserver.ts:105-111 | a prepared buffer reads back its type and size mod 2^16, with every body byte zero |
| ModServer.PrepareBuffer | modserver.ts:105-111 | a fresh region of 4 + size bytes holding the prepared layout |
| ModServer.ParamApplyOutcome | modserver.ts:76-103 | with the table as written a trigger is not announced, an F64 fails, and every other value yields a packet |
| ModServer.ApplyBytesLayout | modserver.ts:81-84 | a ParamApply packet holds its type, its body length mod 2^16, nameLen + 1, the name, a zero byte and the value field, at the offsets a reader expects |
| ModServer.ParamApplyField | modserver.ts:79-99 | the field of a typed value is exactly its store padded to the table's width; a string's field is [len + 1][text][0] |
| ModServer.ParamApplyIntendedF64 | modserver.ts:94 | with F64 given 8 bytes the ParamApply packet builds and its field loads back as the whole 8-byte pattern |
| ModServer.ParamApplyValueRoundTrip | modserver.ts:84-92 | a receiver that knows the type reads the value back from offset 7 + nameLen |
| ModServer.ApplyBytesFramed | modserver.ts:29-54 | the server's own framer receives a ParamApply packet as one packet whose body follows the header |
| ModServer.PrepareApply | modserver.ts:81-83 | the prepared ParamApply buffer with the u16 nameLen + 1 at offset 4, the name at offset 6 and zeros after it |
| ModServer.StoreStringField | modserver.ts:95-98 | the string case stores [len + 1] at 7 + nameLen and the text after it, leaving the last byte zero |
| ModServer.StoreTypedField | modserver.ts:84-94 | the typed cases store the value at 7 + nameLen, or fail when the store runs past the field |
| ModServer.HandleParam | modserver.ts:76-103 | the buffer built by handleParam's stores is ParamApply's layout; a trigger gives none and a store past the field fails |
| ModServer.OnDeletedParam | modserver.ts:62-66 | the ParamDelete packet: the header and a 32-byte name field, cut or zero-padded |
| ModServer.OnTrigger | modserver.ts:67-71 | the Trigger packet: the header with length nameLen + 1, the name and one zero byte |
| ModServer.CString | modserver.ts:137 | readCString gives the longest prefix without a zero byte, stopping at the first zero |
| ModServer.CStringOfTerminated | modserver.ts:137 | a text without zero bytes comes back whole from its terminated field |
| ModServer.NamePacketsRoundTrip | modserver.ts:62-71 | a receiver reads the delete and trigger names back as C strings (a delete name that fits the field) |
| ModServer.DeleteNameRoundTrip | modserver.ts:62-66 | a zero-free name of at most 32 bytes reads back from the zero-padded delete field |
| ModServer.HandleData | modserver.ts:132-142 | a Log packet yields the text up to its first zero byte; every other type yields nothing |
| ModServer.LogPacketText | modserver.ts:136-140 | a zero-terminated log packet yields its text |
| ModServer.ReplayCount | modserver.ts:120-130 | the replay to a new connection fails exactly when some entry is F64; otherwise it sends one packet per non-trigger entry |
| ModServer.ReplayCountIntended | modserver.ts:120-130 | with F64 given 8 bytes the replay never fails and sends one packet per non-trigger entry |
| ModServer.AnnouncedStored | modserver.ts:126-128 | an enumeration of a store has one non-trigger entry per stored non-trigger name |
| ModServer.ReplayOfStore | modserver.ts:120-130 | replaying a store's entries fails, with the table as written, exactly when some stored value is F64; with F64 given 8 bytes it sends one packet per stored non-trigger name |
| ModServer.ReplayStep | modserver.ts:126-128 | the replay from entry i on is that entry's outcome followed by the replay of the rest |
| ModServer.OnConnection | modserver.ts:126-128 | the loop over the entries sends ReplayOf's packets, in order, stopping at the first failure |
| WebSocket.EncodedValueShape | websocket.ts:16-34 | a string encodes to its bytes, F64 fails, Boolean is one 0/1 byte, Trigger is empty, and every other store fills the table width exactly |
| WebSocket.EncodedValueIntended | websocket.ts:16-34 | with F64 given 8 bytes every value encodes to its own store, a string to its bytes |
| WebSocket.EncodeValue | websocket.ts:16-34 | the fresh DataView holds EncodedValue's bytes, or the store fails |
| WebSocket.LengthPrefixed | websocket.ts:51 | readString(readUInt8()) returns the bytes after the length byte and the next offset, or Underrun |
| WebSocket.ValueAtStored | websocket.ts:54-62 | each fixed-width read sees the value that was stored |
| WebSocket.NameField | websocket.ts:51 | a u8 length and that many bytes at offset 1 read back as the bytes |
| WebSocket.ValueRoundTrip | websocket.ts:53-64 | the value switch reads back the value a client sent, whatever follows |
| WebSocket.ApplyRoundTrip | websocket.ts:50-66 | an ApplyParam message decodes to its name and value |
| WebSocket.ParseEncodeRoundTrip | websocket.ts:49-77 | decoding what a client encodes gives back its command, whatever follows |
| WebSocket.ParseIgnores | websocket.ts:49-77 | other tags, and a value type outside the switch, leave the store alone |
| WebSocket.ReadValue | websocket.ts:53-64 | the value switch, one typed read per case, returns ValueAt's result |
| WebSocket.ParseMessage | websocket.ts:48-77 | the tag decides the command and other tags are ignored; the name of every command is the length-prefixed field at offset 1; a missing field fails with Underrun |
| WebSocket.ReadInteger | websocket.ts:54-59 | the six typed integer reads return ValueAt's result, the odd tags signed |
| WebSocket.ReadCommand | websocket.ts:48-77 | the reads on a fresh reader decode to ParseMessage's result |
| WebSocket.HandleMessage | websocket.ts:46-78 | the decoded command calls setParam, deleteParam or trigger with its fields; an ignored or failed decode changes nothing |
| WebSocket.LogsAllocationExact | websocket.ts:84 | the Logs writer's allocation is exactly the length of what it writes |
| WebSocket.LogRecordsCons | websocket.ts:87-90 | the records read front to back: the first record, then the others |
| WebSocket.ParseRecordsRoundTrip | websocket.ts:87-90 | records of lines under 256 bytes read back as the lines |
| WebSocket.LogsRoundTrip | websocket.ts:82-92 | a Logs snapshot of lines under 256 bytes reads back as the lines |
| WebSocket.CountRoundTrip | websocket.ts:86 | the u64 LE count after the tag reads back as the count |
| WebSocket.LogsSnapshot | websocket.ts:82-92 | the writer's buffer is LogsLayout: [0][u64 count][u8 len, bytes]* |
| WebSocket.LogMessageIsSnapshot | websocket.ts:117-125 | a log message is a one-line Logs snapshot, and its allocation is exact |
| WebSocket.OnLog | websocket.ts:117-125 | the writer's buffer is LogMessage: [0][u64 1][u8 len][bytes] |
| WebSocket.EncodeEntries | websocket.ts:94 | the map over the entries keeps their number, or fails |
| WebSocket.ParamsAllocationSlack | websocket.ts:95 | the Params allocation is one byte too large per non-string entry, and getBuffer trims the excess |
| WebSocket.WriteRecord | websocket.ts:98-105 | one loop round appends [u8 nameLen][name][u8 type]([u8 valueLen] for strings)[value] |
| WebSocket.ParamsSnapshot | websocket.ts:93-108 | the Params snapshot is ParamsLayout of the encoded entries, or the encodeValue failure |
| WebSocket.ParamsWrite | websocket.ts:95-107 | the writer's buffer is [1][u64 count][records] |
| WebSocket.EncodeEntriesFails | websocket.ts:94 | the Params snapshot fails exactly when some parameter is an F64 |
| WebSocket.EncodeEntriesIntended | websocket.ts:94 | with F64 given 8 bytes the encoding never fails, and each entry carries its name, its type and its own store |
| WebSocket.StartMessage | websocket.ts:84-86 | a fresh writer holding the message tag and the u64 count |
| WebSocket.FinishMessage | websocket.ts:91 | getBuffer gives exactly the bytes written |
| Reader.BinaryReader.ReadBytes | websocket.ts:51 | readString's bytes: the next n bytes, moving the cursor past them, or Underrun without moving |
| Reader.BinaryReader.ReadUInt8 | websocket.ts:49 | the next byte, or Underrun without moving |
| Reader.BinaryReader.ReadIntLE | websocket.ts:54-59 | the unsigned or two's-complement little-endian integer of the given width, or Underrun without moving |
| Reader.Take | websocket.ts:51 | the n bytes at the offset, or Underrun exactly when the region ends first |

## Left out

- index.ts (process wiring) is not part of this model.
- The transports are not modelled: sockets, `listen`, `broadcast`, the client lists and their `splice` on close. Each builder returns the bytes it would broadcast.
- Persistence of the params to params.json (state.ts:25-31) is not modelled. The store starts empty.
- Console and stdout output is a value, not an effect: HandleData returns the text that handleData writes.
- Floating point: F32 and F64 values are their IEEE-754 byte patterns. Arithmetic on them never happens in the core.
- UTF-8 encoding and decoding happen outside the model. Strings are their encoded bytes. `encodeInto` truncation is modelled by byte count only, not at character boundaries.
- JavaScript numbers above 2^53 and non-integral numbers are not modelled. Every numeric value is an integer.
- The order of `Object.entries` is a parameter: the builders take any sequence of entries. ModServer.ReplayOfStore ties the replay to a store's params for every enumeration of them (StateStore.Enumerates).
- `writeBytes` only models its byte-array case. Unwrapping readers, writers and views to their ArrayBuffer is not modelled.
- binary/reader.ts, binary/sizeComputer.ts and binary/index.ts are not part of this model. Reader.BinaryReader stands in for the reads the core performs: each takes its width and fails with Underrun, without moving, when too few bytes remain. readBoolean is read as one byte, true when non-zero. readFloat64LE takes eight bytes.
- The protected BinaryWriter constructor with an explicit write head, `getReader` and `write(instance)` are not modelled. Only `allocate` creates writers.
- The u16 fields built with `Uint16Array` are taken as little-endian, the byte order of every mainstream host.
- The source writes the string before its length byte (modserver.ts:96-97). ModServer.StoreStringField writes the length byte first. Likewise the source stores the name (modserver.ts:82) before the u16 nameLen + 1 (modserver.ts:83), and ModServer.PrepareApply stores the u16 first. In both cases the two stores are disjoint, so the bytes are the same.
- StateStore.State.SetParam, StateStore.State.DeleteParam and StateStore.State.GetParam: the store is a Dafny `map`. JavaScript's inherited and special keys of the plain object `params` (state.ts:22) are not modelled. In the source, `setParam("__proto__", …)` replaces the object's prototype instead of adding an entry, so `Object.entries` (modserver.ts:126, websocket.ts:94) leaves it out, and `deleteParam("__proto__")` has no effect. `getParam("toString")` returns the inherited function instead of `undefined`. The model adds or removes an ordinary entry for every name, and returns None for every absent name.
- Framer.Client.HandleRawData returns the dispatched packets instead of calling `server.handleData`. ModServer.HandleData is applied to each packet separately.
- WebSocket.HandleMessage: a decode that runs out of bytes is an `Err` that leaves the store unchanged. In the source the reader throws inside the listener.
- WebSocket.EncodeCommand is a reference encoder for clients. The source has no client encoder; it exists to state the decoder's round trip.

## Findings

| source | as written | input that shows it | evidently intended | confidence | as-written member | corrected member |
|---|---|---|---|---|---|---|
| modserver.ts:13, modserver.ts:94, websocket.ts:14, websocket.ts:31 | the `sizes` table gives F64 4 bytes, but the F64 case stores 8 bytes with `setFloat64` into a view of that field | any F64 parameter, e.g. F64 with pattern 00 00 00 00 00 00 F0 3F (1.0): the store runs past the buffer and throws a RangeError, so no ParamApply packet goes out, onConnection stops its replay, and the Params snapshot fails | F64 gets 8 bytes in the table | high, not executed | Values.SizesAsWritten, ModServer.ParamApplyOutcome, ModServer.ReplayCount, WebSocket.EncodeEntriesFails | Values.IntendedSizesFit, ModServer.ParamApplyIntendedF64, ModServer.ReplayCountIntended, WebSocket.EncodeEntriesIntended |
