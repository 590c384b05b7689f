# Haentgl in Dafny

Haentgl is a MySQL proxy: it authenticates clients, hands each of them a pooled backend connection and
relays commands and replies. This project models the stateful protocol code it is made of and proves
what that code keeps over every run. Sockets are byte sequences whose reads and writes take whatever
portion they please; `dafny verify dfyconfig.toml` checks everything.

The modules follow the program:

- `ByteStrings`, `Packets`, `Streams`: frames, packets and whole byte streams. `Packets.Parse` is
  `packet`, `Packets.Split` the framing of `end_packet`.
- `PacketIO`, `Transport`: the writer and the two readers as classes, and whole runs of them.
- `Codecs`, `Writers`, `Responses`: length-encoded values, the OK packet, the grammar of server packets
  and the tests by which the proxy tells data from terminators.
- `QueryRuns`, `Forwarders`, `PreparedStatements`, `ChangeUser`: where a reply ends, as functions of the
  packets seen, and the loops that run on the reader and writer objects.
- `Sessions`, `SessionAlignment`: the command loop, and sessions of conforming exchanges.
- `Negotiation`: the capabilities a pooled connection was given in its handshake, against those of the
  client it serves.
- `Pool`, `Connections`, `Lifecycles`: the life of pooled connections, authentication, one session after
  another on the same connection, and every such visit as a path through the events of the pool.
- `ActivityWindow`, `TenantKeys`, `Handshakes`, `Resolver`: the double-buffered activity table, the
  tenant key in the login name, the client's handshake response, the control-plane resolver.

The main results are `Transport.EndToEnd` (what is written arrives, under any short writes and reads,
iff every packet survives framing), `PacketIO.PacketReader.NextAsync` (the incremental reader refines the
pure parser), `QueryRuns.QueryExact` (every response is consumed exactly), `SessionAlignment.Aligned`
and `SessionExact` (the backend is at a response boundary at every loop head and at the end, in whichever
of three ways the session ends), `SessionAlignment.NotTakenExact` and `NotTakenBoundary` (where a client
that stops taking packets leaves it, and when that is a boundary), `Connections.VisitsExact` and `VisitExactly` (nothing leaks from one client of a pooled
connection to the next, exactly if their capabilities agree), `Pool.PoolSafe` (when every run of the pool
is safe), `Lifecycles.VisitRuns` (every visit is a stretch of such a run) and `ActivityWindow.FreezesAreWindows` and `LostExactly` (what every freeze returns in every
interleaving, and which puts are lost).

How the model reads the code:

- Panics are outcomes, not preconditions. Plain `+` on u8 and u16 panics or wraps depending on the build
  profile; `ByteStrings.OVERFLOW_CHECKS` is left open, so statements hold for both.
- A method that changes state is proved against a function of the packets pending before the call;
  `log` and `pending` are ghost fields that say which packets a writer was given and a reader will still
  deliver. Their tie to the bytes is stated in `PacketIO.Carries` and `PacketIO.Delivers`.
- A client may stop taking packets at any point: `room` says how many more it takes, and every forwarder
  says where it then stops and what it leaves unread.
- The activity table is sharded: its iterator passes the places of absent keys and does not come back, and
  it is cleared place by place.
- A reader that yields no packet has failed or, inside `packet`, panicked; the ghost field `ending` says
  which, and the two are kept apart throughout. After a panic nothing is said of the reader's buffer.
- Flag words are sets of bit positions.

Where the code falls short of what one would expect of it, the exact condition is proved:

- `end_packet` does not close a payload whose length is a positive multiple of 16777215
  (`Packets.FramingRoundTrip`, `Packets.ParseUnclosed`), and may send an empty payload short
  (`Transport.EndToEnd`).
- `forward_one_packet` starts the outgoing frames at the last incoming id, so packets of several frames
  are renumbered (`Packets.Reforward`).
- The reset sent in place of COM_QUIT is numbered where the last command stopped
  (`SessionAlignment.ResetNumber`).
- The capabilities of a backend connection are those of the client whose handshake was passed on, while
  every reply is read under those of the client being served. Where the two differ in
  CLIENT_DEPRECATE_EOF the forwarder runs past the end of a result set; where the client alone expects
  session tracking an OK packet may be misread (`Negotiation.AgreementExactly`,
  `Negotiation.MixedClientStarves`, `Connections.VisitExactly`).
- A client that stops taking packets before the end of a reply leaves the rest of it on the connection, which
  goes back to the pool in the command phase and meets the next client (`SessionAlignment.NotTakenExact`,
  `NotTakenBoundary`, `Connections.NotTakenMeetsNext`).
- COM_STMT_SEND_LONG_DATA is waited for, and no later command gets through
  (`SessionAlignment.LongDataMisaligns`).
- A packet between the request to switch the plugin and the verdict, such as AuthMoreData, is taken for a
  grant and leaves the connection behind by what is unread (`Connections.VerdictExactly`,
  `MoreDataHeard`).
- A refused COM_CHANGE_USER ends the session and leaves the connection in the command phase, so it is
  handed out again although an authentication failed on it (`Pool.PoolSafe`, `RefusedHandedOut`).
- A client that goes away inside a COM_CHANGE_USER, or whose answer begins with 0xff, leaves the backend
  waiting or its verdict unread (`SessionAlignment.DepartureExact`, `ChangeUser.ErrAnswerExact`,
  `Connections.DepartureStrandsNext`).
- A connection dropped in the middle of authentication goes back to the pool as if fresh
  (`Pool.AbandonExactly`, `AbandonedTwiceGreeted`).
- A cursor announced together with an unknown status bit is not seen (`QueryRuns.CursorExactly`).
- A put divided by a switch is lost if it comes too late for the copy, because its key was copied, its place
  passed or the copy ended, and otherwise moved to the window being copied or to the next one
  (`ActivityWindow.LostExactly`, `PassedPutIsLost`, `AheadExactly`).
- `ok_packet` returns as rest what follows the warnings, not what follows the text
  (`Codecs.OkFixedReadBack`), and misreads the older layouts (`Codecs.OldOkMisread`); empty names are
  refused and NUL-terminated authentication data is not skipped (`Handshakes.HandshakeRoundTrip`,
  `HandshakeNulExactly`).
- The tenant key is decoded with offsets summed in a byte (`TenantKeys.TenantKeyRoundTrip`).

## Model

| member | source | states |
|---|---|---|
| `Packets.ParsePacket` | src/proxy/src/protocol/mysql/packet/mod.rs:93-118 | the loops of `packet` (collect full frames, take one last frame, join the bodies while checking the sequence ids) compute the recursive parser `Parse`, whose meaning the lemmas below state without it |
| `Packets.FrameReadBack` | src/proxy/src/protocol/mysql/packet/mod.rs:25-38 | an encoded frame is read back whole with any suffix untouched, and counts as full iff its body has length 16777215 |
| `Packets.Ping` | src/proxy/src/protocol/mysql/packet/mod.rs:125-138 | the frame of a one-byte packet, octet by octet |
| `Packets.ParseChain` | src/proxy/src/protocol/mysql/packet/mod.rs:93-118 | every chain of full frames and one shorter frame, whatever follows it, parses to its joined bodies, last sequence id and untouched suffix, and panics precisely when the full frames are not numbered consecutively |
| `Packets.ParsedIsChain` | src/proxy/src/protocol/mysql/packet/mod.rs:93-118 | conversely, whenever `packet` decides, a chain ending in a frame shorter than the maximum stands at the head of its input |
| `Packets.ParseStable` | src/proxy/src/protocol/mysql/packet/mod.rs:93-118 | prefix stability: what `packet` decides on a buffer it decides the same on every extension, the extra bytes going to the rest |
| `Packets.IncompleteExactly` | src/proxy/src/protocol/mysql/packet/mod.rs:93-118 | `packet` reports insufficient input iff no complete chain is a prefix of its input: lack of bytes is its only failure |
| `Packets.ParsedSuffix` | src/proxy/src/protocol/mysql/packet/mod.rs:93-118 | the rest `packet` returns is a suffix of its input |
| `Packets.ParsedLength` | src/proxy/src/protocol/mysql/packet/mod.rs:93-118 | the bytes consumed are the payload and one header per frame of it, closing frame included |
| `Packets.FramingRoundTrip` | src/proxy/src/protocol/mysql/packet/packet_writer.rs:94-140 | `packet` gives back payload and last sequence id from the frames of `end_packet` with nothing left over iff the length is zero or no multiple of 16777215 and the ids stay in range; it asks for more bytes iff the length is a positive multiple |
| `Packets.ParseUnclosed` | src/proxy/src/protocol/mysql/packet/packet_writer.rs:97-124 | a payload of a positive multiple of the maximum is glued in front of whatever packet comes next (or panics with it) |
| `Packets.ParseClosed` | src/proxy/src/protocol/mysql/packet/mod.rs:93-118 | with any suffix, a closed packet parses to itself iff its ids stay in range, and otherwise panics |
| `Packets.Reforward` | src/proxy/src/server/forwarder/mod.rs:30-44 | passing a received packet on is the identity on bytes iff its number of full frames is a multiple of 256 (so for every one-frame packet), and the payload survives iff the shifted ids stay in range |
| `Packets.WireLength` | src/proxy/src/protocol/mysql/packet/packet_writer.rs:94-140 | the length `end_packet` puts on the wire for every payload |
| `Streams.SurvivorsReceived` | src/proxy/src/protocol/mysql/packet/mod.rs:93-118 | surviving packets are received one by one in order, and the stream behind them is received as if alone |
| `Streams.DrainedLength` | src/proxy/src/protocol/mysql/packet/mod.rs:93-118 | a stream that ends cleanly is exactly as long as the packets received from it |
| `Streams.TransportExactly` | src/proxy/src/protocol/mysql/packet/packet_writer.rs:94-140 | all packets written come out in order and the stream ends cleanly iff every single one survives framing |
| `PacketIO.PacketWriter.Write` | src/proxy/src/protocol/mysql/packet/packet_writer.rs:80-86 | appends to the buffer |
| `PacketIO.PacketWriter.WriteFrame` | src/proxy/src/protocol/mysql/packet/packet_writer.rs:109-123 | whatever part of the header and chunk the vectored write takes, the rest follows, so each frame goes out whole and once |
| `PacketIO.PacketWriter.WriteChunks` | src/proxy/src/protocol/mysql/packet/packet_writer.rs:99-124 | the chunk loop sends exactly the encoded frames of the payload and steps the sequence id once per frame |
| `PacketIO.PacketWriter.EndPacket` | src/proxy/src/protocol/mysql/packet/packet_writer.rs:94-140 | under every short write, a non-empty payload goes out as its frames, an empty one as a prefix of its header and without advancing the id, the whole header being offered once; the buffer is emptied and the log gains this packet; if the write fails, the call fails with the buffer emptied and any part of the packet sent |
| `PacketIO.PacketWriter.FlushAll` | src/proxy/src/protocol/mysql/packet/packet_writer.rs:142-144 | everything sent is flushed |
| `PacketIO.PacketWriter.Send` | src/proxy/src/server/forwarder/mod.rs:37-39 | set id, write, end: one packet with that id and payload, or the failure of the write |
| `PacketIO.PacketReader.RefillAsync` | src/proxy/src/protocol/mysql/packet/packet_reader.rs:162-177 | drain, grow and read keep live bytes plus undelivered bytes unchanged, offer a non-empty space, and read nothing only at the end of the stream |
| `PacketIO.PacketReader.RefillSync` | src/proxy/src/protocol/mysql/packet/packet_reader.rs:82-92 | the same for the blocking reader, whose buffer is truncated to the live bytes |
| `PacketIO.PacketReader.TakeAsync` | src/proxy/src/protocol/mysql/packet/packet_reader.rs:132-160 | the parse attempt on the bytes at hand either settles the call for the whole unread stream or leaves the reader untouched |
| `PacketIO.PacketReader.TakeSync` | src/proxy/src/protocol/mysql/packet/packet_reader.rs:56-80 | the same for the blocking reader, which keeps its buffer and moves a mark |
| `PacketIO.PacketReader.NextAsync` | src/proxy/src/protocol/mysql/packet/packet_reader.rs:127-190 | for every split into reads: the outcome and the unread rest are those of `packet` on the whole unread stream; a packet iff one is left, None iff nothing is left, UnexpectedEof iff what is left never becomes a packet |
| `PacketIO.PacketReader.NextRead` | src/proxy/src/protocol/mysql/packet/packet_reader.rs:52-105 | the blocking reader keeps the same promise with its own buffer discipline |
| `PacketIO.SettlesExactly` | src/proxy/src/protocol/mysql/packet/packet_reader.rs:127-190 | what the contract of both readers means in bytes: the outcome is that of `packet` on the unread stream and, unless it panics, exactly the packet is gone from it |
| `PacketIO.ReadPacket` | src/proxy/src/protocol/mysql/packet/packet_reader.rs:12-28 | the macro yields the next packet of the stream and leaves the others; without one, how it fails tells how the stream ends |
| `PacketIO.Decided` | src/proxy/src/protocol/mysql/packet/packet_reader.rs:141-151 | a decision on the bytes at hand settles the call for every continuation of the stream |
| `PacketIO.AtEnd` | src/proxy/src/protocol/mysql/packet/packet_reader.rs:178-188 | at the end of the stream an undecided buffer is None iff empty and UnexpectedEof otherwise |
| `PacketIO.NoPacketLeft` | src/proxy/src/protocol/mysql/packet/packet_reader.rs:178-188 | what a call says where no packet is left |
| `Transport.DrainAsync` | src/proxy/src/protocol/mysql/packet/packet_reader.rs:127-190 | repeated `next_async` yields exactly the packets and the ending of the byte stream, for every read schedule |
| `Transport.DrainRead` | src/proxy/src/protocol/mysql/packet/packet_reader.rs:52-105 | repeated `next_read` does as well |
| `Transport.ReadersAgree` | src/proxy/src/protocol/mysql/packet/packet_reader.rs:52-190 | both readers yield the same packets and ending on every stream, under independent schedules |
| `Transport.SendAll` | src/proxy/src/protocol/mysql/packet/packet_writer.rs:94-140 | a list of packets without empty payloads is on the wire exactly, whatever the short writes; with empty ones the wire is exact or shorter |
| `Transport.EndToEnd` | src/proxy/src/protocol/mysql/packet/packet_reader.rs:127-190 | writer to reader over any short writes and reads: the list arrives as written and ends cleanly iff every packet survives framing and no empty payload went out short |
| `Codecs.NumberReadBack` | src/proxy/src/protocol/mysql/basic.rs:153-166 | every u64 is read back from its length-encoded form, any suffix untouched |
| `Codecs.NumberLayout` | src/proxy/src/protocol/mysql/basic.rs:153-166 | the octets of a length-encoded number, by its size |
| `Codecs.OddNumbers` | src/proxy/src/protocol/mysql/basic.rs:153-166 | what the reader makes of 0xfb and 0xff and of a number that is cut off |
| `Codecs.TextReadBack` | src/proxy/src/protocol/mysql/basic.rs:142-145 | so is every length-encoded string |
| `Codecs.Utf8Exactly` | src/proxy/src/protocol/mysql/basic.rs:186-191 | a string passes as UTF-8 iff it is the encoding of some Unicode scalar values |
| `Codecs.OkFixedReadBack` | src/proxy/src/protocol/mysql/basic.rs:168-210 | of any OK packet of the 4.1 protocol, with any text, header, counters, status and warnings come back, and the rest returned begins behind the warnings |
| `Codecs.OkTextReadBack` | src/proxy/src/protocol/mysql/basic.rs:177-196 | info comes back iff session tracking is on, session state iff the status also says it changed; text that is not UTF-8 becomes empty |
| `Codecs.OkRoundTrip` | src/proxy/src/protocol/mysql/packet/writers.rs:56-83 | reading undoes writing for all values and every capability word with CLIENT_PROTOCOL_41: everything comes back, warnings as zero, info and session state under exactly those conditions; for every other word, what the reader makes of it |
| `Codecs.OkLayout` | src/proxy/src/protocol/mysql/packet/writers.rs:61-81 | the fields of an OK packet of the 4.1 protocol in their places |
| `Codecs.OldOkMisread` | src/proxy/src/protocol/mysql/packet/writers.rs:64-69 | what the reader makes of an OK packet written without CLIENT_PROTOCOL_41, with or without CLIENT_TRANSACTIONS: the text is read where status and warnings are missing, or the packet is refused |
| `Codecs.FlagMasks` | src/proxy/src/protocol/mysql/packet/writers.rs:64-75 | the capability and status flags by their masks in the protocol |
| `Writers.WriteOkHead` | src/proxy/src/protocol/mysql/packet/writers.rs:61-69 | the appends before the text |
| `Writers.WriteOkText` | src/proxy/src/protocol/mysql/packet/writers.rs:71-81 | the appends of the text |
| `Writers.WriteOkPacket` | src/proxy/src/protocol/mysql/packet/writers.rs:56-83 | the writer ends one packet whose payload is the one `OkRoundTrip` is about, or fails and adds nothing |
| `Writers.OkAppended` | src/proxy/src/protocol/mysql/packet/writers.rs:56-83 | the field-by-field appends build the packet the reader undoes |
| `Responses.TextRowIsData` | src/proxy/src/protocol/mysql/packet/mod.rs:46-71 | no text row of any cells passes for ERR, EOF or OK terminator, including rows that start with 0xfe because the first value has 2^24 bytes or more |
| `Responses.RowIsData` | src/proxy/src/protocol/mysql/packet/mod.rs:46-71 | nor does any binary row or column definition |
| `Responses.ColumnCountIsData` | src/proxy/src/protocol/mysql/packet/mod.rs:61-71 | a column count from 1 to 65535 is neither OK nor ERR nor LOCAL INFILE |
| `Responses.TestsExactly` | src/proxy/src/protocol/mysql/packet/mod.rs:46-71 | what each of the five tests accepts: a header byte and, for the terminators, a length |
| `Responses.EofStatus` | src/proxy/src/protocol/mysql/basic.rs:147-151 | an EOF packet is recognised and yields its status |
| `Responses.OkStatus` | src/proxy/src/protocol/mysql/basic.rs:168-210 | an OK packet of either header parses and yields its status |
| `QueryRuns.ListExact` | src/proxy/src/server/forwarder/query_forward.rs:94-133 | rows or definitions with their terminator or an ERR, then anything: exactly the list is consumed, and the status is that of its end |
| `QueryRuns.RowSetExact` | src/proxy/src/server/forwarder/query_forward.rs:60-133 | definitions, the EOF between (only without CLIENT_DEPRECATE_EOF), rows and their end are consumed exactly |
| `QueryRuns.OneResultExact` | src/proxy/src/server/forwarder/query_forward.rs:31-52 | one result of the grammar (OK, ERR, result set, cursor) is consumed exactly |
| `QueryRuns.QueryExact` | src/proxy/src/server/forwarder/query_forward.rs:20-58 | for every response of the grammar, any number of results, columns and rows, either EOF mode, cursors and errors at any row, and any suffix: exactly the response is consumed |
| `QueryRuns.CursorExactly` | src/proxy/src/server/forwarder/query_forward.rs:81-88 | an EOF that announces a cursor ends the response for the forwarder iff all its status bits are known ones |
| `QueryRuns.NoCursorGoesOn` | src/proxy/src/server/forwarder/query_forward.rs:81-91 | an EOF behind the definitions whose status has no cursor bit, whatever else it has, is followed by rows: they are forwarded |
| `QueryRuns.UntilEndExactly` | src/proxy/src/server/forwarder/query_forward.rs:106-132 | on any packets whatsoever, the run ends at the first packet with header 0xff, or 0xfe and the length of a terminator, with its status, or panics if that cannot be read |
| `QueryRuns.UntilEndStarves` | src/proxy/src/server/forwarder/query_forward.rs:106-132 | without such a packet it takes everything and finds no more |
| `QueryRuns.ToFirstEofExactly` | src/proxy/src/server/forwarder/query_forward.rs:73-81 | the loop behind the column count ends at the first packet with header 0xfe and at most five bytes |
| `QueryRuns.FirstPacketDecides` | src/proxy/src/server/forwarder/query_forward.rs:38-52 | what the header of the first packet of a result decides, LOCAL INFILE and unreadable OK packets included |
| `QueryRuns.MoreResultsExactly` | src/proxy/src/server/forwarder/query_forward.rs:53-55 | another result is waited for iff the status has the bit 0x0008 |
| `Forwarders.ForwardOnePacket` | src/proxy/src/server/forwarder/mod.rs:30-44 | the next packet of the source, and nothing else, goes to the destination with its id; flushed on request; a missing packet, a panic of the reader and a failed write are told apart, and a packet that cannot be written is gone from the source |
| `Forwarders.ForwardUntilResultEnd` | src/proxy/src/server/forwarder/query_forward.rs:94-133 | the loop ends where `UntilEnd` says, or where the client stops taking packets, having passed on exactly what it says and left the rest |
| `Forwarders.ForwardToFirstEof` | src/proxy/src/server/forwarder/query_forward.rs:73-80 | the same for the loop up to the EOF packet behind the definitions |
| `Forwarders.ForwardResult` | src/proxy/src/server/forwarder/query_forward.rs:60-92 | the same for a result set, with the cursor exit |
| `Forwarders.ForwardOneResult` | src/proxy/src/server/forwarder/query_forward.rs:31-52 | the same for one turn of the loop over results |
| `Forwarders.ForwardQuery` | src/proxy/src/server/forwarder/query_forward.rs:20-58 | the same for a whole response: same packets, same ids, same order, flushed, end as in `QueryExact`; failed reads, failed writes and panics occur exactly where the run and the room of the client say |
| `PreparedStatements.WriteDefinitions` | src/proxy/src/protocol/mysql/packet/writers.rs:138-176 | one definition per column, then an EOF unless deprecated, ids counted on; as many of them as the client takes |
| `PreparedStatements.WritePrepareOk` | src/proxy/src/protocol/mysql/packet/writers.rs:85-118 | the header and either block of definitions, in order, as many packets as the client takes |
| `PreparedStatements.PrepareOkLayout` | src/proxy/src/protocol/mysql/packet/writers.rs:102-109 | the header field by field: statement id, numbers of columns and parameters, no warnings |
| `PreparedStatements.DefinitionReadBack` | src/proxy/src/protocol/mysql/packet/writers.rs:148-168 | a client reads back table, name, type and flags of every column, and the constants |
| `PreparedStatements.EofLayout` | src/proxy/src/protocol/mysql/packet/writers.rs:32-39 | the EOF packet carries its status |
| `PreparedStatements.PrepareOrder` | src/proxy/src/protocol/mysql/packet/writers.rs:102-118 | the header, then the block of the parameters, then that of the columns |
| `PreparedStatements.BlockOrder` | src/proxy/src/protocol/mysql/packet/writers.rs:148-175 | a block is the definitions in order, and an EOF packet behind them unless deprecated |
| `PreparedStatements.ForwardCounted` | src/proxy/src/server/forwarder/stmt_prepare_forward.rs:55-62 | the counted loop passes on that many packets, or as many as there are and the client takes |
| `PreparedStatements.ForwardPrepareStmt` | src/proxy/src/server/forwarder/stmt_prepare_forward.rs:22-66 | passes on exactly what `Prepare` and the room of the client say, whether it ends, fails or panics, and flushes at the end |
| `PreparedStatements.AnnouncedExactly` | src/proxy/src/server/forwarder/stmt_prepare_forward.rs:44-54 | the forwarder computes from the header exactly the number of packets behind it, as long as that is below 65536 |
| `PreparedStatements.ExpectedExactly` | src/proxy/src/server/forwarder/stmt_prepare_forward.rs:46-54 | the number of packets expected, for all counts: the sum, or a panic or the sum cut to sixteen bits, by the build |
| `PreparedStatements.UncountedPanics` | src/proxy/src/server/forwarder/stmt_prepare_forward.rs:36-64 | answers that are neither OK nor ERR, or too short for the counts, panic; an ERR ends the answer |
| `PreparedStatements.PrepareAgreement` | src/proxy/src/server/forwarder/stmt_prepare_forward.rs:31-62 | for all parameter and column lists, either EOF mode and any suffix: the forwarder consumes exactly what `write_prepare_ok` emits iff parameters, columns and EOF packets number at most 65535 |
| `ChangeUser.ForwardTurn` | src/proxy/src/server/forwarder/change_user_forward.rs:29-64 | one round: one packet each way, unchanged, each flushed; for every end of the turn, what is unread on either side and what was sent |
| `ChangeUser.ForwardChangeUser` | src/proxy/src/server/forwarder/change_user_forward.rs:21-65 | the relay makes the hops of `Dialogue`, in order, nothing more, and leaves unread what `Dialogue` says, whether it is granted, refused, cut short or either side goes away or stops taking packets |
| `ChangeUser.RoundsRelayed` | src/proxy/src/server/forwarder/change_user_forward.rs:29-64 | any number of rounds is relayed with strict alternation, and the relay goes on with whatever follows on either side |
| `ChangeUser.DialogueExact` | src/proxy/src/server/forwarder/change_user_forward.rs:29-64 | for any number of rounds: strict alternation, stop exactly at the OK or ERR verdict, everything behind it untouched on both sides |
| `ChangeUser.GoneExact` | src/proxy/src/server/forwarder/change_user_forward.rs:46-50 | a client that goes away owing an answer: one challenge more than answers has been passed on |
| `ChangeUser.BackendGoneExact` | src/proxy/src/server/forwarder/change_user_forward.rs:30-32 | a backend that goes away instead of sending a challenge or a verdict |
| `ChangeUser.EndsAsStreams` | src/proxy/src/protocol/mysql/packet/packet_reader.rs:12-28 | a side that is gone has panicked exactly if its own stream ends so |
| `ChangeUser.ErrAnswerExact` | src/proxy/src/server/forwarder/change_user_forward.rs:46-62 | an answer that begins with 0xff ends the relay before the backend has given its verdict |
| `ChangeUser.UnwrittenExact` | src/proxy/src/server/forwarder/change_user_forward.rs:30-32 | a client that stops taking packets after any number of rounds: the packet it does not take has been read and is lost, nothing else is |
| `Sessions.ForwardReply` | src/proxy/src/server/haentgl_server.rs:228-265 | the forwarder chosen for a command passes on exactly the part of the backend stream it consumes, whether it ends, fails or panics |
| `Sessions.ReplyByCode` | src/proxy/src/server/haentgl_server.rs:228-243 | which forwarder a command goes to, by the codes of the protocol |
| `Sessions.TurnByCode` | src/proxy/src/server/haentgl_server.rs:216-273 | what a turn does without a command, with one that is none, with COM_QUIT, COM_STMT_CLOSE and COM_CHANGE_USER, by their codes, and the octets of the reset |
| `Sessions.AnsweredTurn` | src/proxy/src/server/haentgl_server.rs:244-265 | every other command is sent on and its answer passed on as far as the forwarder goes; how the turn then stops |
| `Sessions.StopsAsStreams` | src/proxy/src/server/haentgl_server.rs:216-223 | where a packet is missing the session stops in a panic exactly if the stream of that side ends in one |
| `Sessions.SendPlain` | src/proxy/src/server/forwarder/mod.rs:49-91 | command to the backend, reply to the client; sent packets, unread ends and sequence id as `Plain` says for every stop |
| `Sessions.SendReset` | src/proxy/src/server/forwarder/reset_conn_forward.rs:21-33 | the reset goes out under the current id, its reply is swallowed or found missing |
| `Sessions.SendChangeUser` | src/proxy/src/server/forwarder/mod.rs:59-87 | the rewritten command under the client's id, then the relay, with sent packets and unread ends stated for a grant, a refusal and a departure |
| `Sessions.OnComTurn` | src/proxy/src/server/haentgl_server.rs:214-274 | one turn of the loop does what `ComTurn` says to all four connection ends, however it stops |
| `Sessions.OnCom` | src/proxy/src/server/haentgl_server.rs:202-276 | however the session stops, both logs, both unread streams and the id are those of `Loop`; unless it breaks or panics everything is flushed |
| `Sessions.Serve` | src/proxy/src/server/haentgl_server.rs:202-276 | the same from bytes to bytes, for every delivery, every short write and every stop |
| `SessionAlignment.ReplyExact` | src/proxy/src/server/haentgl_server.rs:228-265 | each kind of reply is consumed whole and nothing behind it |
| `SessionAlignment.PreparedExact` | src/proxy/src/server/forwarder/stmt_prepare_forward.rs:31-62 | any COM_STMT_PREPARE reply whose header announces its packets is consumed exactly |
| `SessionAlignment.ChangedExact` | src/proxy/src/server/forwarder/change_user_forward.rs:21-65 | a COM_CHANGE_USER conversation is consumed exactly on both sides, granted or refused |
| `SessionAlignment.BrokenOffExact` | src/proxy/src/server/forwarder/change_user_forward.rs:46-62 | an answer of the client that begins with 0xff is passed on and then ends the session; the verdict of the backend stays unread |
| `SessionAlignment.TurnExact` | src/proxy/src/server/haentgl_server.rs:214-274 | a turn takes from either side exactly what belongs to the exchange and passes it on, and stops iff the exchange is a refusal |
| `SessionAlignment.Aligned` | src/proxy/src/server/haentgl_server.rs:214-274 | after any number of conforming exchanges and before any continuation the loop head stands at the response boundary on both sides |
| `SessionAlignment.PartingExact` | src/proxy/src/server/haentgl_server.rs:240-274 | each way of ending a session takes exactly its own packets: COM_QUIT and the reset, no further command, a refused COM_CHANGE_USER |
| `SessionAlignment.SessionExact` | src/proxy/src/server/haentgl_server.rs:214-275 | a session of any length and ending in any of these ways leaves the backend exactly behind its last reply; the client got every reply, the backend every command and, at a COM_QUIT, the reset, in order |
| `SessionAlignment.NotTakenExact` | src/proxy/src/server/forwarder/mod.rs:36-42 | a client that stops taking packets in the middle of an exchange of a session, of whatever kind: exactly what it took has been passed on, the rest of the reply is unread |
| `SessionAlignment.NotTakenBoundary` | src/proxy/src/server/forwarder/mod.rs:36-42 | the backend connection is then at the end of a reply iff it was the last packet of the exchange that was not taken |
| `SessionAlignment.DepartureExact` | src/proxy/src/server/forwarder/change_user_forward.rs:46-50 | a client that goes away inside a COM_CHANGE_USER leaves a challenge of the backend unanswered, everything before it relayed exactly |
| `SessionAlignment.ServeConforming` | src/proxy/src/server/haentgl_server.rs:202-276 | a conforming session in bytes, ending in any way: what is sent to either side is the encoding of exactly those packets |
| `SessionAlignment.LongDataMisaligns` | src/proxy/src/server/haentgl_server.rs:242-265 | in a session, COM_STMT_SEND_LONG_DATA is forwarded and never got past if the backend sends nothing unasked: nothing behind it is read; a packet that does come is taken for its answer |
| `SessionAlignment.Lagging` | src/proxy/src/server/haentgl_server.rs:242-265 | on a connection that is one packet behind, every single-reply command hears the reply to the one before, for any number of commands, and the connection stays behind |
| `SessionAlignment.HeardInOrder` | src/proxy/src/server/haentgl_server.rs:242-265 | which packet each of those commands hears, and that none is missing or doubled |
| `SessionAlignment.ResetNumber` | src/proxy/src/protocol/mysql/packet/writers.rs:253-261 | the reset is numbered 0, as the protocol asks of a command, iff no command was forwarded before it or the frames of the last request were numbered up to 255; 1 behind a one-frame request numbered 0 |
| `Negotiation.ConformingUnder` | src/proxy/src/server/forwarder/query_forward.rs:29-29 | an exchange that follows the protocol on a connection does so for every client that agrees with it on EOF packets and session tracking |
| `Negotiation.RowSetOverruns` | src/proxy/src/server/forwarder/query_forward.rs:69-131 | for every whole result set, a client with the other kind of EOF packets is not seen to have got its end: the forwarder goes on into what follows as if the result set had just begun |
| `Negotiation.RowSetExactly` | src/proxy/src/server/forwarder/query_forward.rs:69-131 | every whole result set ends for the forwarder exactly where it ends, whatever follows, iff client and connection have the same EOF packets |
| `Negotiation.MixedClientStarves` | src/proxy/src/server/forwarder/query_forward.rs:69-131 | in a session, a whole result set of the other kind is passed on whole, but with a backend that sends nothing unasked its end is waited for and no later command gets through |
| `Negotiation.AgreementExactly` | src/proxy/src/server/forwarder/query_forward.rs:20-133 | every response of a connection is read exactly to its end, whatever follows, iff client and connection agree on EOF packets and the client expects no session tracking that the connection has not |
| `Pool.PooledConn.constructor` | src/proxy/src/backend/pool/pooled_conn_mgr.rs:39-51 | a new connection has no phase |
| `Pool.PooledConn.Recycle` | src/proxy/src/backend/pool/pooled_conn_mgr.rs:53-83 | refuses exactly connections left in the connection phase |
| `Pool.PooledConn.UpdateConnLifeCycle` | src/proxy/src/backend/pool/mod.rs:54-57 | overwrites the phase |
| `Pool.Ways` | src/proxy/src/backend/pool/pooled_conn_mgr.rs:53-83 | which events can happen to a connection, by its place and phase |
| `Pool.Steps` | src/proxy/src/server/haentgl_server.rs:123-143 | where they lead: only a verdict changes the phase |
| `Pool.StepKeepsInv` | src/proxy/src/server/haentgl_server.rs:75-153 | every step keeps the correspondence between phase and place of every connection and its history, spoilt connections included |
| `Pool.RunKeepsInv` | src/proxy/src/server/haentgl_server.rs:75-153 | so does every run in which no spoilt connection is taken up |
| `Pool.PoolSafe` | src/proxy/src/server/haentgl_server.rs:75-153 | over every run: greeting read at most once per connection, COM_CHANGE_USER at check-out only after a latest success, no connection that ever failed handed out, no command forwarded while the holder is not authenticated - all of it iff no connection is handed out on which a COM_CHANGE_USER was refused and none is authenticated on that was cut off in mid-authentication |
| `Pool.AbandonExactly` | src/proxy/src/backend/pool/pooled_conn_mgr.rs:53-83 | giving a connection back, by returning or dropping it, keeps every further run safe that spoils nothing else iff the connection is not in the middle of a login or a COM_CHANGE_USER |
| `Pool.AbandonedTwiceGreeted` | src/proxy/src/backend/pool/pooled_conn_mgr.rs:53-83 | from every state in which a first handshake is under way, dropping the connection lets its greeting be waited for twice |
| `Pool.RefusedHandedOut` | src/proxy/src/server/haentgl_server.rs:145-153 | after a refused COM_CHANGE_USER, which leaves the phase alone, the connection can always be handed out again, against the third clause |
| `Connections.RunChallenge` | src/proxy/src/server/auth/authenticator.rs:43-55 | auth switch request to the client, answer to the backend, each with the next sequence id; sent packets and unread ends for every end |
| `Connections.RunSwitchPlugin` | src/proxy/src/server/auth/authenticator.rs:31-81 | then the verdict to the client; the same for every end |
| `Connections.RunAuthenticate` | src/proxy/src/server/auth/authenticator.rs:122-239 | the handshake or COM_CHANGE_USER, then the switch; the same for every end |
| `Connections.RunConnect` | src/proxy/src/server/haentgl_server.rs:75-153 | authenticate as the phase demands, record the verdict, serve only if granted; phase, stop, unread ends and both logs as `Connect` says, whatever happens |
| `Connections.GrantedExactly` | src/proxy/src/server/auth/authenticator.rs:57-80 | the second packet of the backend decides, and anything but ERR grants |
| `Connections.RefusedExact` | src/proxy/src/server/auth/authenticator.rs:57-73 | a refused login: the client is sent the request to switch and then the ERR, the backend the answer, both streams are left right behind |
| `Connections.RefusedConnect` | src/proxy/src/server/haentgl_server.rs:80-142 | it ends the visit, on every connection: handshake or COM_CHANGE_USER by the phase, no session, and the connection phase |
| `Connections.BrokenOffLogin` | src/proxy/src/server/auth/authenticator.rs:43-51 | how an authentication breaks off before the answer: no packet, no request to switch, a client that does not take it or has no answer |
| `Connections.NoVerdictLogin` | src/proxy/src/server/auth/authenticator.rs:51-62 | how it breaks off at the verdict: none, not taken, or empty |
| `Connections.OverflowingLogin` | src/proxy/src/server/auth/authenticator.rs:45-52 | sequence ids at 255 unwind the task in a build that checks for overflow |
| `Connections.NoHandshake` | src/proxy/src/server/auth/authenticator.rs:222-225 | no greeting, or a response that cannot be made, leaves the connection phase; a panic leaves the phase as it was |
| `Connections.VerdictExactly` | src/proxy/src/server/auth/authenticator.rs:57-80 | authentication ends with the backend's verdict and right behind it iff nothing stands between the request to switch and the verdict; otherwise the client is let in and the verdict left unread |
| `Connections.MoreDataHeard` | src/proxy/src/server/auth/authenticator.rs:57-80 | with one packet in between, the first command hears the verdict on the login, each later one the reply to the one before, and a reply is left over for the next session |
| `Connections.AuthExact` | src/proxy/src/server/auth/authenticator.rs:122-239 | an authentication, with any second packet the code takes for a grant, takes exactly its packets from either side and sends exactly the login of the branch taken |
| `Connections.VisitExact` | src/proxy/src/server/haentgl_server.rs:46-154 | a whole visit, ending in any way, on a fresh connection or one left in the command phase, by a client that agrees with what was negotiated on it, takes exactly its own packets and leaves the connection in the command phase |
| `Connections.VisitExactly` | src/proxy/src/server/haentgl_server.rs:46-154 | all visits of clients with given capabilities are served exactly on a connection with given ones iff these agree |
| `Connections.MixedClientHearsNext` | src/proxy/src/server/forwarder/query_forward.rs:69-131 | whatever packet does come behind such a result set goes to this client as well |
| `Connections.VisitsExact` | src/proxy/src/server/haentgl_server.rs:46-154 | any number of visits on one pooled connection, each with its own capabilities, agreeing with the negotiated ones, and its own ending: every client hears its own replies and nobody else's |
| `Connections.FreshConnectionExact` | src/proxy/src/server/auth/authenticator.rs:93-118 | the same from the greeting on, when the first client's capabilities are what is negotiated |
| `Connections.LeftoverMeetsNext` | src/proxy/src/server/auth/authenticator.rs:43-48 | a packet left unread on a connection in the command phase: the next client is sent it as the request to switch if it begins like one, else the task that serves that client panics |
| `Connections.NotTakenMeetsNext` | src/proxy/src/server/auth/authenticator.rs:43-48 | a client that stops taking packets before the last one of a reply leaves the rest of it to the next client, which is met by its first packet |
| `Connections.DepartureStrandsNext` | src/proxy/src/server/auth/authenticator.rs:43-44 | after a client that went away inside a COM_CHANGE_USER, the next client on the connection is met with the verdict due to the first one, and its task panics |
| `Lifecycles.VisitWalks` | src/proxy/src/server/haentgl_server.rs:75-153 | every outcome of `connect` is a path of the held connection through the events of the pool, back into it with the phase that `connect` leaves |
| `Lifecycles.TurnEventsByCode` | src/proxy/src/server/haentgl_server.rs:216-273 | the events of a turn, by the code of its command and how it stops |
| `Lifecycles.VisitRuns` | src/proxy/src/server/haentgl_server.rs:75-153 | every run of the pool in which a connection is held goes on with every visit to it, at the end of which that connection is back with that phase and all others are untouched |
| `Lifecycles.VisitSpoilsNothing` | src/proxy/src/server/haentgl_server.rs:75-153 | a visit that is let in and ends with COM_QUIT or a client gone at the head of the loop spoils no connection, so by `PoolSafe` a pool of such visits is safe |
| `ActivityWindow.SwitchableMaps.Put` | src/proxy/src/cp/active_users.rs:68-71 | only the active table changes, in one key |
| `ActivityWindow.SwitchableMaps.Switch` | src/proxy/src/cp/active_users.rs:44-61 | if the loaded index is still the active one the tables trade places and the one that was active is handed out, else the exchange fails and nothing changes |
| `ActivityWindow.SwitchableMaps.CleanInactive` | src/proxy/src/cp/active_users.rs:63-66 | only the inactive table is emptied |
| `ActivityWindow.SwitchableMaps.Freeze` | src/proxy/src/cp/active_users.rs:146-160 | returns every entry of the active table exactly once, in any order, and leaves it inactive and empty; or, if the switch fails, nothing, with nothing changed |
| `ActivityWindow.StepKeepsInv` | src/proxy/src/cp/active_users.rs:44-71 | every step of any putting task or of the freezer, in any order, keeps tables and frozen lists in correspondence with the windows of the run |
| `ActivityWindow.RunKeepsInv` | src/proxy/src/cp/active_users.rs:44-71 | so does every run |
| `ActivityWindow.FreezesAreWindows` | src/proxy/src/cp/active_users.rs:146-160 | in every interleaving, with an iterator and a clearing that go through the table shard by shard, freeze number i returns exactly the entries of window i, each once; the active table is the current window; outside a freeze the inactive table holds just what was put ahead of the next switch |
| `ActivityWindow.UndisturbedIsFresh` | src/proxy/src/cp/active_users.rs:44-71 | if no switch divides a put, every put is into the current window and the inactive table is empty outside a freeze |
| `ActivityWindow.PutKept` | src/proxy/src/cp/active_users.rs:68-71 | in every run a put that does not come too late is in its window unless overwritten by a later put of its key into the same window |
| `ActivityWindow.EntryWasPut` | src/proxy/src/cp/active_users.rs:68-71 | every entry of a window was put into that window |
| `ActivityWindow.InWindowExactly` | src/proxy/src/cp/active_users.rs:68-71 | the same in terms of windows |
| `ActivityWindow.LostExactly` | src/proxy/src/cp/active_users.rs:68-71 | after any run that is not in the middle of a freeze, a put with a value of its own that nothing is put over is in one of the tables or was returned by a freeze iff it did not come too late, that is into the table being frozen after its key was copied, its place passed or the copy ended, and before its place was cleared |
| `ActivityWindow.InsertExactly` | src/proxy/src/cp/active_users.rs:68-71 | the insert of a put goes into its window, or changes no window exactly when it comes too late |
| `ActivityWindow.AheadExactly` | src/proxy/src/cp/active_users.rs:63-71 | outside a freeze, an insert makes the empty inactive table non-empty iff the index it loaded is stale |
| `ActivityWindow.DividedPutIsLost` | src/proxy/src/cp/active_users.rs:68-71 | a run in which a switch divides a put and the put ends in no table and no freeze |
| `ActivityWindow.DividedPutIsKept` | src/proxy/src/cp/active_users.rs:68-71 | a run in which a switch divides a put and the freeze still returns it |
| `ActivityWindow.PassedPutIsLost` | src/proxy/src/cp/active_users.rs:68-71 | a run in which a put is lost though its key was never copied and the iterator is still under way, because the iterator had passed its place |
| `ActivityWindow.ClearedPlaceExactly` | src/proxy/src/cp/active_users.rs:63-71 | a put that inserts while its table is being cleared stays for the next window if the clearing has gone past its place, else it is wiped out; in every state of every run |
| `TenantKeys.RestoreUndoesObfuscate` | src/proxy/src/backend/mod.rs:24-42 | for every character and index |
| `TenantKeys.RestoreObfuscated` | src/proxy/src/backend/mod.rs:44-58 | for every string, byte length kept |
| `TenantKeys.ObfuscatedLetter` | src/proxy/src/backend/mod.rs:24-32 | a letter goes back by ten places and three more for every character before it; other characters stay |
| `TenantKeys.HexReadBack` | src/proxy/src/backend/mod.rs:66-85 | the header of lengths is read back |
| `TenantKeys.EncodedLayout` | src/proxy/src/backend/mod.rs:60-80 | the encoded key: lengths in hexadecimal, then the four names, each obfuscated, in order |
| `TenantKeys.HexDigits` | src/proxy/src/backend/mod.rs:72-74 | the digits are written in lower case and read in either |
| `TenantKeys.SliceExactly` | src/proxy/src/backend/mod.rs:90-92 | a slice by bytes exists iff it begins and ends between characters, and is what stands there |
| `TenantKeys.DecodedExact` | src/proxy/src/backend/mod.rs:88-100 | the loop over the lengths restores every field when each offset fits in a byte |
| `TenantKeys.WrappedExactly` | src/proxy/src/backend/mod.rs:86-101 | the exact condition in builds whose sum of offsets wraps |
| `TenantKeys.TenantKeyRoundTrip` | src/proxy/src/backend/mod.rs:60-102 | decoding undoes encoding if the first three names have at most 255 bytes together and the cluster name at most 255; with overflow checks iff that; without them iff no name exceeds 255 bytes and the text at each wrapped offset is the field |
| `TenantKeys.UndecodedPanics` | src/proxy/src/backend/mod.rs:82-85 | a key without a readable header is a panic |
| `TenantKeys.DecodeIgnoresRest` | src/proxy/src/backend/mod.rs:82-103 | a key that fits is decoded whatever is written behind it |
| `TenantKeys.LoginSplit` | src/proxy/src/protocol/mysql/basic.rs:123-139 | splitting at the last dot gives back key and user, whatever the key contains, iff the user has no dot |
| `TenantKeys.LoginUnchanged` | src/proxy/src/protocol/mysql/basic.rs:123-139 | a name without a dot, no name, or a router that is not synchronised leave the login alone |
| `TenantKeys.LoginRoundTrip` | src/proxy/src/protocol/mysql/basic.rs:123-139 | from key and user to the login name and back |
| `Handshakes.ReadAttributes` | src/proxy/src/protocol/mysql/basic.rs:288-298 | the attribute loop terminates and computes `Attributes` |
| `Handshakes.AttributesReadBack` | src/proxy/src/protocol/mysql/basic.rs:284-302 | any attribute list is read whole and yields its last-wins map |
| `Handshakes.BadAttributes` | src/proxy/src/protocol/mysql/basic.rs:288-298 | an attribute that is not UTF-8 is a panic, one that is cut off an error |
| `Handshakes.AuthReadBack` | src/proxy/src/protocol/mysql/basic.rs:254-263 | length-prefixed authentication data of either kind is read back |
| `Handshakes.FixedStage` | src/proxy/src/protocol/mysql/basic.rs:212-245 | the fixed part is read back for every capability word, and a TLS request stops there |
| `Handshakes.FixedExactly` | src/proxy/src/protocol/mysql/basic.rs:212-245 | a response is not of the 4.1 protocol iff its first word says so, and one that is cut off in its fixed part is an error |
| `Handshakes.HandshakeRoundTrip` | src/proxy/src/protocol/mysql/basic.rs:212-317 | for every capability combination with length-prefixed authentication data: every field comes back iff no name that is sent is empty, and otherwise the response is refused |
| `Handshakes.NulAuthExactly` | src/proxy/src/protocol/mysql/basic.rs:261-302 | NUL-terminated authentication data leaves its NUL unread: refused iff the data is empty or a database or plugin name is read there; otherwise the NUL is left, or taken for an empty list of attributes and the real ones lost |
| `Handshakes.HandshakeNulExactly` | src/proxy/src/protocol/mysql/basic.rs:212-317 | for every other combination: the response is refused iff user or data is empty or a database or plugin is named; otherwise user and data come back and the attributes are lost |
| `Handshakes.SampleResponse` | src/proxy/src/protocol/mysql/basic.rs:440-470 | the response of a client named jon, octet by octet |
| `Resolver.PicksGoRound` | src/proxy/src/backend/control_plane_resolver.rs:143-171 | picks go up by one and round, from any earlier index |
| `Resolver.EachPickedOnce` | src/proxy/src/backend/control_plane_resolver.rs:143-171 | n consecutive picks among n candidates take every index exactly once |
| `Resolver.EachBackendPickedOnce` | src/proxy/src/backend/control_plane_resolver.rs:143-171 | so every available backend is taken at exactly one of n consecutive turns |
| `Resolver.CandidatesInOrder` | src/proxy/src/backend/control_plane_resolver.rs:144-155 | the candidates are in the order of the iteration |
| `Resolver.FirstPick` | src/proxy/src/backend/control_plane_resolver.rs:156-167 | the first pick is the one behind the last, or the first of all, also at the end of the counter |
| `Resolver.RefreshExactly` | src/proxy/src/backend/control_plane_resolver.rs:180-237 | after a refresh exactly the names whose last report connected are known, all available |
| `Resolver.RefreshGenerations` | src/proxy/src/backend/control_plane_resolver.rs:180-237 | with distinct names an available entry is replaced iff the reported generation is newer, so generations never go back; a new or unavailable one gets generation and connection of the report |
| `Resolver.MarkedNotPicked` | src/proxy/src/backend/control_plane_resolver.rs:173-178 | over every run of picks, marks and refreshes, a marked backend is no candidate until a refresh reconnects it |
| `Resolver.MarkedExactly` | src/proxy/src/backend/control_plane_resolver.rs:173-178 | marking touches nothing but the status of the named backend |
| `Resolver.SparedStaysCandidate` | src/proxy/src/backend/control_plane_resolver.rs:143-237 | over every run, an available backend that is neither marked nor dropped by a refresh stays a candidate |
| `Resolver.CpResolver.GetCpBackend` | src/proxy/src/backend/control_plane_resolver.rs:143-171 | picks the next candidate and stores its index |
| `Resolver.CpResolver.MarkBackendUnavailable` | src/proxy/src/backend/control_plane_resolver.rs:173-178 | one entry becomes unavailable |
| `Resolver.CpResolver.UpdateBackends` | src/proxy/src/backend/control_plane_resolver.rs:180-237 | the loops over gone names and members compute `Refresh` |

## Left out

- TenantKeys.LoginSplit: works on characters, while the source splits bytes; a dot is one byte in UTF-8, so the positions agree.
- Connections.RunAuthenticate: the contents of the handshake response and of COM_CHANGE_USER that go to the backend are parameters, being made by the mysql_common library; the same holds of the rewriting in Sessions.SendChangeUser.
- Connections.VisitsExact: what is negotiated on a connection is a parameter; that the backend grants the first client's capabilities, as in Connections.FreshConnectionExact, is up to the backend.
- SessionAlignment.Aligned: COM_STMT_SEND_LONG_DATA is no exchange, since it is never answered.
- SessionAlignment.LongDataMisaligns: when the backend sends something is not modelled; its packets are given in order, so that it waits for a command shows only in there being none.
- Forwarders.ForwardQuery: the parsing of ERR packets for the log is taken to succeed, being library code that panics on packets too short for it.
- ChangeUser.ErrAnswerExact: the same holds of an ERR packet of the backend in the relay and of an answer of the client that begins with 0xff, which is unwrapped as an ERR packet too.
- Connections.RunSwitchPlugin: and of an ERR packet that is the verdict on a login, whose message is moreover taken to be UTF-8.
- ActivityWindow.FreezesAreWindows: one freezer at a time; overlapping freezes and the size and count counters are not modelled.
- QueryRuns.QueryExact: LOCAL INFILE, which the proxy does not implement, and CLIENT_OPTIONAL_RESULTSET_METADATA are outside the grammar; the table of known status bits is that of the MySQL protocol.
- Handshakes.HandshakeRoundTrip: is about length-prefixed authentication data, other responses being covered by Handshakes.HandshakeNulExactly; the older HandshakeResponse320 is not modelled, and the known capability bits are a parameter.
- Resolver.EachBackendPickedOnce: the iteration order of the table is a parameter, fixed over a round.
- Sessions.OnCom: the backend takes every packet it is sent, and a flush does not fail.
- PacketIO.PacketReader.NextAsync: a read that fails with an I/O error, which leaves padding in the buffer, is not modelled; reads deliver bytes or the end of the stream.
- Real sockets, task scheduling, TLS, gRPC and HTTP: foreign I/O, replaced by streams and portions.
- Binlog dump, hashing, salts and random balancing, routers, discovery, metrics, the web service, the command line and the static proxy: plumbing or tables that would only add easy members.
