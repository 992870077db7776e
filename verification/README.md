# Networking examples: framing, chat rooms and echo sessions

A Dafny model of the server side of the asio networking examples of the
`3rd_party` example collection:

- the length-prefixed framing of the FlatBuffers examples (`readSizeAndData`,
  `readMonsterData`, `sendSizeAndData`, `sendMonsterData`): a 4-byte
  `uint32_t` size in host byte order followed by the payload;
- the synchronous FlatBuffers server's `session`, which answers every frame
  with a `Monster <name> verified!` line;
- the synchronous echo servers' `session` (`read_some` into a 1024-byte
  buffer, write back); the two echo servers have the same loop, and one
  function models both;
- the asynchronous TCP chat server, plain and over TLS: `ChatRoom`
  (`join`, `leave`, `deliver`), `ClientSession` (`start`, the read loop,
  `deliver`) and `ChatServer`'s accept loop;
- the asynchronous UDP chat server: `add_participant`, `deliver` and the
  receive loop.

Modules, one per file:

| module | file | what it holds |
|---|---|---|
| `Bytes` | bytes.dfy | octets, the `uint32_t` memory image in either byte order, a header that is only partly filled |
| `Transport` | transport.dfy | a connection as pending bytes plus an end condition; `read_some`; `asio::read` with the transfer-all condition |
| `Framing` | framing.dfy | the frame reader and writers, round trips, the error-code handling |
| `ChatRoom` | chat_room.dfy | `std::set` as a strictly ascending sequence; join, leave, fan-out |
| `TcpChat` | tcp_chat.dfy | the completion handlers of the TCP chat server as state steps |
| `UdpChat` | udp_chat.dfy | the receive handler of the UDP chat server |
| `FrameServer` | frame_server.dfy | the FlatBuffers server's session loop |
| `EchoServer` | echo_server.dfy | the echo servers' session loop |

Modelling choices:

- A connection is `Wire(pending, end)`: the bytes the peer has sent and how
  the connection ends once they are consumed, `Eof` or `Fault(code)`. The
  model takes the end condition as sticky: every read that finds no bytes
  left reports it, a second read after an error included (see Left out).
  `Stream(arrivals, end)` is the same connection cut into the pieces that
  successive reads find; any sequence of read results is the reading of
  some `Stream`. `read_some` sees these pieces; `asio::read` sees only the
  flat bytes. `Transport.ReadExactly` shows that the `read_some`
  loop agrees with the flat view.
- `asio::read(..., ec)` clears `ec` before it starts. A zero-byte buffer
  reads nothing and leaves `ec` clear.
- The reader's `uint32_t size = 0` is filled in memory order. A header cut
  short leaves its first bytes overwritten and the rest zero
  (`Bytes.PartialUint32`). Byte order is a parameter that both peers share.
- `static_cast<uint32_t>` of a buffer size is written out as `% 2^32`.
- Session pointers and UDP endpoints are natural numbers. Their order stands
  for the comparator of the `std::set`.
- Each asynchronous completion handler is a pure function. It returns the
  new server state, the writes it issues (`Delivery`) and the operations it
  starts.
- The reader has an error-check mode. `AfterBothReads` is the code as
  written: one error code is shared by both reads and tested after the
  second. `AfterEachRead` tests the code after each read. See Findings.

A frame that announces 0 bytes reads back as an empty vector. The session
loop stops on any empty vector, as the usage note at
examples/asio_and_flatbuffers/sync_tcp/NetworkMethods.h:8 prescribes, so
such a frame ends the session like an orderly close
(`Framing.EmptyFrameLooksLikeEof`, `FrameServer.EmptyFrameEndsSession`).

## Model

| member | source | states |
|---|---|---|
| Bytes.Uint32Bytes | examples/asio_and_flatbuffers/sync_tcp/NetworkMethods.cpp:24-26 | the 4-byte image of a `uint32_t` decodes back to the same value in either byte order |
| Bytes.PartialUint32 | examples/asio_and_flatbuffers/sync_tcp/NetworkMethods.cpp:9-10 | a header read that got no byte leaves size 0; a complete header gives the decoded value; the value always fits in 32 bits |
| Transport.ReadSome | examples/asio/sync_tcp/server/main.cpp:12 | `read_some` fails with the end condition exactly when no bytes are pending; otherwise it returns between 1 and `max` bytes and loses or reorders none of them |
| Transport.ReadExact | examples/asio_and_flatbuffers/sync_tcp/NetworkMethods.cpp:10-13 | `asio::read` completes exactly when enough bytes are pending; otherwise it stops short with the connection's end condition; the bytes read plus those left are what was pending |
| Transport.ReadExactly | examples/asio_and_flatbuffers/sync_tcp/NetworkMethods.cpp:10-13 | the `read_some` loop of `asio::read` gives the same bytes, status and remainder as the flat view, however the bytes are split between successive reads |
| Framing.ReadFrame | examples/asio_and_flatbuffers/sync_tcp/NetworkMethods.cpp:5-21 | a whole frame gives its payload and leaves exactly what follows it; an orderly close before a whole frame gives an empty vector; a non-empty result only comes from a whole frame; a throw only comes from an error end before a whole frame |
| Framing.ReadSizeAndData | examples/asio_and_flatbuffers/sync_tcp/NetworkMethods.cpp:5-21 | the reader built from two `read_some` loops returns what `ReadFrame` does on the flat bytes, and leaves the same remainder |
| Framing.SendSizeAndData | examples/asio_and_flatbuffers/sync_tcp/NetworkMethods.cpp:23-29 | the frame is 4 header bytes then the whole buffer; the header announces the buffer size modulo 2^32 |
| Framing.SendMonsterData | examples/asio_and_flatbuffers/NetworkMethods.cpp:25-33 | the header announces the truncated size and exactly that many bytes of the buffer follow; below 2^32 bytes this is the same frame `sendSizeAndData` writes |
| Framing.SizeAndDataRoundTrip | examples/asio_and_flatbuffers/sync_tcp/NetworkMethods.cpp:5-29 | a payload below 2^32 bytes is read back intact, and the reader is left exactly at the bytes that followed it |
| Framing.MonsterDataRoundTrip | examples/asio_and_flatbuffers/NetworkMethods.cpp:7-33 | the reader returns exactly the bytes `sendMonsterData` wrote, for any buffer size |
| Framing.OversizePayloadDesynchronises | examples/asio_and_flatbuffers/sync_tcp/NetworkMethods.cpp:24-28 | a buffer of 2^32 bytes or more is read back cut to its size modulo 2^32, and its remaining bytes are taken as the start of the next frame |
| Framing.EmptyFrameLooksLikeEof | examples/asio_and_flatbuffers/sync_tcp/NetworkMethods.cpp:12-16 | a frame announcing 0 bytes and an orderly close both read back as the empty vector |
| Framing.FramesReadInOrder | examples/asio_and_flatbuffers/sync_tcp/NetworkMethods.cpp:5-29 | frames sent back to back are read back one at a time, in send order |
| Framing.AfterBothReadsThrows | examples/asio_and_flatbuffers/sync_tcp/NetworkMethods.cpp:10-18 | the reader as written throws if and only if an error end cuts the frame short and the header read left a nonzero size |
| Framing.ResetBeforeHeaderIsSwallowed | examples/asio_and_flatbuffers/sync_tcp/NetworkMethods.cpp:10-18 | a connection reset before any byte arrives returns an empty vector instead of throwing |
| Framing.AfterEachReadThrows | examples/asio_and_flatbuffers/sync_tcp/NetworkMethods.cpp:15-18 | the corrected reader throws if and only if an error end cuts the frame short; its empty result means an orderly close or a 0-byte frame |
| ChatRoom.Insert | examples/asio/async_tcp/server/main.cpp:20 | inserting into the ordered set keeps it strictly ascending and adds exactly the key |
| ChatRoom.Erase | examples/asio/async_tcp/server/main.cpp:25 | erasing keeps the set ascending and removes exactly the key; an absent key leaves the set unchanged |
| ChatRoom.Join | examples/asio/async_tcp/server/main.cpp:19-22 | `join` adds the session to the members; joining a member changes nothing |
| ChatRoom.Leave | examples/asio/async_tcp/server/main.cpp:24-27 | `leave` removes exactly the session; leaving when absent changes nothing |
| ChatRoom.Size | examples/asio_and_openssl/async_tcp/server/main.cpp:22 | `sessions_.size()` is the number of distinct members |
| ChatRoom.Deliver | examples/asio/async_tcp/server/main.cpp:29-33 | one write per member, each carrying the message, in the set's ascending order |
| ChatRoom.DeliverExactlyOnce | examples/asio/async_tcp/server/main.cpp:29-33 | every member receives the message exactly once, and no one else receives it |
| ChatRoom.JoinIdempotent | examples/asio_and_openssl/async_tcp/server/main.cpp:20-23 | joining twice is the same as joining once |
| ChatRoom.LeaveIdempotent | examples/asio_and_openssl/async_tcp/server/main.cpp:25-28 | leaving twice is the same as leaving once; leaving when absent changes nothing |
| ChatRoom.JoinAll | examples/asio/async_tcp/server/main.cpp:19-22 | after a series of joins the members are the old members plus every key joined |
| ChatRoom.LeaveAll | examples/asio/async_tcp/server/main.cpp:24-27 | after a series of leaves the members are the old members minus every key that left |
| ChatRoom.JoinThenLeaveCount | examples/asio/async_tcp/server/main.cpp:19-27 | N distinct sessions joining and then M of them leaving leaves N - M members, whatever the order of the joins among themselves and of the leaves among themselves |
| TcpChat.Start | examples/asio/async_tcp/server/main.cpp:48-51 | a plain session joins the room and starts reading at once; a TLS session only starts its handshake (asio_and_openssl/async_tcp/server/main.cpp:49-58) |
| TcpChat.OnAccept | examples/asio_and_openssl/async_tcp/server/main.cpp:119-127 | a successful accept creates one session at an address no live session holds and changes no other session; a failed one changes nothing; the next accept is started either way |
| TcpChat.OnHandshake | examples/asio_and_openssl/async_tcp/server/main.cpp:49-58 | a successful handshake joins the room and starts the read loop; a failed one closes the session without joining or reading; no other session changes phase |
| TcpChat.OnRead | examples/asio/async_tcp/server/main.cpp:65-79 | a chunk read by a member goes to the whole room, sender included, and the next read starts; any read error makes the session leave and ends its loop; no other session changes phase |
| TcpChat.OnWrite | examples/asio/async_tcp/server/main.cpp:53-62 | a write completion changes nothing, whether it succeeded or failed |
| TcpChat.Next | examples/asio/async_tcp/server/main.cpp:65-110 | every handler keeps the room equal to the set of sessions that have a read outstanding |
| TcpChat.Run | examples/asio/async_tcp/server/main.cpp:65-110 | any sequence of completions keeps that invariant; without TLS no session ever waits for a handshake |
| TcpChat.ReadFansOutOnce | examples/asio/async_tcp/server/main.cpp:70-74 | a chunk read by a member reaches every member exactly once, the sender included, and no one else |
| TcpChat.OnlyReadErrorsRemove | examples/asio_and_openssl/async_tcp/server/main.cpp:64-85 | a session leaves the room only through an error on its own read; a failed write never removes it |
| TcpChat.TlsJoinsOnlyAfterHandshake | examples/asio_and_openssl/async_tcp/server/main.cpp:49-58 | over TLS a session enters the room only through its own successful handshake |
| TcpChat.PlainJoinsOnAccept | examples/asio/async_tcp/server/main.cpp:102-110 | without TLS a session enters the room only when its connection is accepted, at an address no live session held |
| TcpChat.ReadsOnlyForMembers | examples/asio/async_tcp/server/main.cpp:48-79 | whenever a handler starts a read for a session, that session is in the room |
| UdpChat.AddParticipant | examples/asio/async_udp/server/main.cpp:16-22 | the sender is added to the participants; the announcement is made exactly when the sender is new; `last_size_` stays equal to the set size |
| UdpChat.OnReceive | examples/asio/async_udp/server/main.cpp:47-69 | a datagram of at least one byte adds its sender and goes to every participant; an error or an empty datagram changes nothing |
| UdpChat.SenderReceivesOwnDatagram | examples/asio/async_udp/server/main.cpp:24-31 | the sender gets its own datagram back, and every participant gets it exactly once |
| UdpChat.Run | examples/asio/async_udp/server/main.cpp:47-69 | participants are never removed, and `last_size_` keeps up with the set |
| UdpChat.ParticipantsAreSenders | examples/asio/async_udp/server/main.cpp:14-22 | the participants are exactly the senders of the non-empty datagrams received so far |
| FrameServer.Reply | examples/asio_and_flatbuffers/sync_tcp/server/main.cpp:28-30 | the confirmation is `Monster `, then the name, then ` verified!` |
| FrameServer.Session | examples/asio_and_flatbuffers/sync_tcp/server/main.cpp:11-37 | the loop ends normally after an orderly close; an exception carries the connection's own error code; each reply uses at least 5 bytes of input |
| FrameServer.Replies | examples/asio_and_flatbuffers/sync_tcp/server/main.cpp:19-30 | one reply per payload, in the same order |
| FrameServer.SessionAnswersInOrder | examples/asio_and_flatbuffers/sync_tcp/server/main.cpp:17-31 | frames sent back to back are answered one by one, in arrival order |
| FrameServer.OrderlyCloseAnswersEveryFrame | examples/asio_and_flatbuffers/sync_tcp/server/main.cpp:17-34 | a peer that sends its frames and closes gets exactly one reply per frame, and the session ends normally |
| FrameServer.EmptyFrameEndsSession | examples/asio_and_flatbuffers/sync_tcp/server/main.cpp:19-21 | a 0-byte frame ends the session; the frames after it are never read |
| FrameServer.ResetAfterLastFrame | examples/asio_and_flatbuffers/sync_tcp/server/main.cpp:16-34 | a reset right after the last frame ends the session as written normally; the corrected reader reports the error |
| EchoServer.Session | examples/asio/sync_tcp/server/main.cpp:7-23 | the bytes written back are exactly the bytes received, in at most 1024-byte writes; the loop ends normally exactly on end of stream; otherwise it ends with that error code |
| EchoServer.SegmentsEchoedUnchanged | examples/asio/server/main.cpp:7-26 | when no piece is longer than the buffer, each piece is echoed exactly as the read returned it, with the same boundaries |

## Left out

- Console output (`std::cout`, `std::cerr`, the debug log) is not modelled. The UDP "New participant" line is kept only as a flag.
- The io_context scheduler, threads and `shared_ptr` lifetimes are not modelled. Completions are taken one at a time, in any order the caller gives.
- The accept loops of the synchronous servers are not modelled. Each accepted socket is one independent `Session`, and spawning and detaching threads adds nothing to it.
- TLS internals (certificates, context options, the handshake protocol) are left out. A handshake is only a success or a failure.
- FlatBuffers decoding and `verifyMonster` are left out. `nameOf` stands for `GetMonster(data)->name()->str()`. A payload that fails verification, which asserts in the source, is not modelled.
- Writes of the synchronous servers (`asio::write`) are taken to succeed. An error they throw is not modelled. The async writes' errors are modelled and are ignored, as in the source.
- `TcpChat.Next`: a completion for a session with no matching outstanding operation is ignored. The scheduler never delivers one.
- Session pointers and endpoints are natural numbers, and their order stands for the `std::set` comparator. The address of a new TCP session is chosen by whoever supplies the `Accepted` completion, so the fan-out order follows the addresses and not the accept order. Which addresses the allocator hands out is not modelled.
- Framing.AfterBothReadsThrows: the sticky end condition is an assumption of the model, not a promise of asio. A socket that reports a reset once and end of stream afterwards makes the second `asio::read` (examples/asio_and_flatbuffers/sync_tcp/NetworkMethods.cpp:13) see `eof`, and the reader as written then returns an empty vector where the model throws. On such a socket the reader swallows even more errors than the Finding shows.
- Framing.ReadFrame: a failed allocation of `read_buf(size)` (examples/asio_and_flatbuffers/sync_tcp/NetworkMethods.cpp:12) for a large announced size is not modelled. In the source it throws and the session's `catch` ends the session with an error. The model instead waits for the payload bytes, and for the header `0xFFFFFFFF` followed by end of stream it returns an empty vector and a normal exit.
- TcpChat.OnAccept: `socket.remote_endpoint()` in the accept log line (examples/asio/async_tcp/server/main.cpp:106) throws when the peer has already reset. The exception leaves `io_context.run()` before `doAccept()` re-arms, and `main` ends the server. The model takes that call to succeed, so it always starts the next accept.
- FrameServer.Session: `remote_endpoint()` in the greeting line (examples/asio_and_flatbuffers/sync_tcp/server/main.cpp:12-14) is outside the `try`, so a throw there ends the process. The model takes that call to succeed and starts with the first read.
- The clients and the other library examples of the collection are not part of this model.
- A UDP datagram longer than the 1024-byte receive buffer is not modelled: the platform decides whether it is cut short or reported as an error. The model only takes datagrams of at most 1024 bytes (`Chunk`).

## Findings

| source | as written | input that shows it | evidently intended | confidence | as-written member | corrected member |
|---|---|---|---|---|---|---|
| examples/asio_and_flatbuffers/sync_tcp/NetworkMethods.cpp:10-18 (also examples/asio_and_flatbuffers/NetworkMethods.cpp:12-20) | the second `asio::read` overwrites the error code of the header read, so a header-read error is only seen if the payload read fails too | a connection reset before any header byte, `Wire([], Fault(c))`: the size stays 0, the 0-byte payload read clears the code, and an empty vector is returned | throw `system_error` for every error other than end of stream, as the reader's own `else if (ec) throw` branch (NetworkMethods.cpp:17-18; twin :19-20) sets out to do; the twin's declaration comment "Return empty vector on error" (examples/asio_and_flatbuffers/NetworkMethods.h:7) points the other way, so the stated intent rests on that branch | medium, not executed | Framing.AfterBothReadsThrows | Framing.AfterEachReadThrows |

`Framing.ResetBeforeHeaderIsSwallowed` and `FrameServer.ResetAfterLastFrame`
exhibit the discrepancy on that input. The session loop takes the
error-check mode as a parameter. The server as written uses
`AfterBothReads`. `AfterEachRead` is the corrected reader: it throws on
every error other than end of stream, which is what the reader's own
`else if (ec) throw asio::system_error(ec);` branch
(examples/asio_and_flatbuffers/sync_tcp/NetworkMethods.cpp:17-18) sets out
to do.
