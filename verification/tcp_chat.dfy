/**
 * The asynchronous TCP chat server, plain and over TLS: the accept loop,
 * one session per connection with its read loop, and the shared room.
 *
 * Every completion handler is one step: it takes the server state and the
 * completion, and returns the new state, the writes it issues and the
 * other operations it starts. The two servers differ only in
 * `ClientSession::start`: the TLS session joins the room once its
 * handshake succeeds, the plain one at once.
 */
module TcpChat {
  import opened Transport
  import opened ChatRoom

  type SessionId = Key

  datatype Security = Plain | Tls

  /** Which operation a session has outstanding, if any. */
  datatype Phase = Handshaking | Reading | Closed

  /**
   * The room and the phase of every session created so far. A session's
   * identity is the address of its object: a new session gets an address
   * no live session holds, but it may reuse that of a closed one.
   */
  datatype Server = Server(room: Room, phases: map<SessionId, Phase>)

  /** An asynchronous operation started by a handler (writes are listed apart). */
  datatype Op = AcceptNext | Handshake(id: SessionId) | ReadNext(id: SessionId)

  datatype Step = Step(server: Server, sends: seq<Delivery>, started: seq<Op>)

  datatype ReadCompletion = Received(data: Chunk) | ReadFailed(code: nat)

  datatype Event =
    | Accepted(ok: bool, id: SessionId)
    | HandshakeDone(id: SessionId, ok: bool)
    | ReadDone(id: SessionId, result: ReadCompletion)
    | WriteDone(id: SessionId, ok: bool)

  function PhaseOf(s: Server, id: SessionId): Phase {
    if id in s.phases then s.phases[id] else Closed
  }

  /** The room holds exactly the sessions that have a read outstanding. */
  predicate Valid(s: Server) {
    && ChatRoom.Valid(s.room)
    && (forall id :: id in Members(s.room) ==> PhaseOf(s, id) == Reading)
    && (forall id :: id in s.phases && s.phases[id] == Reading ==> id in Members(s.room))
  }

  /** No session is waiting for a handshake: always the case without TLS. */
  predicate NoHandshakes(s: Server) {
    forall id :: id in s.phases ==> s.phases[id] != Handshaking
  }

  /** Every read a step starts is for a session that is in the room after the step. */
  predicate ReadsForMembers(r: Step) {
    forall i :: 0 <= i < |r.started| && r.started[i].ReadNext? ==> r.started[i].id in Members(r.server.room)
  }

  const Init: Server := Server(Empty, map[])

  /** `ClientSession::start` for a new session at the address `id`, which no live session holds. */
  function Start(security: Security, s: Server, id: SessionId): (r: Step)
    requires Valid(s) && PhaseOf(s, id) == Closed
    ensures Valid(r.server) && r.sends == [] && ReadsForMembers(r)
    ensures forall other :: other != id ==> PhaseOf(r.server, other) == PhaseOf(s, other)
    ensures security == Plain && NoHandshakes(s) ==> NoHandshakes(r.server)
    ensures security == Plain ==>
      && Members(r.server.room) == Members(s.room) + {id}
      && PhaseOf(r.server, id) == Reading
      && r.started == [ReadNext(id)]
    ensures security == Tls ==>
      && r.server.room == s.room
      && PhaseOf(r.server, id) == Handshaking
      && r.started == [Handshake(id)]
  {
    match security
    case Plain =>
      Step(s.(room := Join(s.room, id), phases := s.phases[id := Reading]), [], [ReadNext(id)])
    case Tls =>
      Step(s.(phases := s.phases[id := Handshaking]), [], [Handshake(id)])
  }

  /**
   * `ChatServer::doAccept` completion: a successful accept starts a session
   * at the address `id` of the new object; either way the next accept is
   * started.
   */
  function OnAccept(security: Security, s: Server, ok: bool, id: SessionId): (r: Step)
    requires Valid(s)
    ensures Valid(r.server) && r.sends == [] && ReadsForMembers(r)
    ensures security == Plain && NoHandshakes(s) ==> NoHandshakes(r.server)
    ensures |r.started| > 0 && r.started[|r.started| - 1] == AcceptNext
    ensures ok && PhaseOf(s, id) == Closed ==>
      && PhaseOf(r.server, id) == (if security == Plain then Reading else Handshaking)
      && (forall other :: other != id ==> PhaseOf(r.server, other) == PhaseOf(s, other))
    ensures !ok ==> r.server == s
    ensures security == Tls ==> r.server.room == s.room
  {
    if ok && PhaseOf(s, id) == Closed then
      var started := Start(security, s, id);
      var r := Step(started.server, [], started.started + [AcceptNext]);
      assert forall i :: 0 <= i < |started.started| ==> r.started[i] == started.started[i];
      r
    else
      Step(s, [], [AcceptNext])
  }

  /**
   * The TLS handshake completion: success joins the room and starts the
   * read loop; failure drops the session without joining or reading.
   */
  function OnHandshake(s: Server, id: SessionId, ok: bool): (r: Step)
    requires Valid(s)
    ensures Valid(r.server) && r.sends == [] && ReadsForMembers(r)
    ensures NoHandshakes(s) ==> r == Step(s, [], [])
    ensures PhaseOf(s, id) == Handshaking && ok ==>
      && Members(r.server.room) == Members(s.room) + {id}
      && r.started == [ReadNext(id)]
    ensures !ok ==> r.server.room == s.room && r.started == []
    ensures PhaseOf(s, id) == Handshaking && !ok ==> PhaseOf(r.server, id) == Closed
    ensures PhaseOf(s, id) != Handshaking ==> r == Step(s, [], [])
    ensures forall other :: other != id ==> PhaseOf(r.server, other) == PhaseOf(s, other)
  {
    if PhaseOf(s, id) != Handshaking then Step(s, [], [])
    else if ok then
      Step(s.(room := Join(s.room, id), phases := s.phases[id := Reading]), [], [ReadNext(id)])
    else
      Step(s.(phases := s.phases[id := Closed]), [], [])
  }

  /**
   * The read completion of `ClientSession::doRead`: the bytes read go to
   * the whole room, sender included, and the next read starts; an error
   * (end of stream included) makes the session leave and ends its loop.
   */
  function OnRead(s: Server, id: SessionId, result: ReadCompletion): (r: Step)
    requires Valid(s)
    ensures Valid(r.server) && ReadsForMembers(r)
    ensures NoHandshakes(s) ==> NoHandshakes(r.server)
    ensures PhaseOf(s, id) == Reading && result.Received? ==>
      && id in Members(s.room)
      && r.server.room == s.room
      && r.sends == Deliver(s.room, result.data)
      && r.started == [ReadNext(id)]
    ensures PhaseOf(s, id) == Reading && result.ReadFailed? ==>
      && Members(r.server.room) == Members(s.room) - {id}
      && PhaseOf(r.server, id) == Closed
      && r.sends == [] && r.started == []
    ensures PhaseOf(s, id) != Reading ==> r == Step(s, [], [])
    ensures forall other :: other != id ==> PhaseOf(r.server, other) == PhaseOf(s, other)
  {
    if PhaseOf(s, id) != Reading then Step(s, [], [])
    else
      match result
      case Received(data) => Step(s, Deliver(s.room, data), [ReadNext(id)])
      case ReadFailed(_) =>
        Step(s.(room := Leave(s.room, id), phases := s.phases[id := Closed]), [], [])
  }

  /** The completion of `ClientSession::deliver`'s write: nothing happens, on success or error. */
  function OnWrite(s: Server, id: SessionId, ok: bool): (r: Step)
    requires Valid(s)
    ensures r.server == s && r.sends == [] && r.started == []
  {
    Step(s, [], [])
  }

  function Next(security: Security, s: Server, e: Event): (r: Step)
    requires Valid(s)
    ensures Valid(r.server) && ReadsForMembers(r)
    ensures security == Plain && NoHandshakes(s) ==> NoHandshakes(r.server)
  {
    match e
    case Accepted(ok, id) => OnAccept(security, s, ok, id)
    case HandshakeDone(id, ok) => OnHandshake(s, id, ok)
    case ReadDone(id, result) => OnRead(s, id, result)
    case WriteDone(id, ok) => OnWrite(s, id, ok)
  }

  /** The state after the completions `events`, in order, starting from `s`. */
  function Run(security: Security, s: Server, events: seq<Event>): (r: Server)
    requires Valid(s)
    ensures Valid(r)
    ensures security == Plain && NoHandshakes(s) ==> NoHandshakes(r)
    decreases |events|
  {
    if events == [] then s else Run(security, Next(security, s, events[0]).server, events[1..])
  }

  /** A chunk read by a member reaches every member exactly once, the sender included, and nobody else. */
  lemma ReadFansOutOnce(s: Server, id: SessionId, data: Chunk, k: SessionId)
    requires Valid(s) && PhaseOf(s, id) == Reading
    ensures CountTo(OnRead(s, id, Received(data)).sends, k) == if k in Members(s.room) then 1 else 0
    ensures CountTo(OnRead(s, id, Received(data)).sends, id) == 1
  {
    DeliverExactlyOnce(s.room, data, k);
    DeliverExactlyOnce(s.room, data, id);
  }

  /** A session leaves the room only through an error on its own read; a failed write never removes it. */
  lemma OnlyReadErrorsRemove(security: Security, s: Server, e: Event, id: SessionId)
    requires Valid(s) && id in Members(s.room)
    requires id !in Members(Next(security, s, e).server.room)
    ensures e.ReadDone? && e.id == id && e.result.ReadFailed?
  {
  }

  /** Over TLS a session enters the room only through its own successful handshake. */
  lemma TlsJoinsOnlyAfterHandshake(s: Server, e: Event, id: SessionId)
    requires Valid(s) && id !in Members(s.room)
    requires id in Members(Next(Tls, s, e).server.room)
    ensures e == HandshakeDone(id, true) && PhaseOf(s, id) == Handshaking
  {
  }

  /** Without TLS a session enters the room only when its connection is accepted. */
  lemma PlainJoinsOnAccept(s: Server, e: Event, id: SessionId)
    requires Valid(s) && NoHandshakes(s) && id !in Members(s.room)
    requires id in Members(Next(Plain, s, e).server.room)
    ensures e == Accepted(true, id) && PhaseOf(s, id) == Closed
  {
  }

  /** Whenever a handler starts a read for a session, that session is already in the room. */
  lemma ReadsOnlyForMembers(security: Security, s: Server, e: Event, i: nat)
    requires Valid(s)
    requires i < |Next(security, s, e).started| && Next(security, s, e).started[i].ReadNext?
    ensures Next(security, s, e).started[i].id in Members(Next(security, s, e).server.room)
  {
  }
}
