/**
 * The asynchronous UDP chat server: one receive outstanding at a time; a
 * datagram adds its sender to the participants and is sent back to every
 * participant. Participants are never removed.
 */
module UdpChat {
  import opened Transport
  import opened ChatRoom

  type Endpoint = Key

  /** `participants_` and `last_size_`, the size last announced. */
  datatype Server = Server(participants: Room, lastSize: nat)

  /** `last_size_` keeps up with the size of the set. */
  predicate Valid(s: Server) {
    ChatRoom.Valid(s.participants) && s.lastSize == Size(s.participants)
  }

  const Init: Server := Server(Empty, 0)

  /** The new state, and whether the "New participant" line was printed. */
  datatype Added = Added(server: Server, announced: bool)

  /** `ChatRoom::add_participant`. */
  function AddParticipant(s: Server, from: Endpoint): (r: Added)
    requires ChatRoom.Valid(s.participants)
    ensures ChatRoom.Valid(r.server.participants)
    ensures Members(r.server.participants) == Members(s.participants) + {from}
    ensures r.server.lastSize >= s.lastSize
    ensures Valid(s) ==> Valid(r.server) && (r.announced <==> from !in Members(s.participants))
    ensures from in Members(s.participants) && Valid(s) ==> r.server == s
  {
    var participants := Join(s.participants, from);
    if Size(participants) > s.lastSize then Added(Server(participants, Size(participants)), true)
    else Added(Server(participants, s.lastSize), false)
  }

  datatype Completion = Received(from: Endpoint, data: Chunk) | ReceiveFailed(code: nat)

  /**
   * The new state, the announcement, and the datagrams sent. Every
   * completion starts the next receive, on success and on error alike, so
   * `Run` takes any completion after any other.
   */
  datatype Step = Step(server: Server, announced: bool, sends: seq<Delivery>)

  /**
   * The completion handler of `AsyncUdpServer::doReceive`: a datagram of at
   * least one byte adds its sender, then goes to every participant; an
   * error or an empty datagram changes nothing.
   */
  function OnReceive(s: Server, c: Completion): (r: Step)
    requires Valid(s)
    ensures Valid(r.server)
    ensures Members(s.participants) <= Members(r.server.participants)
    ensures c.Received? && |c.data| > 0 ==>
      && Members(r.server.participants) == Members(s.participants) + {c.from}
      && (r.announced <==> c.from !in Members(s.participants))
      && r.sends == Deliver(r.server.participants, c.data)
    ensures !(c.Received? && |c.data| > 0) ==> r == Step(s, false, [])
  {
    match c
    case Received(from, data) =>
      if |data| > 0 then
        var added := AddParticipant(s, from);
        Step(added.server, added.announced, Deliver(added.server.participants, data))
      else Step(s, false, [])
    case ReceiveFailed(_) => Step(s, false, [])
  }

  /** The sender of a datagram is among its recipients, and each participant receives it exactly once. */
  lemma SenderReceivesOwnDatagram(s: Server, from: Endpoint, data: Chunk, k: Endpoint)
    requires Valid(s) && |data| > 0
    ensures var r := OnReceive(s, Received(from, data));
      && CountTo(r.sends, from) == 1
      && CountTo(r.sends, k) == (if k in Members(r.server.participants) then 1 else 0)
      && (forall i :: 0 <= i < |r.sends| ==> r.sends[i].msg == data && |r.sends[i].msg| <= MaxLength)
  {
    var r := OnReceive(s, Received(from, data));
    DeliverExactlyOnce(r.server.participants, data, from);
    DeliverExactlyOnce(r.server.participants, data, k);
  }

  /** The state after the completions `cs`, in order. */
  function Run(s: Server, cs: seq<Completion>): (r: Server)
    requires Valid(s)
    ensures Valid(r)
    ensures Members(s.participants) <= Members(r.participants)
    decreases |cs|
  {
    if cs == [] then s else Run(OnReceive(s, cs[0]).server, cs[1..])
  }

  /** The senders of the datagrams of at least one byte among `cs`. */
  function Senders(cs: seq<Completion>): set<Endpoint> {
    if cs == [] then {}
    else (if cs[0].Received? && |cs[0].data| > 0 then {cs[0].from} else {}) + Senders(cs[1..])
  }

  /** The participants are exactly the senders of the non-empty datagrams received so far. */
  lemma {:induction false} ParticipantsAreSenders(s: Server, cs: seq<Completion>)
    requires Valid(s)
    ensures Members(Run(s, cs).participants) == Members(s.participants) + Senders(cs)
    decreases |cs|
  {
    if cs != [] {
      var s' := OnReceive(s, cs[0]).server;
      ReceiveStep(s, cs);
      ParticipantsAreSenders(s', cs[1..]);
    }
  }

  /** One completion of `cs` taken: the participants gain its sender, if it sent a datagram. */
  lemma ReceiveStep(s: Server, cs: seq<Completion>)
    requires Valid(s) && cs != []
    ensures var s' := OnReceive(s, cs[0]).server;
      && Run(s, cs) == Run(s', cs[1..])
      && Members(s.participants) + Senders(cs) == Members(s'.participants) + Senders(cs[1..])
  {
    var c := cs[0];
    var first: set<Endpoint> := if c.Received? && |c.data| > 0 then {c.from} else {};
    assert Members(OnReceive(s, c).server.participants) == Members(s.participants) + first;
    assert Senders(cs) == first + Senders(cs[1..]);
  }
}
