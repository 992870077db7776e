/**
 * The synchronous FlatBuffers server's `session`: read frames until the
 * reader returns an empty vector, and answer each frame with one line
 * naming the monster it carries. An exception from the reader ends the
 * session inside `session` itself.
 *
 * Decoding and verifying the FlatBuffers payload is outside this model:
 * `nameOf` stands for `GetMonster(data)->name()->str()`.
 */
module FrameServer {
  import opened Bytes
  import opened Transport
  import opened Framing

  /** The replies written, in order, and how the loop ended. */
  datatype SessionLog = SessionLog(replies: seq<string>, exit: Exit)

  /** The confirmation written for a monster called `name`. */
  function Reply(name: string): (line: string)
    ensures |line| == |name| + 18
    ensures line[..8] == "Monster " && line[|line| - 10..] == " verified!"
    ensures line[8..|line| - 10] == name
  {
    "Monster " + name + " verified!"
  }

  /**
   * `session`: a frame with a payload gets one reply and the loop goes on
   * with what follows it; an empty result (end of stream, or a frame that
   * announces 0 bytes) ends the loop normally; an exception ends it with
   * that error code.
   */
  function Session(check: ErrorCheck, order: ByteOrder, nameOf: seq<byte> -> string, w: Wire): (log: SessionLog)
    ensures log.exit.Raised? ==> w.end == Fault(log.exit.code)
    ensures w.end == Eof ==> log.exit == Normal
    ensures 5 * |log.replies| <= |w.pending|
    decreases |w.pending|
  {
    match ReadFrame(check, order, w)
    case Thrown(code) => SessionLog([], Raised(code))
    case Returned(data, rest) =>
      if data == [] then SessionLog([], Normal)
      else
        var tail := Session(check, order, nameOf, rest);
        SessionLog([Reply(nameOf(data))] + tail.replies, tail.exit)
  }

  /** The replies for `payloads`, one per payload, in the same order. */
  function Replies(nameOf: seq<byte> -> string, payloads: seq<seq<byte>>): (rs: seq<string>)
    ensures |rs| == |payloads|
    ensures forall i :: 0 <= i < |payloads| ==> rs[i] == Reply(nameOf(payloads[i]))
  {
    if payloads == [] then [] else [Reply(nameOf(payloads[0]))] + Replies(nameOf, payloads[1..])
  }

  /**
   * Frames sent back to back are answered one by one, in arrival order,
   * before the session goes on with whatever follows them.
   */
  lemma {:induction false} SessionAnswersInOrder(check: ErrorCheck, order: ByteOrder, nameOf: seq<byte> -> string,
                                                 payloads: seq<seq<byte>>, tail: seq<byte>, end: End)
    requires Sendable(payloads)
    ensures var after := Session(check, order, nameOf, Wire(tail, end));
      Session(check, order, nameOf, Wire(SendAll(order, payloads) + tail, end))
        == SessionLog(Replies(nameOf, payloads) + after.replies, after.exit)
    decreases |payloads|
  {
    if payloads == [] {
      assert SendAll(order, payloads) + tail == tail;
    } else {
      SendableTail(payloads);
      SessionAnswersInOrder(check, order, nameOf, payloads[1..], tail, end);
      AnswerNextFrame(check, order, nameOf, payloads, tail, end);
    }
  }

  /** If the frames after the first are answered in order, so are all of them. */
  lemma AnswerNextFrame(check: ErrorCheck, order: ByteOrder, nameOf: seq<byte> -> string,
                        payloads: seq<seq<byte>>, tail: seq<byte>, end: End)
    requires Sendable(payloads) && payloads != []
    requires var after := Session(check, order, nameOf, Wire(tail, end));
      Session(check, order, nameOf, Wire(SendAll(order, payloads[1..]) + tail, end))
        == SessionLog(Replies(nameOf, payloads[1..]) + after.replies, after.exit)
    ensures var after := Session(check, order, nameOf, Wire(tail, end));
      Session(check, order, nameOf, Wire(SendAll(order, payloads) + tail, end))
        == SessionLog(Replies(nameOf, payloads) + after.replies, after.exit)
  {
    var after := Session(check, order, nameOf, Wire(tail, end));
    AnswerFirstFrame(check, order, nameOf, payloads, tail, end);
    PrependReply(nameOf, payloads, after.replies);
  }

  lemma PrependReply(nameOf: seq<byte> -> string, payloads: seq<seq<byte>>, later: seq<string>)
    requires payloads != []
    ensures [Reply(nameOf(payloads[0]))] + (Replies(nameOf, payloads[1..]) + later) == Replies(nameOf, payloads) + later
  {
  }

  lemma SendableTail(payloads: seq<seq<byte>>)
    requires Sendable(payloads) && payloads != []
    ensures Sendable(payloads[1..])
  {
    forall i | 0 <= i < |payloads[1..]| ensures 0 < |payloads[1..][i]| < Uint32Limit {
      assert payloads[1..][i] == payloads[i + 1];
    }
  }

  /** The first of several frames sent back to back gets the first reply. */
  lemma AnswerFirstFrame(check: ErrorCheck, order: ByteOrder, nameOf: seq<byte> -> string,
                         payloads: seq<seq<byte>>, tail: seq<byte>, end: End)
    requires Sendable(payloads) && payloads != []
    ensures var next := Session(check, order, nameOf, Wire(SendAll(order, payloads[1..]) + tail, end));
      Session(check, order, nameOf, Wire(SendAll(order, payloads) + tail, end))
        == SessionLog([Reply(nameOf(payloads[0]))] + next.replies, next.exit)
  {
    FramesReadInOrder(check, order, payloads, tail, end);
  }

  /** A peer that sends its frames and closes the connection gets exactly one reply per frame. */
  lemma OrderlyCloseAnswersEveryFrame(check: ErrorCheck, order: ByteOrder, nameOf: seq<byte> -> string, payloads: seq<seq<byte>>)
    requires Sendable(payloads)
    ensures Session(check, order, nameOf, Wire(SendAll(order, payloads), Eof)) == SessionLog(Replies(nameOf, payloads), Normal)
  {
    SessionAnswersInOrder(check, order, nameOf, payloads, [], Eof);
    assert SendAll(order, payloads) + [] == SendAll(order, payloads);
  }

  /** A frame announcing 0 bytes ends the session: the frames after it are never read. */
  lemma EmptyFrameEndsSession(check: ErrorCheck, order: ByteOrder, nameOf: seq<byte> -> string,
                              payloads: seq<seq<byte>>, later: seq<byte>, end: End)
    requires Sendable(payloads)
    ensures Session(check, order, nameOf, Wire(SendAll(order, payloads) + (SendSizeAndData(order, []) + later), end))
         == SessionLog(Replies(nameOf, payloads), Normal)
  {
    SessionAnswersInOrder(check, order, nameOf, payloads, SendSizeAndData(order, []) + later, end);
    EmptyFrameLooksLikeEof(check, order, later, end);
    assert Replies(nameOf, payloads) + [] == Replies(nameOf, payloads);
  }

  /**
   * A connection reset right after the last whole frame: the server as
   * written ends the session as if the peer had closed in an orderly way,
   * while the reader that checks after each read reports the error.
   */
  lemma ResetAfterLastFrame(order: ByteOrder, nameOf: seq<byte> -> string, payloads: seq<seq<byte>>, code: nat)
    requires Sendable(payloads)
    ensures Session(AfterBothReads, order, nameOf, Wire(SendAll(order, payloads), Fault(code)))
         == SessionLog(Replies(nameOf, payloads), Normal)
    ensures Session(AfterEachRead, order, nameOf, Wire(SendAll(order, payloads), Fault(code)))
         == SessionLog(Replies(nameOf, payloads), Raised(code))
  {
    assert SendAll(order, payloads) + [] == SendAll(order, payloads);
    SessionAnswersInOrder(AfterBothReads, order, nameOf, payloads, [], Fault(code));
    SessionAnswersInOrder(AfterEachRead, order, nameOf, payloads, [], Fault(code));
    ResetBeforeHeaderIsSwallowed(order, code);
    assert Replies(nameOf, payloads) + [] == Replies(nameOf, payloads);
  }
}
