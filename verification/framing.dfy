/**
 * Length-prefixed framing: a 4-byte `uint32_t` payload size in host byte
 * order, then the payload.
 *
 * The reader reads the 4 header bytes into a `uint32_t` set to 0, sizes a
 * buffer from it, reads that many bytes, and only then looks at the one
 * error code both reads wrote to: end of stream gives an empty vector, any
 * other error is thrown. Because the second `asio::read` clears the error
 * code before it starts, an error of the header read survives only if the
 * payload read fails as well. `AfterEachRead` is the reader that checks the
 * code after each read instead.
 */
module Framing {
  import opened Bytes
  import opened Transport

  /** Where the reader looks at its error code. */
  datatype ErrorCheck = AfterBothReads | AfterEachRead

  /** What the reader hands its caller: a vector, or an exception with an error code. */
  datatype Received = Returned(data: seq<byte>, rest: Wire) | Thrown(code: nat)

  /** The size a header read leaves in its `uint32_t` when `bs` is what the connection holds. */
  function DeclaredSize(order: ByteOrder, bs: seq<byte>): (n: nat)
    ensures n < Uint32Limit
    ensures |bs| >= 4 ==> n == Uint32Value(order, bs[..4])
  {
    if |bs| >= 4 then PartialUint32(order, bs[..4]) else PartialUint32(order, bs)
  }

  /** Whether `bs` starts with a whole frame: the header and every payload byte it announces. */
  predicate HoldsFrame(order: ByteOrder, bs: seq<byte>) {
    |bs| >= 4 && |bs| - 4 >= DeclaredSize(order, bs)
  }

  /** The error-code test after a read: a full buffer, an empty one at end of stream, or a throw. */
  function Classify(t: Transfer): Received {
    match t.status
    case Complete => Returned(t.data, t.rest)
    case Stopped(Eof) => Returned([], t.rest)
    case Stopped(Fault(code)) => Thrown(code)
  }

  /**
   * `readSizeAndData` / `readMonsterData` on what the connection still
   * holds: the payload of the next frame and what follows it; an empty
   * payload when the connection ends in an orderly way before the frame
   * is complete; an exception when it ends with an error, unless the
   * header read left a size of 0 and the error check comes after both
   * reads.
   */
  function ReadFrame(check: ErrorCheck, order: ByteOrder, w: Wire): (r: Received)
    ensures HoldsFrame(order, w.pending) ==>
      var n := DeclaredSize(order, w.pending);
      r == Returned(w.pending[4..4 + n], Wire(w.pending[4 + n..], w.end))
    ensures !HoldsFrame(order, w.pending) && w.end == Eof ==> r == Returned([], Wire([], Eof))
    ensures r.Returned? && r.data != [] ==> HoldsFrame(order, w.pending)
    ensures r.Returned? ==> r.rest.end == w.end && |r.rest.pending| <= |w.pending|
    ensures r.Thrown? ==> !HoldsFrame(order, w.pending) && w.end == Fault(r.code)
  {
    var header := ReadExact(w, 4);
    var size := PartialUint32(order, header.data);
    assert size == DeclaredSize(order, w.pending) by {
      if |w.pending| >= 4 { assert header.data == w.pending[..4]; }
    }
    if check == AfterEachRead && header.status.Stopped? then
      Classify(Transfer([], header.status, header.rest))
    else
      var payload := ReadExact(header.rest, size);
      assert HoldsFrame(order, w.pending) ==> header.rest.pending == w.pending[4..];
      Classify(payload)
  }

  /** `sendSizeAndData`: the header holds the size cast to `uint32_t`, then the whole buffer follows. */
  function SendSizeAndData(order: ByteOrder, payload: seq<byte>): (frame: seq<byte>)
    ensures |frame| == 4 + |payload|
    ensures frame[4..] == payload
    ensures DeclaredSize(order, frame) == |payload| % Uint32Limit
  {
    var frame := Uint32Bytes(order, |payload| % Uint32Limit) + payload;
    assert frame[..4] == Uint32Bytes(order, |payload| % Uint32Limit);
    frame
  }

  /**
   * `sendMonsterData`: the header holds the builder's size cast to
   * `uint32_t`, and the payload is that many bytes of the buffer.
   */
  function SendMonsterData(order: ByteOrder, buffer: seq<byte>): (frame: seq<byte>)
    ensures |frame| >= 4 && |frame| - 4 == DeclaredSize(order, frame)
    ensures DeclaredSize(order, frame) == |buffer| % Uint32Limit
    ensures frame[4..] == buffer[..|buffer| % Uint32Limit]
    ensures |buffer| < Uint32Limit ==> frame == SendSizeAndData(order, buffer)
  {
    var size := |buffer| % Uint32Limit;
    var header := Uint32Bytes(order, size);
    var frame := header + buffer[..size];
    assert frame[..4] == header && frame[4..] == buffer[..size];
    assert DeclaredSize(order, frame) == Uint32Value(order, header);
    frame
  }

  /** The frames of `payloads` one after another on the wire. */
  function SendAll(order: ByteOrder, payloads: seq<seq<byte>>): seq<byte> {
    if payloads == [] then [] else SendSizeAndData(order, payloads[0]) + SendAll(order, payloads[1..])
  }

  /** Payloads that each fit in the header and that a reader can tell apart from end of stream. */
  predicate Sendable(payloads: seq<seq<byte>>) {
    forall i :: 0 <= i < |payloads| ==> 0 < |payloads[i]| < Uint32Limit
  }

  /** A whole frame at the front of the wire reads back as its payload and leaves the rest untouched. */
  lemma ReadWholeFrame(check: ErrorCheck, order: ByteOrder, frame: seq<byte>, rest: seq<byte>, end: End)
    requires |frame| >= 4 && |frame| - 4 == DeclaredSize(order, frame)
    ensures ReadFrame(check, order, Wire(frame + rest, end)) == Returned(frame[4..], Wire(rest, end))
  {
    var bs := frame + rest;
    assert bs[..4] == frame[..4];
    assert HoldsFrame(order, bs);
    assert bs[4..|frame|] == frame[4..] && bs[|frame|..] == rest;
  }

  /** Round trip: a payload that fits in a `uint32_t` is read back intact, followed by exactly what came after it. */
  lemma SizeAndDataRoundTrip(check: ErrorCheck, order: ByteOrder, payload: seq<byte>, rest: seq<byte>, end: End)
    requires |payload| < Uint32Limit
    ensures ReadFrame(check, order, Wire(SendSizeAndData(order, payload) + rest, end)) == Returned(payload, Wire(rest, end))
  {
    ReadWholeFrame(check, order, SendSizeAndData(order, payload), rest, end);
  }

  /**
   * The reader returns exactly the bytes `sendMonsterData` wrote, for any
   * builder size: beyond 2^32 bytes the payload is cut to the truncated
   * size the header announces.
   */
  lemma MonsterDataRoundTrip(check: ErrorCheck, order: ByteOrder, buffer: seq<byte>, rest: seq<byte>, end: End)
    ensures ReadFrame(check, order, Wire(SendMonsterData(order, buffer) + rest, end))
         == Returned(buffer[..|buffer| % Uint32Limit], Wire(rest, end))
  {
    var frame := SendMonsterData(order, buffer);
    ReadWholeFrame(check, order, frame, rest, end);
    assert frame[4..] == buffer[..|frame| - 4];
  }

  /**
   * A buffer of 2^32 bytes or more is announced with its size modulo 2^32
   * but sent whole, so the reader returns a shorter payload and takes the
   * remaining payload bytes for the start of the next frame.
   */
  lemma OversizePayloadDesynchronises(check: ErrorCheck, order: ByteOrder, payload: seq<byte>, rest: seq<byte>, end: End)
    requires |payload| >= Uint32Limit
    ensures var n := |payload| % Uint32Limit;
      ReadFrame(check, order, Wire(SendSizeAndData(order, payload) + rest, end))
        == Returned(payload[..n], Wire(payload[n..] + rest, end))
  {
    var n := |payload| % Uint32Limit;
    var header := Uint32Bytes(order, n);
    assert SendSizeAndData(order, payload) == header + payload;
    var frame := header + payload[..n];
    assert frame[..4] == header && frame[4..] == payload[..n];
    assert payload == payload[..n] + payload[n..];
    assert header + payload + rest == frame + (payload[n..] + rest);
    ReadWholeFrame(check, order, frame, payload[n..] + rest, end);
  }

  /**
   * A frame announcing 0 bytes reads back as an empty vector, the very
   * value the reader returns at end of stream, so the caller cannot tell
   * the two apart.
   */
  lemma EmptyFrameLooksLikeEof(check: ErrorCheck, order: ByteOrder, rest: seq<byte>, end: End)
    ensures ReadFrame(check, order, Wire(SendSizeAndData(order, []) + rest, end)) == Returned([], Wire(rest, end))
    ensures ReadFrame(check, order, Wire([], Eof)) == Returned([], Wire([], Eof))
  {
    SizeAndDataRoundTrip(check, order, [], rest, end);
  }

  /** Frames sent back to back are read back one at a time, in the order they were sent. */
  lemma {:induction false} FramesReadInOrder(check: ErrorCheck, order: ByteOrder, payloads: seq<seq<byte>>, rest: seq<byte>, end: End)
    requires forall i :: 0 <= i < |payloads| ==> |payloads[i]| < Uint32Limit
    requires payloads != []
    ensures ReadFrame(check, order, Wire(SendAll(order, payloads) + rest, end))
         == Returned(payloads[0], Wire(SendAll(order, payloads[1..]) + rest, end))
  {
    var frame := SendSizeAndData(order, payloads[0]);
    assert SendAll(order, payloads) + rest == frame + (SendAll(order, payloads[1..]) + rest);
    SizeAndDataRoundTrip(check, order, payloads[0], SendAll(order, payloads[1..]) + rest, end);
  }

  /**
   * The reader as written throws exactly when the connection ends with an
   * error before the frame is complete AND the header read left a nonzero
   * size; with a size of 0 the payload read clears the error code.
   */
  lemma AfterBothReadsThrows(order: ByteOrder, w: Wire)
    ensures ReadFrame(AfterBothReads, order, w).Thrown?
        <==> !HoldsFrame(order, w.pending) && w.end.Fault? && DeclaredSize(order, w.pending) != 0
  {
    var header := ReadExact(w, 4);
    if |w.pending| >= 4 { assert header.data == w.pending[..4]; }
  }

  /** A connection reset before any byte arrives reads as an orderly end of stream. */
  lemma ResetBeforeHeaderIsSwallowed(order: ByteOrder, code: nat)
    ensures ReadFrame(AfterBothReads, order, Wire([], Fault(code))) == Returned([], Wire([], Fault(code)))
  {
  }

  /** The reader that checks after each read throws on every error that cuts a frame short, and only then. */
  lemma AfterEachReadThrows(order: ByteOrder, w: Wire)
    ensures ReadFrame(AfterEachRead, order, w).Thrown? <==> !HoldsFrame(order, w.pending) && w.end.Fault?
    ensures var r := ReadFrame(AfterEachRead, order, w);
      r.Returned? && r.data == [] ==> w.end == Eof || (HoldsFrame(order, w.pending) && DeclaredSize(order, w.pending) == 0)
  {
    var header := ReadExact(w, 4);
    if |w.pending| >= 4 { assert header.data == w.pending[..4]; }
  }

  /**
   * `readSizeAndData` at the level of `read_some` calls: the header and the
   * payload are each gathered by `asio::read`, so the result is the same
   * however the bytes are split between successive reads, a header split
   * over several reads included.
   */
  method ReadSizeAndData(check: ErrorCheck, order: ByteOrder, s: Stream) returns (r: Received, rest: Stream)
    ensures r == ReadFrame(check, order, Flat(s))
    ensures r.Returned? ==> r.rest == Flat(rest)
  {
    var header, status1, afterHeader := ReadExactly(s, 4);
    var size := PartialUint32(order, header);
    if check == AfterEachRead && status1.Stopped? {
      r := Classify(Transfer([], status1, Flat(afterHeader)));
      rest := afterHeader;
      return;
    }
    var payload, status2, afterPayload := ReadExactly(afterHeader, size);
    r := Classify(Transfer(payload, status2, Flat(afterPayload)));
    rest := afterPayload;
  }
}
