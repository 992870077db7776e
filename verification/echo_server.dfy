/**
 * The synchronous echo servers' `session`: read up to 1024 bytes with
 * `read_some`, write them back, until end of stream; any other error is
 * thrown and caught inside `session`. Writes are taken to succeed.
 */
module EchoServer {
  import opened Transport

  /** The chunks written back, in order, and how the loop ended. */
  datatype EchoLog = EchoLog(writes: seq<Segment>, exit: Exit)

  function Session(s: Stream): (log: EchoLog)
    ensures Flatten(log.writes) == Flatten(s.arrivals)
    ensures forall i :: 0 <= i < |log.writes| ==> |log.writes[i]| <= MaxLength
    ensures log.exit == Normal <==> s.end == Eof
    ensures log.exit.Raised? ==> s.end == Fault(log.exit.code)
    decreases |Flatten(s.arrivals)|
  {
    match ReadSome(s, MaxLength)
    case Failed(end) => EchoLog([], if end == Eof then Normal else Raised(end.code))
    case Got(data, rest) =>
      var tail := Session(rest);
      EchoLog([data] + tail.writes, tail.exit)
  }

  /**
   * When no piece is longer than the buffer, each piece is written back
   * exactly as the read returned it, with the same boundaries.
   */
  lemma {:induction false} SegmentsEchoedUnchanged(s: Stream)
    requires forall i :: 0 <= i < |s.arrivals| ==> |s.arrivals[i]| <= MaxLength
    ensures Session(s).writes == s.arrivals
    decreases |s.arrivals|
  {
    if s.arrivals != [] {
      var rest := Stream(s.arrivals[1..], s.end);
      assert ReadSome(s, MaxLength) == Got(s.arrivals[0], rest);
      SegmentsEchoedUnchanged(rest);
    }
  }
}
