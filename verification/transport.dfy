/**
 * The receiving side of a TCP connection, as the socket calls of the
 * servers see it.
 *
 * A connection still holds some bytes the peer has sent and then ends,
 * either in an orderly way (`asio::error::eof`) or with some other error
 * code. The model takes that end condition as sticky: every read that
 * finds the bytes exhausted reports it, a second read after an error
 * included.
 *
 * Two views of the same connection are used:
 *  - `Wire`: the pending bytes as one sequence. `asio::read` with the
 *    transfer-all condition only depends on this view.
 *  - `Stream`: the pending bytes cut into the pieces that successive reads
 *    find. `read_some` returns at most one piece (or the front of it), so
 *    the chunks an echo server sees depend on this view; any sequence of
 *    read results is the reading of some `Stream`.
 */
module Transport {
  import opened Bytes

  /** How a connection ends once its pending bytes are consumed. */
  datatype End = Eof | Fault(code: nat)

  datatype Wire = Wire(pending: seq<byte>, end: End)

  /** The bytes one `read_some` can find available: a successful read is never empty. */
  type Segment = s: seq<byte> | |s| > 0 witness [0]

  datatype Stream = Stream(arrivals: seq<Segment>, end: End)

  function Flatten(ss: seq<Segment>): (bs: seq<byte>)
    ensures |bs| >= |ss|
  {
    if ss == [] then [] else ss[0] + Flatten(ss[1..])
  }

  /** The stream as one sequence of pending bytes. */
  function Flat(s: Stream): Wire {
    Wire(Flatten(s.arrivals), s.end)
  }

  /** Whether a read completed without an error code, or stopped at the end of the connection. */
  datatype Status = Complete | Stopped(end: End)

  datatype SomeResult = Got(data: seq<byte>, rest: Stream) | Failed(end: End)

  /**
   * `socket.read_some(buffer(data, max), ec)`: the first piece, or its
   * first `max` bytes; or, when no bytes are pending, the end
   * condition with nothing read. An empty buffer reads nothing and
   * succeeds.
   */
  function ReadSome(s: Stream, max: nat): (r: SomeResult)
    ensures r.Failed? <==> s.arrivals == [] && max > 0
    ensures r.Failed? ==> r.end == s.end
    ensures r.Got? ==> |r.data| <= max && r.rest.end == s.end
    ensures r.Got? ==> Flatten(s.arrivals) == r.data + Flatten(r.rest.arrivals)
    ensures r.Got? && max > 0 ==> |r.data| > 0
  {
    if max == 0 then Got([], s)
    else if s.arrivals == [] then Failed(s.end)
    else
      var seg := s.arrivals[0];
      if |seg| <= max then Got(seg, Stream(s.arrivals[1..], s.end))
      else
        var tail := [seg[max..]] + s.arrivals[1..];
        assert tail[0] == seg[max..] && tail[1..] == s.arrivals[1..];
        Got(seg[..max], Stream(tail, s.end))
  }

  /** What one `asio::read` into an `n`-byte buffer produced. */
  datatype Transfer = Transfer(data: seq<byte>, status: Status, rest: Wire)

  /**
   * `asio::read(sock, buffer(n bytes), ec)` on the flat view: it clears
   * `ec`, then fills the buffer completely, or stops when the pending
   * bytes run out and reports the end condition. A zero-byte buffer
   * always completes, whatever state the connection is in.
   */
  function ReadExact(w: Wire, n: nat): (t: Transfer)
    ensures t.rest.end == w.end
    ensures t.status == Complete <==> n <= |w.pending|
    ensures t.status == Complete ==> |t.data| == n
    ensures t.status.Stopped? ==> |t.data| < n && t.status.end == w.end && t.rest.pending == []
    ensures w.pending == t.data + t.rest.pending
  {
    if n <= |w.pending| then Transfer(w.pending[..n], Complete, Wire(w.pending[n..], w.end))
    else Transfer(w.pending, Stopped(w.end), Wire([], w.end))
  }

  /**
   * The loop of `asio::read` with the transfer-all condition: `read_some`
   * into what is left of the buffer until it is full or a read reports an
   * error. The result depends only on the flat view, however the bytes are
   * split between the reads.
   */
  method ReadExactly(s: Stream, n: nat) returns (data: seq<byte>, status: Status, rest: Stream)
    ensures Transfer(data, status, Flat(rest)) == ReadExact(Flat(s), n)
  {
    data := [];
    status := Complete;
    rest := s;
    while |data| < n && status == Complete
      invariant |data| <= n
      invariant rest.end == s.end
      invariant Flatten(s.arrivals) == data + Flatten(rest.arrivals)
      invariant status.Stopped? ==> status.end == s.end && rest.arrivals == [] && |data| < n
      decreases n - |data|, if status == Complete then 1 else 0
    {
      var r := ReadSome(rest, n - |data|);
      match r
      case Got(more, next) =>
        assert data + Flatten(rest.arrivals) == (data + more) + Flatten(next.arrivals);
        data := data + more;
        rest := next;
      case Failed(e) =>
        status := Stopped(e);
    }
    ReadExactlyEnds(s, n, data, status, rest);
  }

  /** What the loop of `ReadExactly` has gathered when it stops is what `ReadExact` returns. */
  lemma ReadExactlyEnds(s: Stream, n: nat, data: seq<byte>, status: Status, rest: Stream)
    requires |data| <= n && rest.end == s.end
    requires Flatten(s.arrivals) == data + Flatten(rest.arrivals)
    requires status.Stopped? ==> status.end == s.end && rest.arrivals == [] && |data| < n
    requires !(|data| < n && status == Complete)
    ensures Transfer(data, status, Flat(rest)) == ReadExact(Flat(s), n)
  {
    var whole := Flatten(s.arrivals);
    if status == Complete {
      assert |data| == n <= |whole|;
      assert whole[..n] == data && whole[n..] == Flatten(rest.arrivals);
    } else {
      assert Flatten(rest.arrivals) == [];
      assert data == whole && |whole| < n;
    }
  }

  /** The size of the receive buffer (`max_length`, `char data[1024]`) of every server. */
  const MaxLength: nat := 1024

  /** What one read into that buffer can hold. */
  type Chunk = s: seq<byte> | |s| <= MaxLength

  /** How a session loop finished: normally, or by an exception it caught. */
  datatype Exit = Normal | Raised(code: nat)
}
