/**
 * Octets and the 4-byte unsigned length header of the framing protocol.
 *
 * The sender and the receiver copy a `uint32_t` to and from the socket in
 * host byte order, so the byte order is a parameter here: both peers of a
 * connection are assumed to run with the same one.
 */
module Bytes {

  newtype byte = x: int | 0 <= x < 256

  /** 2^32: one more than the largest value a `uint32_t` holds. */
  const Uint32Limit: nat := 0x1_0000_0000

  datatype ByteOrder = LittleEndian | BigEndian

  /** The value of four bytes taken least significant first. */
  function LittleValue(bs: seq<byte>): nat
    requires |bs| == 4
  {
    bs[0] as nat + 256 * (bs[1] as nat + 256 * (bs[2] as nat + 256 * bs[3] as nat))
  }

  /** The four bytes in memory order, rearranged least significant first. */
  function InLittleOrder(order: ByteOrder, bs: seq<byte>): (le: seq<byte>)
    requires |bs| == 4
    ensures |le| == 4
  {
    match order
    case LittleEndian => bs
    case BigEndian => [bs[3], bs[2], bs[1], bs[0]]
  }

  /** The `uint32_t` whose memory image, in the given byte order, is `bs`. */
  function Uint32Value(order: ByteOrder, bs: seq<byte>): (v: nat)
    requires |bs| == 4
    ensures v < Uint32Limit
  {
    LittleValue(InLittleOrder(order, bs))
  }

  /** The memory image of the `uint32_t` value `v` in the given byte order. */
  function Uint32Bytes(order: ByteOrder, v: nat): (bs: seq<byte>)
    requires v < Uint32Limit
    ensures |bs| == 4
    ensures Uint32Value(order, bs) == v
  {
    var q0 := v / 256;
    var q1 := q0 / 256;
    var q2 := q1 / 256;
    var le: seq<byte> := [(v % 256) as byte, (q0 % 256) as byte, (q1 % 256) as byte, q2 as byte];
    assert LittleValue(le) == v;
    match order
    case LittleEndian => le
    case BigEndian => [le[3], le[2], le[1], le[0]]
  }

  /** Every 4-byte image is the image of the value it denotes. */
  lemma Uint32BytesOfValue(order: ByteOrder, bs: seq<byte>)
    requires |bs| == 4
    ensures Uint32Bytes(order, Uint32Value(order, bs)) == bs
  {
    var le := InLittleOrder(order, bs);
    var v := LittleValue(le);
    var q0 := v / 256;
    var q1 := q0 / 256;
    assert v % 256 == le[0] as nat && q0 == le[1] as nat + 256 * (le[2] as nat + 256 * le[3] as nat);
    assert q0 % 256 == le[1] as nat && q1 == le[2] as nat + 256 * le[3] as nat;
    assert q1 % 256 == le[2] as nat && q1 / 256 == le[3] as nat;
  }

  /** A run of `n` zero bytes. */
  function Zeros(n: nat): seq<byte> {
    seq(n, _ => 0)
  }

  /**
   * The value of a `uint32_t` that was set to 0 and then had its first
   * `|got|` bytes of memory overwritten by `got`: what a read of the header
   * leaves behind when it stops early.
   */
  function PartialUint32(order: ByteOrder, got: seq<byte>): (v: nat)
    requires |got| <= 4
    ensures v < Uint32Limit
    ensures got == [] ==> v == 0
    ensures |got| == 4 ==> v == Uint32Value(order, got)
  {
    assert |got| == 4 ==> got + Zeros(0) == got;
    Uint32Value(order, got + Zeros(4 - |got|))
  }
}
