/** Bytes and the fixed-size frame of the relay protocol. */
module Bytes {

  /** A value of a Python `bytes` or `bytearray` element. */
  type byte = x: int | 0 <= x < 256

  /** Every message on the relay connection, in either direction, is this long. */
  const FrameSize := 48

  /** A complete protocol frame. */
  type Frame = s: seq<byte> | |s| == FrameSize witness Zeros()

  /** `bytes([0] * 48)`: the frame the source substitutes when nothing is cached. */
  function Zeros(): (z: seq<byte>)
    ensures |z| == FrameSize
    ensures forall i :: 0 <= i < |z| ==> z[i] == 0
  {
    seq(FrameSize, _ => 0)
  }
}
