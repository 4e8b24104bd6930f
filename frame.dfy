/** The fixed-size transport unit of the stack (frame.py). */
module Frames {

  /** A byte as the Python lists of the stack hold it: an int in 0..255. */
  type Byte = b: int | 0 <= b < 256

  /** A demodulated or encoded bit: the int 0 or 1. */
  type Bit = b: int | 0 <= b < 2

  /** Three copies of 1,0,1,0,1,0,1,0 followed by eight 1s. */
  const PREAMBLE: seq<Bit> := [1, 0, 1, 0, 1, 0, 1, 0] + [1, 0, 1, 0, 1, 0, 1, 0]
                            + [1, 0, 1, 0, 1, 0, 1, 0] + [1, 1, 1, 1, 1, 1, 1, 1]

  const HEADER_BYTES: nat := 2
  const PAYLOAD_BYTES: nat := 36
  /** HEADER_BYTES + PAYLOAD_BYTES, written out (FrameConstants checks it). */
  const FRAME_BYTES: nat := 38

  /** The `bits_per_frame` that both the link and the physical layer derive,
      FRAME_BYTES * 8. */
  const BITS_PER_FRAME: nat := 304

  /** seqNo (`seq` in the source): index of the frame within its packet;
      end: number of frames of that packet. Both are stored without any range
      check; the link layer wraps them modulo 256 on the wire. */
  datatype Frame = Frame(seqNo: int, end: int, data: seq<Byte>)

  function Zeros(n: nat): (z: seq<Byte>)
    ensures |z| == n && forall i | 0 <= i < n :: z[i] == 0
  {
    seq(n, _ => 0)
  }

  function Max(a: int, b: int): (r: int)
    ensures r >= a && r >= b && (r == a || r == b)
  {
    if a < b then b else a
  }

  function Min(a: int, b: int): (r: int)
    ensures r <= a && r <= b && (r == a || r == b)
  {
    if a < b then a else b
  }

  /** The constructor `Frame(seq, tot, data)`: short data is zero-padded to PAYLOAD_BYTES,
      longer data is kept whole. */
  function NewFrame(seqNo: int, tot: int, data: seq<Byte>): (f: Frame)
    ensures f.seqNo == seqNo && f.end == tot
    ensures |f.data| == Max(|data|, PAYLOAD_BYTES)
    ensures f.data[..|data|] == data
    ensures forall i | |data| <= i < |f.data| :: f.data[i] == 0
  {
    if |data| < PAYLOAD_BYTES then Frame(seqNo, tot, data + Zeros(PAYLOAD_BYTES - |data|))
    else Frame(seqNo, tot, data)
  }

  /** A Python list object that several owners may hold. */
  class ByteList {
    var items: seq<Byte>

    constructor (items: seq<Byte>)
      ensures this.items == items
    {
      this.items := items;
    }
  }

  /** The constructor as it acts on the caller's list: the padding is appended
      to that very list, so the caller sees its argument grow, and the frame's
      data is the padded list. */
  method NewFrameInPlace(seqNo: int, tot: int, data: ByteList) returns (f: Frame)
    modifies data
    ensures f == NewFrame(seqNo, tot, old(data.items))
    ensures data.items == f.data
  {
    if |data.items| < PAYLOAD_BYTES {
      data.items := data.items + Zeros(PAYLOAD_BYTES - |data.items|);
    }
    f := Frame(seqNo, tot, data.items);
  }

  /** The frame and preamble constants. */
  lemma FrameConstants()
    ensures FRAME_BYTES == HEADER_BYTES + PAYLOAD_BYTES && BITS_PER_FRAME == FRAME_BYTES * 8
    ensures |PREAMBLE| == 32
    ensures forall i | 0 <= i < 24 :: PREAMBLE[i] == 1 - i % 2
    ensures forall i | 24 <= i < 32 :: PREAMBLE[i] == 1
  {
  }
}
