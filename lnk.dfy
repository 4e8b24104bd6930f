/** Link layer (lnk.py): bit/byte codecs, the frame byte layout and the
    streaming deframer. */
module Lnk {
  import opened Frames

  function Pow2(n: nat): (p: nat)
    ensures p >= 1
  {
    if n == 0 then 1 else 2 * Pow2(n - 1)
  }

  /** `b >> shift`: b halved shift times, rounding down. */
  function Shr(b: nat, shift: nat): (r: nat)
  {
    if shift == 0 then b else Shr(b / 2, shift - 1)
  }

  /** Shifting once more halves the shifted value. */
  lemma {:induction false} ShrStep(b: nat, shift: nat)
    ensures Shr(b, shift + 1) == Shr(b, shift) / 2
  {
    if shift > 0 {
      ShrStep(b / 2, shift - 1);
    }
  }

  /** `(b & (1 << shift)) >> shift`: the bit of b at position shift. */
  function BitAt(b: Byte, shift: nat): (bit: Bit)
  {
    Shr(b, shift) % 2
  }

  /** The eight bits of one byte, shifts 7 down to 0: most significant first. */
  function ByteBits(b: Byte): (bits: seq<Bit>)
    ensures |bits| == 8
  {
    seq(8, k requires 0 <= k < 8 => BitAt(b, 7 - k))
  }

  /** The first n terms of `byte |= bit << (7 - b)` over eight bits. Each bit is
      0 or 1 and lands on its own position, so the or-assignment adds. */
  function PartialValue(bits: seq<Bit>, n: nat): (v: int)
    requires n <= |bits| && n <= 8
    ensures 0 <= v <= 256 - Pow2(8 - n)
  {
    if n == 0 then 0 else PartialValue(bits, n - 1) + bits[n - 1] * Pow2(7 - (n - 1))
  }

  /** The byte that eight bits spell, most significant first. */
  function ByteValue(bits: seq<Bit>): (b: Byte)
    requires |bits| == 8
  {
    PartialValue(bits, 8)
  }

  /** Specification of bytes_to_bits: the bits of every byte, in order. */
  function BitsOf(bytes: seq<Byte>): (bits: seq<Bit>)
    ensures |bits| == 8 * |bytes|
  {
    if bytes == [] then [] else ByteBits(bytes[0]) + BitsOf(bytes[1..])
  }

  /** Specification of bits_to_bytes: one byte per whole group of eight bits;
      a trailing group of fewer than eight bits is dropped. */
  function BytesOf(bits: seq<Bit>): (bytes: seq<Byte>)
    ensures |bytes| == |bits| / 8
  {
    if |bits| < 8 then [] else [ByteValue(bits[..8])] + BytesOf(bits[8..])
  }

  method BytesToBits(byteArray: seq<Byte>) returns (bitArray: seq<Bit>)
    ensures bitArray == BitsOf(byteArray)
  {
    bitArray := [];
    var i := 0;
    while i < |byteArray|
      invariant 0 <= i <= |byteArray|
      invariant BitsOf(byteArray) == bitArray + BitsOf(byteArray[i..])
    {
      assert byteArray[i..][1..] == byteArray[i + 1..];
      bitArray := bitArray + ByteBits(byteArray[i]);
      i := i + 1;
    }
  }

  method BitsToBytes(bitArray: seq<Bit>) returns (byteArray: seq<Byte>)
    ensures byteArray == BytesOf(bitArray)
  {
    byteArray := [];
    var i := 0;
    while i < |bitArray|
      invariant 0 <= i <= |bitArray|
      invariant BytesOf(bitArray) == byteArray + BytesOf(bitArray[i..])
    {
      if i + 8 > |bitArray| {
        break;
      }
      var byte := 0;
      for b := 0 to 8
        invariant byte == PartialValue(bitArray[i..i + 8], b)
      {
        byte := byte + bitArray[i + b] * Pow2(7 - b);
      }
      assert bitArray[i..][..8] == bitArray[i..i + 8];
      assert bitArray[i..][8..] == bitArray[i + 8..];
      byteArray := byteArray + [byte];
      i := i + 8;
    }
  }

  /** bytes_to_frame: byte 0 is seq, byte 1 is end, the rest is the payload. */
  function BytesToFrame(byteArray: seq<Byte>): (f: Frame)
    requires |byteArray| >= 2
    ensures f.seqNo == byteArray[0] && f.end == byteArray[1]
    ensures |f.data| == Max(|byteArray| - HEADER_BYTES, PAYLOAD_BYTES)
    ensures f.data[..|byteArray| - HEADER_BYTES] == byteArray[HEADER_BYTES..]
    ensures forall i | |byteArray| - HEADER_BYTES <= i < |f.data| :: f.data[i] == 0
  {
    NewFrame(byteArray[0], byteArray[1], byteArray[2..])
  }

  /** frame_to_bytes: `[seq & 0xff, end & 0xff] ++ data`. */
  function FrameToBytes(f: Frame): (byteArray: seq<Byte>)
    ensures |byteArray| == HEADER_BYTES + |f.data|
  {
    [f.seqNo % 256, f.end % 256] + f.data
  }

  /** Specification of LnkLayer.tx: the bits of every frame, in order. */
  function EncodeFrames(frames: seq<Frame>): (bits: seq<Bit>)
  {
    if frames == [] then [] else BitsOf(FrameToBytes(frames[0])) + EncodeFrames(frames[1..])
  }

  /** Specification of LnkLayer.rx on the whole buffer: the frames cut off
      positionally, one per leading block of BITS_PER_FRAME bits, and the
      leftover bits. */
  function Deframe(bits: seq<Bit>): (r: (seq<Frame>, seq<Bit>))
    decreases |bits|
  {
    if |bits| < BITS_PER_FRAME then ([], bits)
    else
      var (frames, rest) := Deframe(bits[BITS_PER_FRAME..]);
      ([BytesToFrame(BytesOf(bits[..BITS_PER_FRAME]))] + frames, rest)
  }

  /** A frame as it can travel through the codec unchanged. */
  predicate WireFrame(f: Frame)
  {
    0 <= f.seqNo < 256 && 0 <= f.end < 256 && |f.data| == PAYLOAD_BYTES
  }

  /** One halving step: v is twice c plus the digit s. */
  lemma Halve(v: int, c: int, s: int)
    requires 0 <= s < 2 && v == 2 * c + s
    ensures v / 2 == c && v % 2 == s
  {
  }

  /** Splitting off the lowest binary digit: v is twice its half plus its
      parity. */
  lemma Split(v: int)
    requires v >= 0
    ensures v == 2 * (v / 2) + v % 2 && 0 <= v % 2 < 2 && 0 <= v / 2
  {
  }

  /** A byte is the weighted sum of its eight binary digits, each taken from
      the byte halved once more. */
  lemma EightDigits(b: int, c1: int, c2: int, c3: int, c4: int, c5: int, c6: int, c7: int)
    requires 0 <= b < 256
    requires c1 == b / 2 && c2 == c1 / 2 && c3 == c2 / 2 && c4 == c3 / 2
    requires c5 == c4 / 2 && c6 == c5 / 2 && c7 == c6 / 2
    ensures b == 128 * (c7 % 2) + 64 * (c6 % 2) + 32 * (c5 % 2) + 16 * (c4 % 2)
               + 8 * (c3 % 2) + 4 * (c2 % 2) + 2 * (c1 % 2) + b % 2
  {
    Split(b);
    Split(c1);
    Split(c2);
    Split(c3);
    Split(c4);
    Split(c5);
    Split(c6);
    Split(c7);
    var d0, d1, d2, d3, d4, d5, d6, d7 := b % 2, c1 % 2, c2 % 2, c3 % 2, c4 % 2, c5 % 2, c6 % 2, c7 % 2;
    LinearDigits(b, c1, c2, c3, c4, c5, c6, c7, c7 / 2, d0, d1, d2, d3, d4, d5, d6, d7);
  }

  /** Eight halving equations unroll into the weighted sum of the digits. */
  lemma LinearDigits(b: int, c1: int, c2: int, c3: int, c4: int, c5: int, c6: int, c7: int, c8: int,
                     d0: int, d1: int, d2: int, d3: int, d4: int, d5: int, d6: int, d7: int)
    requires b == 2 * c1 + d0 && c1 == 2 * c2 + d1 && c2 == 2 * c3 + d2 && c3 == 2 * c4 + d3
    requires c4 == 2 * c5 + d4 && c5 == 2 * c6 + d5 && c6 == 2 * c7 + d6 && c7 == 2 * c8 + d7
    requires 0 <= d0 < 2 && 0 <= d1 < 2 && 0 <= d2 < 2 && 0 <= d3 < 2
    requires 0 <= d4 < 2 && 0 <= d5 < 2 && 0 <= d6 < 2 && 0 <= d7 < 2
    requires 0 <= c8 && b < 256
    ensures c8 == 0 && b == 128 * d7 + 64 * d6 + 32 * d5 + 16 * d4 + 8 * d3 + 4 * d2 + 2 * d1 + d0
  {
  }

  /** The binary digits of a weighted sum of eight 0/1 digits are those digits:
      each halving strips the lowest one. */
  lemma DigitsOfSum(v: int, s0: int, s1: int, s2: int, s3: int, s4: int, s5: int, s6: int, s7: int)
    requires 0 <= s0 < 2 && 0 <= s1 < 2 && 0 <= s2 < 2 && 0 <= s3 < 2
    requires 0 <= s4 < 2 && 0 <= s5 < 2 && 0 <= s6 < 2 && 0 <= s7 < 2
    requires v == 128 * s0 + 64 * s1 + 32 * s2 + 16 * s3 + 8 * s4 + 4 * s5 + 2 * s6 + s7
    ensures var c1 := v / 2; var c2 := c1 / 2; var c3 := c2 / 2; var c4 := c3 / 2;
      var c5 := c4 / 2; var c6 := c5 / 2; var c7 := c6 / 2;
      c7 % 2 == s0 && c6 % 2 == s1 && c5 % 2 == s2 && c4 % 2 == s3 &&
      c3 % 2 == s4 && c2 % 2 == s5 && c1 % 2 == s6 && v % 2 == s7
  {
    var c1 := 64 * s0 + 32 * s1 + 16 * s2 + 8 * s3 + 4 * s4 + 2 * s5 + s6;
    var c2 := 32 * s0 + 16 * s1 + 8 * s2 + 4 * s3 + 2 * s4 + s5;
    var c3 := 16 * s0 + 8 * s1 + 4 * s2 + 2 * s3 + s4;
    var c4 := 8 * s0 + 4 * s1 + 2 * s2 + s3;
    var c5 := 4 * s0 + 2 * s1 + s2;
    var c6 := 2 * s0 + s1;
    Halve(v, c1, s7);
    Halve(c1, c2, s6);
    Halve(c2, c3, s5);
    Halve(c3, c4, s4);
    Halve(c4, c5, s3);
    Halve(c5, c6, s2);
    Halve(c6, s0, s1);
    Halve(s0, 0, s0);
  }

  /** PartialValue one step further. */
  lemma PartialValueStep(s: seq<Bit>, n: nat, w: int)
    requires n < |s| && n < 8 && w == Pow2(7 - n)
    ensures PartialValue(s, n + 1) == PartialValue(s, n) + w * (s[n] as int)
  {
  }

  /** ByteValue as the weighted sum of the eight bits. */
  lemma ByteValueSum(s: seq<Bit>)
    requires |s| == 8
    ensures ByteValue(s) == 128 * (s[0] as int) + 64 * (s[1] as int) + 32 * (s[2] as int) + 16 * (s[3] as int)
                          + 8 * (s[4] as int) + 4 * (s[5] as int) + 2 * (s[6] as int) + (s[7] as int)
  {
    assert Pow2(7) == 128 && Pow2(6) == 64 && Pow2(5) == 32 && Pow2(4) == 16;
    assert Pow2(3) == 8 && Pow2(2) == 4 && Pow2(1) == 2 && Pow2(0) == 1;
    PartialValueStep(s, 0, 128);
    PartialValueStep(s, 1, 64);
    PartialValueStep(s, 2, 32);
    PartialValueStep(s, 3, 16);
    PartialValueStep(s, 4, 8);
    PartialValueStep(s, 5, 4);
    PartialValueStep(s, 6, 2);
    PartialValueStep(s, 7, 1);
  }

  /** ByteBits element by element, with the shifts written out as halvings. */
  lemma ByteBitsDigits(b: Byte)
    ensures var s := ByteBits(b);
      var c1 := b / 2; var c2 := c1 / 2; var c3 := c2 / 2; var c4 := c3 / 2;
      var c5 := c4 / 2; var c6 := c5 / 2; var c7 := c6 / 2;
      s[0] == c7 % 2 && s[1] == c6 % 2 && s[2] == c5 % 2 && s[3] == c4 % 2 &&
      s[4] == c3 % 2 && s[5] == c2 % 2 && s[6] == c1 % 2 && s[7] == b % 2
  {
    ShrStep(b, 0);
    ShrStep(b, 1);
    ShrStep(b, 2);
    ShrStep(b, 3);
    ShrStep(b, 4);
    ShrStep(b, 5);
    ShrStep(b, 6);
  }

  /** The eight bits of a byte spell that byte again. */
  lemma ByteBitsValue(b: Byte)
    ensures ByteValue(ByteBits(b)) == b
  {
    ByteBitsDigits(b);
    ByteValueSum(ByteBits(b));
    var c1 := b / 2; var c2 := c1 / 2; var c3 := c2 / 2; var c4 := c3 / 2;
    var c5 := c4 / 2; var c6 := c5 / 2; var c7 := c6 / 2;
    EightDigits(b, c1, c2, c3, c4, c5, c6, c7);
  }

  /** Eight bits are the bits of the byte they spell. */
  lemma ValueByteBits(s: seq<Bit>)
    requires |s| == 8
    ensures ByteBits(ByteValue(s)) == s
  {
    var b := ByteValue(s);
    ByteValueSum(s);
    ByteBitsDigits(b);
    DigitsOfSum(b, s[0], s[1], s[2], s[3], s[4], s[5], s[6], s[7]);
    SameEight(ByteBits(b), s);
  }

  /** Two eight-element sequences that agree at every index are equal. */
  lemma SameEight(a: seq<Bit>, s: seq<Bit>)
    requires |a| == 8 && |s| == 8
    requires a[0] == s[0] && a[1] == s[1] && a[2] == s[2] && a[3] == s[3]
    requires a[4] == s[4] && a[5] == s[5] && a[6] == s[6] && a[7] == s[7]
    ensures a == s
  {
    assert forall k | 0 <= k < 8 :: a[k] == s[k];
  }

  /** bytes_to_bits emits 8 bits per byte, most significant bit first. */
  lemma {:induction false} BitsOfMsbFirst(bytes: seq<Byte>, i: nat, k: nat)
    requires i < |bytes| && k < 8
    ensures |BitsOf(bytes)| == 8 * |bytes|
    ensures BitsOf(bytes)[8 * i + k] == BitAt(bytes[i], 7 - k)
  {
    if i > 0 {
      BitsOfMsbFirst(bytes[1..], i - 1, k);
    }
  }

  /** bits_to_bytes ignores the trailing bits that do not fill a byte. */
  lemma {:induction false} BytesOfDropsTail(bits: seq<Bit>)
    ensures BytesOf(bits) == BytesOf(bits[..|bits| - |bits| % 8])
    decreases |bits|
  {
    if |bits| >= 8 {
      var whole := bits[..|bits| - |bits| % 8];
      assert whole[..8] == bits[..8];
      assert whole[8..] == bits[8..][..|bits[8..]| - |bits[8..]| % 8];
      BytesOfDropsTail(bits[8..]);
    }
  }

  /** Decoding the bits of a byte sequence gives the bytes back. */
  lemma {:induction false} BytesOfBitsOf(bytes: seq<Byte>)
    ensures BytesOf(BitsOf(bytes)) == bytes
  {
    if bytes != [] {
      var bits := BitsOf(bytes);
      assert bits[..8] == ByteBits(bytes[0]);
      assert bits[8..] == BitsOf(bytes[1..]);
      ByteBitsValue(bytes[0]);
      BytesOfBitsOf(bytes[1..]);
    }
  }

  /** Encoding the bytes of a byte-aligned bit sequence gives the bits back. */
  lemma {:induction false} BitsOfBytesOf(bits: seq<Bit>)
    requires |bits| % 8 == 0
    ensures BitsOf(BytesOf(bits)) == bits
    decreases |bits|
  {
    if |bits| != 0 {
      ValueByteBits(bits[..8]);
      BitsOfBytesOf(bits[8..]);
      assert BytesOf(bits)[0] == ByteValue(bits[..8]);
      assert BytesOf(bits)[1..] == BytesOf(bits[8..]);
      assert bits == bits[..8] + bits[8..];
    }
  }

  /** Eight bits with a known weighted sum: their byte, and back. */
  lemma OneByte(s: seq<Bit>, b: Byte)
    requires |s| == 8
    requires b == 128 * (s[0] as int) + 64 * (s[1] as int) + 32 * (s[2] as int) + 16 * (s[3] as int)
                + 8 * (s[4] as int) + 4 * (s[5] as int) + 2 * (s[6] as int) + (s[7] as int)
    ensures ByteValue(s) == b && ByteBits(b) == s
  {
    ByteValueSum(s);
    ValueByteBits(s);
  }

  /** bits_to_bytes takes the first eight bits as one byte, then goes on. */
  lemma BytesOfCons(a: seq<Bit>, t: seq<Bit>)
    requires |a| == 8
    ensures BytesOf(a + t) == [ByteValue(a)] + BytesOf(t)
  {
    assert (a + t)[..8] == a && (a + t)[8..] == t;
  }

  /** Exactly eight bits decode to the one byte they spell. */
  lemma BytesOfEight(s: seq<Bit>, b: Byte)
    requires |s| == 8
    requires b == 128 * (s[0] as int) + 64 * (s[1] as int) + 32 * (s[2] as int) + 16 * (s[3] as int)
                + 8 * (s[4] as int) + 4 * (s[5] as int) + 2 * (s[6] as int) + (s[7] as int)
    ensures BytesOf(s) == [b]
  {
    OneByte(s, b);
    BytesOfCons(s, []);
    assert s + [] == s;
  }

  /** The bits_to_bytes cases of tests/lnk_test.py. */
  lemma BitsToBytesExamples()
    ensures BytesOf([]) == []
    ensures BytesOf([1, 1, 1, 1, 1, 1, 1]) == []
    ensures BytesOf([1, 1, 1, 1, 1, 1, 1, 1]) == [0xff]
    ensures BytesOf([1, 1, 1, 1, 1, 1, 1, 1, 1]) == [0xff]
    ensures BytesOf([0, 0, 0, 0, 0, 0, 0, 0]) == [0x00]
    ensures BytesOf([0, 0, 0, 0, 0, 0, 0, 1]) == [0x01]
    ensures BytesOf([1, 0, 0, 0, 0, 0, 0, 0]) == [0x80]
    ensures BytesOf([1, 0, 0, 0, 0, 0, 0, 0, 1, 1, 1, 1, 1, 1, 1, 1]) == [0x80, 0xff]
  {
    var ones: seq<Bit> := [1, 1, 1, 1, 1, 1, 1, 1];
    var high: seq<Bit> := [1, 0, 0, 0, 0, 0, 0, 0];
    BytesOfEight(ones, 0xff);
    BytesOfEight([0, 0, 0, 0, 0, 0, 0, 0], 0x00);
    BytesOfEight([0, 0, 0, 0, 0, 0, 0, 1], 0x01);
    BytesOfEight(high, 0x80);
    OneByte(ones, 0xff);
    OneByte(high, 0x80);
    BytesOfCons(ones, [1]);
    BytesOfCons(high, ones);
    assert ones + [1] == [1, 1, 1, 1, 1, 1, 1, 1, 1];
    assert high + ones == [1, 0, 0, 0, 0, 0, 0, 0, 1, 1, 1, 1, 1, 1, 1, 1];
    assert BytesOf([1]) == [];
  }

  /** The bytes_to_bits cases of tests/lnk_test.py. */
  lemma BytesToBitsExamples()
    ensures BitsOf([]) == []
    ensures BitsOf([0xff]) == [1, 1, 1, 1, 1, 1, 1, 1]
    ensures BitsOf([0x00]) == [0, 0, 0, 0, 0, 0, 0, 0]
    ensures BitsOf([0x01]) == [0, 0, 0, 0, 0, 0, 0, 1]
    ensures BitsOf([0x80]) == [1, 0, 0, 0, 0, 0, 0, 0]
    ensures BitsOf([0x80, 0xff]) == [1, 0, 0, 0, 0, 0, 0, 0, 1, 1, 1, 1, 1, 1, 1, 1]
  {
    var ones: seq<Bit> := [1, 1, 1, 1, 1, 1, 1, 1];
    var zeros: seq<Bit> := [0, 0, 0, 0, 0, 0, 0, 0];
    var low: seq<Bit> := [0, 0, 0, 0, 0, 0, 0, 1];
    var high: seq<Bit> := [1, 0, 0, 0, 0, 0, 0, 0];
    OneByte(ones, 0xff);
    OneByte(zeros, 0x00);
    OneByte(low, 0x01);
    OneByte(high, 0x80);
    assert [0x80, 0xff][1..] == [0xff];
    assert BitsOf([0xff]) == ones + [];
    assert BitsOf([0x00]) == zeros + [];
    assert BitsOf([0x01]) == low + [];
    assert BitsOf([0x80]) == high + [];
    assert BitsOf([0x80, 0xff]) == high + (ones + []);
    assert high + (ones + []) == [1, 0, 0, 0, 0, 0, 0, 0, 1, 1, 1, 1, 1, 1, 1, 1];
  }

  /** A frame survives frame_to_bytes then bytes_to_frame exactly when seq and
      end are bytes already and the payload needs no padding. */
  lemma FrameCodecRoundTrip(f: Frame)
    ensures BytesToFrame(FrameToBytes(f)) == f
        <==> 0 <= f.seqNo < 256 && 0 <= f.end < 256 && |f.data| >= PAYLOAD_BYTES
  {
    var g := BytesToFrame(FrameToBytes(f));
    assert FrameToBytes(f)[2..] == f.data;
    if g == f {
      assert f.seqNo == f.seqNo % 256;
    }
  }

  /** A frame's 38 bytes survive bytes_to_frame then frame_to_bytes. */
  lemma FrameBytesRoundTrip(byteArray: seq<Byte>)
    requires |byteArray| == FRAME_BYTES
    ensures FrameToBytes(BytesToFrame(byteArray)) == byteArray
  {
    assert byteArray == [byteArray[0], byteArray[1]] + byteArray[2..];
  }

  /** rx keeps fewer than BITS_PER_FRAME bits: exactly those after the last
      whole frame. */
  lemma {:induction false} DeframeLeftover(bits: seq<Bit>)
    ensures |Deframe(bits).1| < BITS_PER_FRAME
    ensures |bits| == BITS_PER_FRAME * |Deframe(bits).0| + |Deframe(bits).1|
    ensures Deframe(bits).1 == bits[BITS_PER_FRAME * |Deframe(bits).0|..]
    decreases |bits|
  {
    if |bits| >= BITS_PER_FRAME {
      var tail := bits[BITS_PER_FRAME..];
      DeframeLeftover(tail);
      var n := |Deframe(tail).0|;
      assert |Deframe(bits).0| == n + 1;
      assert bits[BITS_PER_FRAME * (n + 1)..] == tail[BITS_PER_FRAME * n..];
    }
  }

  /** A slice of a suffix is a slice of the whole, shifted. */
  lemma SliceOfTail(s: seq<Bit>, d: nat, lo: nat, hi: nat)
    requires d + hi <= |s| && lo <= hi
    ensures s[d..][lo..hi] == s[d + lo..d + hi]
  {
  }

  /** Frame i of rx is decoded from the i-th block of BITS_PER_FRAME bits. */
  lemma {:induction false} DeframeBlocks(bits: seq<Bit>)
    ensures forall i | 0 <= i < |Deframe(bits).0| ::
      && BITS_PER_FRAME * i + BITS_PER_FRAME <= |bits|
      && Deframe(bits).0[i] == BytesToFrame(BytesOf(bits[BITS_PER_FRAME * i..BITS_PER_FRAME * i + BITS_PER_FRAME]))
    decreases |bits|
  {
    if |bits| >= BITS_PER_FRAME {
      var tail := bits[BITS_PER_FRAME..];
      DeframeBlocks(tail);
      var frames := Deframe(bits).0;
      assert frames[1..] == Deframe(tail).0;
      forall i | 0 <= i < |frames|
        ensures BITS_PER_FRAME * i + BITS_PER_FRAME <= |bits|
        ensures frames[i] == BytesToFrame(BytesOf(bits[BITS_PER_FRAME * i..BITS_PER_FRAME * i + BITS_PER_FRAME]))
      {
        if i > 0 {
          var j := i - 1;
          assert frames[i] == Deframe(tail).0[j];
          assert BITS_PER_FRAME * j + BITS_PER_FRAME <= |tail|;
          assert BITS_PER_FRAME * i == BITS_PER_FRAME * j + BITS_PER_FRAME;
          SliceOfTail(bits, BITS_PER_FRAME, BITS_PER_FRAME * j, BITS_PER_FRAME * j + BITS_PER_FRAME);
        }
      }
    }
  }

  /** Frames that fit the wire encode to BITS_PER_FRAME bits each. */
  lemma {:induction false} EncodeFramesLength(frames: seq<Frame>)
    requires forall i | 0 <= i < |frames| :: |frames[i].data| == PAYLOAD_BYTES
    ensures |EncodeFrames(frames)| == BITS_PER_FRAME * |frames|
  {
    if frames != [] {
      EncodeFramesLength(frames[1..]);
    }
  }

  /** Feeding the link layer's transmitted bits to an empty receiver gives the
      same frames back and leaves nothing buffered. */
  lemma {:induction false} LnkRoundTrip(frames: seq<Frame>)
    requires forall i | 0 <= i < |frames| :: WireFrame(frames[i])
    ensures Deframe(EncodeFrames(frames)) == (frames, [])
  {
    if frames != [] {
      var head := BitsOf(FrameToBytes(frames[0]));
      var bits := EncodeFrames(frames);
      assert bits == head + EncodeFrames(frames[1..]);
      assert bits[..BITS_PER_FRAME] == head;
      assert bits[BITS_PER_FRAME..] == EncodeFrames(frames[1..]);
      BytesOfBitsOf(FrameToBytes(frames[0]));
      FrameCodecRoundTrip(frames[0]);
      LnkRoundTrip(frames[1..]);
      assert [frames[0]] + frames[1..] == frames;
    }
  }

  class LnkLayer {
    var bitBuffer: seq<Bit>
    const bitsPerFrame: nat := BITS_PER_FRAME

    constructor ()
      ensures bitBuffer == []
    {
      bitBuffer := [];
    }

    /** Appends the bits to the buffer and cuts off every whole frame. */
    method Rx(bitArray: seq<Bit>) returns (frames: seq<Frame>)
      modifies this
      ensures (frames, bitBuffer) == Deframe(old(bitBuffer) + bitArray)
      ensures |bitBuffer| < bitsPerFrame
    {
      bitBuffer := bitBuffer + bitArray;
      ghost var all := bitBuffer;
      frames := [];
      assert frames + Deframe(bitBuffer).0 == Deframe(bitBuffer).0;
      while true
        invariant Deframe(all).0 == frames + Deframe(bitBuffer).0
        invariant Deframe(all).1 == Deframe(bitBuffer).1
        decreases |bitBuffer|
      {
        if |bitBuffer| < bitsPerFrame {
          assert frames + Deframe(bitBuffer).0 == frames;
          return;
        }
        ghost var before := bitBuffer;
        var byteArray := BitsToBytes(bitBuffer[0..bitsPerFrame]);
        bitBuffer := bitBuffer[bitsPerFrame..];
        var frame := BytesToFrame(byteArray);
        assert Deframe(before).0 == [frame] + Deframe(bitBuffer).0;
        frames := frames + [frame];
      }
    }

    /** Encodes the frames, in order; the buffer is not touched. */
    method Tx(frames: seq<Frame>) returns (bitArray: seq<Bit>)
      ensures bitArray == EncodeFrames(frames)
    {
      bitArray := [];
      var i := 0;
      while i < |frames|
        invariant 0 <= i <= |frames|
        invariant EncodeFrames(frames) == bitArray + EncodeFrames(frames[i..])
      {
        assert frames[i..][1..] == frames[i + 1..];
        var byteArray := FrameToBytes(frames[i]);
        var bits := BytesToBits(byteArray);
        bitArray := bitArray + bits;
        i := i + 1;
      }
    }
  }
}
