/** Network layer (net.py): packet fragmentation into frames and reassembly
    of frames into packets. */
module Net {
  import opened Wrappers
  import opened Frames
  import opened Packets

  function Pow256(n: nat): (p: nat)
    ensures p >= 1
  {
    if n == 0 then 1 else 256 * Pow256(n - 1)
  }

  /** `x.to_bytes(n, byteorder='big')` for an x that fits in n bytes. */
  function ToBytesBE(x: nat, n: nat): (b: seq<Byte>)
    requires x < Pow256(n)
    ensures |b| == n
  {
    if n == 0 then [] else ToBytesBE(x / 256, n - 1) + [x % 256]
  }

  /** `int.from_bytes(b, 'big')`. */
  function FromBytesBE(b: seq<Byte>): (x: nat)
    ensures x < Pow256(|b|)
  {
    if b == [] then 0 else FromBytesBE(b[..|b| - 1]) * 256 + b[|b| - 1]
  }

  /** `s[a:b]` for non-negative bounds: both are clamped to the length. */
  function Slice<T>(s: seq<T>, a: nat, b: nat): (r: seq<T>)
    ensures |r| <= |s|
  {
    var lo := Min(a, |s|);
    s[lo..Max(lo, Min(b, |s|))]
  }

  /** `s[k:]` for any int k; a negative k counts from the end. */
  function SliceFrom<T>(s: seq<T>, k: int): (r: seq<T>)
  {
    if k >= 0 then s[Min(k, |s|)..] else s[Max(0, |s| + k)..]
  }

  /** The exceptions packet_to_frames can raise: `+=` of an integer id
      (TypeError) and `to_bytes` of a negative or too wide field
      (OverflowError). */
  datatype NetError = IdNotBytes | SizeOverflow | ReceiverOverflow | SenderOverflow

  /** The byte string packet_to_frames builds: id, then size, receiver and
      sender big-endian, then the data. */
  function Serialise(p: Packet): (r: Result<seq<Byte>, NetError>)
  {
    if p.id.IdInt? then Err(IdNotBytes)
    else if !(0 <= p.size < Pow256(HEADER_SIZE_BYTES)) then Err(SizeOverflow)
    else if !(0 <= p.receiver < Pow256(HEADER_RECEIVER_BYTES)) then Err(ReceiverOverflow)
    else if !(0 <= p.sender < Pow256(HEADER_SENDER_BYTES)) then Err(SenderOverflow)
    else Ok(p.id.bytes + ToBytesBE(p.size, HEADER_SIZE_BYTES)
            + ToBytesBE(p.receiver, HEADER_RECEIVER_BYTES)
            + ToBytesBE(p.sender, HEADER_SENDER_BYTES) + p.data)
  }

  /** `math.ceil(n / PAYLOAD_BYTES)`. */
  function FrameCount(n: nat): (count: nat)
  {
    (n + PAYLOAD_BYTES - 1) / PAYLOAD_BYTES
  }

  /** The i-th PAYLOAD_BYTES-long slice of the byte string. */
  function Chunk(bytes: seq<Byte>, i: nat): (chunk: seq<Byte>)
  {
    Slice(bytes, i * PAYLOAD_BYTES, i * PAYLOAD_BYTES + PAYLOAD_BYTES)
  }

  /** Specification of the frame loop of packet_to_frames. */
  function Fragment(bytes: seq<Byte>): (frames: seq<Frame>)
  {
    var count := FrameCount(|bytes|);
    seq(count, i requires 0 <= i < count => NewFrame(i, count, Chunk(bytes, i)))
  }

  /** Specification of packet_to_frames. */
  function FragmentPacket(p: Packet): (r: Result<seq<Frame>, NetError>)
  {
    match Serialise(p)
    case Ok(bytes) => Ok(Fragment(bytes))
    case Err(e) => Err(e)
  }

  /** The payloads of the frames, concatenated in order. */
  function ConcatData(frames: seq<Frame>): (bytes: seq<Byte>)
  {
    if frames == [] then [] else frames[0].data + ConcatData(frames[1..])
  }

  /** The packet that frames_to_packet parses from the concatenated payloads. */
  function DecodePacket(bytes: seq<Byte>): (p: Packet)
    ensures p.id.IdInt? && p.id.value >= 0 && p.receiver >= 0 && p.sender >= 0
    ensures p.size == |p.data| <= |bytes|
    ensures |p.data| <= FromBytesBE(Slice(bytes, 16, 18))
    ensures |bytes| >= 30 ==> |p.data| <= |bytes| - 30 && p.data == bytes[30..30 + |p.data|]
    ensures |bytes| < 30 ==> p.data == []
  {
    var size := FromBytesBE(Slice(bytes, 16, 18));
    NewPacket(IdInt(FromBytesBE(Slice(bytes, 0, 16))), Slice(bytes, 30, 30 + size),
              FromBytesBE(Slice(bytes, 18, 24)), FromBytesBE(Slice(bytes, 24, 30)))
  }

  /** Specification of frames_to_packet: the packets it returns and the new
      buffer. */
  function Reassemble(buffer: seq<Frame>): (r: (seq<Packet>, seq<Frame>))
  {
    if |buffer| == 0 then ([], buffer)
    else
      var n := buffer[0].end;
      if n > |buffer| then ([], buffer)
      else ([DecodePacket(ConcatData(buffer[..Max(n, 0)]))], SliceFrom(buffer, n))
  }

  /** The number of leading frames that sync drops: the maximal prefix of
      frames whose seq is not 0. */
  function SyncPoint(buffer: seq<Frame>): (k: nat)
    ensures k <= |buffer|
  {
    if |buffer| == 0 || buffer[0].seqNo == 0 then 0
    else SyncPoint(buffer[1..]) + 1
  }

  /** Specification of rx: sync, then at most one reassembled packet. */
  function Receive(buffer: seq<Frame>): (r: (seq<Packet>, seq<Frame>))
  {
    Reassemble(buffer[SyncPoint(buffer)..])
  }

  /** from_bytes undoes to_bytes. */
  lemma {:induction false} FromToBytesBE(x: nat, n: nat)
    requires x < Pow256(n)
    ensures FromBytesBE(ToBytesBE(x, n)) == x
  {
    if n > 0 {
      var b := ToBytesBE(x, n);
      assert b[..|b| - 1] == ToBytesBE(x / 256, n - 1);
      FromToBytesBE(x / 256, n - 1);
    }
  }

  /** A packet can be serialised exactly when its id is a byte string and
      its size, receiver and sender fit their header fields. */
  lemma SerialiseSucceeds(p: Packet)
    ensures Serialise(p).Ok? <==>
      p.id.IdBytes? && 0 <= p.size < 0x1_0000 && 0 <= p.receiver < 0x1_0000_0000_0000
      && 0 <= p.sender < 0x1_0000_0000_0000
  {
    assert Pow256(2) == 0x1_0000 && Pow256(6) == 0x1_0000_0000_0000;
  }

  /** The serialised header read back at its fixed offsets gives the id
      bytes' value, the size, the receiver and the sender; the data follows. */
  lemma SerialiseLayout(p: Packet)
    requires Serialise(p).Ok? && |p.id.bytes| == HEADER_ID_BYTES
    ensures |Serialise(p).value| == Packets.HEADER_BYTES + |p.data|
    ensures Serialise(p).value[0..16] == p.id.bytes
    ensures FromBytesBE(Serialise(p).value[16..18]) == p.size
    ensures FromBytesBE(Serialise(p).value[18..24]) == p.receiver
    ensures FromBytesBE(Serialise(p).value[24..30]) == p.sender
    ensures Serialise(p).value[30..] == p.data
  {
    var b := Serialise(p).value;
    var s, r, t := ToBytesBE(p.size, 2), ToBytesBE(p.receiver, 6), ToBytesBE(p.sender, 6);
    assert b == p.id.bytes + s + r + t + p.data;
    assert b[16..18] == s && b[18..24] == r && b[24..30] == t;
    FromToBytesBE(p.size, 2);
    FromToBytesBE(p.receiver, 6);
    FromToBytesBE(p.sender, 6);
  }

  /** FrameCount is the ceiling of n / PAYLOAD_BYTES. */
  lemma FrameCountBounds(n: nat)
    ensures n == 0 <==> FrameCount(n) == 0
    ensures n > 0 ==> PAYLOAD_BYTES * (FrameCount(n) - 1) < n <= PAYLOAD_BYTES * FrameCount(n)
  {
  }

  /** Every chunk but the last is a whole PAYLOAD_BYTES-long slice; the last
      one runs to the end of the byte string. */
  lemma ChunkShape(bytes: seq<Byte>, i: nat)
    requires i < FrameCount(|bytes|)
    ensures var start := PAYLOAD_BYTES * i;
      && start < |bytes|
      && (i < FrameCount(|bytes|) - 1 ==> Chunk(bytes, i) == bytes[start..start + PAYLOAD_BYTES])
      && (i == FrameCount(|bytes|) - 1 ==> Chunk(bytes, i) == bytes[start..])
  {
    FrameCountBounds(|bytes|);
  }

  /** packet_to_frames yields ceil(n / PAYLOAD_BYTES) frames; frame i has
      seq i, end the frame count, and the i-th chunk as data, zero-padded only
      in the last frame. */
  lemma FragmentShape(bytes: seq<Byte>)
    ensures |Fragment(bytes)| == FrameCount(|bytes|)
    ensures |bytes| == 0 <==> FrameCount(|bytes|) == 0
    ensures |bytes| > 0 ==>
      PAYLOAD_BYTES * (FrameCount(|bytes|) - 1) < |bytes| <= PAYLOAD_BYTES * FrameCount(|bytes|)
    ensures forall i | 0 <= i < |Fragment(bytes)| ::
      && Fragment(bytes)[i].seqNo == i
      && Fragment(bytes)[i].end == FrameCount(|bytes|)
      && |Fragment(bytes)[i].data| == PAYLOAD_BYTES
    ensures forall i | 0 <= i < |Fragment(bytes)| - 1 ::
      Fragment(bytes)[i].data == bytes[PAYLOAD_BYTES * i..PAYLOAD_BYTES * i + PAYLOAD_BYTES]
    ensures |bytes| > 0 ==>
      var last := FrameCount(|bytes|) - 1;
      Fragment(bytes)[last].data
        == bytes[PAYLOAD_BYTES * last..] + Zeros(PAYLOAD_BYTES * FrameCount(|bytes|) - |bytes|)
  {
    FrameCountBounds(|bytes|);
    forall i | 0 <= i < FrameCount(|bytes|) {
      ChunkShape(bytes, i);
    }
  }

  /** ConcatData peels off the payload of the first frame of a suffix. */
  lemma ConcatDataStep(frames: seq<Frame>, j: nat)
    requires j < |frames|
    ensures ConcatData(frames[j..]) == frames[j].data + ConcatData(frames[j + 1..])
  {
    assert frames[j..][1..] == frames[j + 1..];
  }

  /** An inner frame carries the next PAYLOAD_BYTES bytes unpadded. */
  lemma InnerChunk(bytes: seq<Byte>, j: nat)
    requires j + 1 < FrameCount(|bytes|)
    ensures Fragment(bytes)[j].data + bytes[Min(PAYLOAD_BYTES * (j + 1), |bytes|)..]
      == bytes[Min(PAYLOAD_BYTES * j, |bytes|)..]
  {
    ChunkShape(bytes, j);
    ChunkShape(bytes, j + 1);
    var start := PAYLOAD_BYTES * j;
    assert Fragment(bytes)[j].data == bytes[start..start + PAYLOAD_BYTES];
    assert bytes[start..] == bytes[start..start + PAYLOAD_BYTES] + bytes[start + PAYLOAD_BYTES..];
  }

  /** The last frame carries the rest of the bytes and the padding. */
  lemma LastChunk(bytes: seq<Byte>)
    requires 0 < FrameCount(|bytes|)
    ensures var c := FrameCount(|bytes|);
      Fragment(bytes)[c - 1].data + bytes[Min(PAYLOAD_BYTES * c, |bytes|)..]
        == bytes[Min(PAYLOAD_BYTES * (c - 1), |bytes|)..] + Zeros(PAYLOAD_BYTES * c - |bytes|)
  {
    var c := FrameCount(|bytes|);
    FrameCountBounds(|bytes|);
    ChunkShape(bytes, c - 1);
    assert bytes[Min(PAYLOAD_BYTES * c, |bytes|)..] == [];
  }

  /** The payloads of the frames from frame j on, concatenated. */
  lemma {:induction false} FragmentConcatFrom(bytes: seq<Byte>, j: nat)
    requires j <= FrameCount(|bytes|)
    ensures ConcatData(Fragment(bytes)[j..])
      == bytes[Min(PAYLOAD_BYTES * j, |bytes|)..]
         + (if j < FrameCount(|bytes|) then Zeros(PAYLOAD_BYTES * FrameCount(|bytes|) - |bytes|) else [])
    decreases FrameCount(|bytes|) - j
  {
    var frames, c := Fragment(bytes), FrameCount(|bytes|);
    if j == c {
      FrameCountBounds(|bytes|);
      assert frames[j..] == [];
    } else {
      FragmentConcatFrom(bytes, j + 1);
      ConcatDataStep(frames, j);
      var pad := Zeros(PAYLOAD_BYTES * c - |bytes|);
      var here, next := bytes[Min(PAYLOAD_BYTES * j, |bytes|)..], bytes[Min(PAYLOAD_BYTES * (j + 1), |bytes|)..];
      if j + 1 < c {
        InnerChunk(bytes, j);
        assert ConcatData(frames[j + 1..]) == next + pad;
        assert frames[j].data + (next + pad) == here + pad;
      } else {
        LastChunk(bytes);
        assert ConcatData(frames[j + 1..]) == next;
      }
    }
  }

  /** The frames' payloads, concatenated, are the byte string followed by
      the padding of the last frame. */
  lemma FragmentConcat(bytes: seq<Byte>)
    ensures ConcatData(Fragment(bytes))
      == bytes + Zeros(PAYLOAD_BYTES * FrameCount(|bytes|) - |bytes|)
  {
    FragmentConcatFrom(bytes, 0);
    assert Fragment(bytes)[0..] == Fragment(bytes);
    FrameCountBounds(|bytes|);
  }

  /** The 30-byte header of a packet with a 16-byte id lies in frame 0. */
  lemma HeaderInFirstFrame(p: Packet)
    requires Serialise(p).Ok? && |p.id.bytes| == HEADER_ID_BYTES
    ensures |Fragment(Serialise(p).value)| >= 1
    ensures Fragment(Serialise(p).value)[0].data[..Packets.HEADER_BYTES] == Serialise(p).value[..Packets.HEADER_BYTES]
  {
    var b := Serialise(p).value;
    SerialiseLayout(p);
    FragmentShape(b);
    FragmentConcat(b);
    var frames := Fragment(b);
    assert ConcatData(frames) == frames[0].data + ConcatData(frames[1..]);
    assert ConcatData(frames)[..Packets.HEADER_BYTES] == frames[0].data[..Packets.HEADER_BYTES];
  }

  /** frames_to_packet returns at most one packet. It waits, leaving the
      buffer as it is, while the buffer is empty or holds fewer frames than
      the first one announces; otherwise it decodes the first `end` frames
      and keeps the rest in order. A first frame with end 0 consumes nothing
      and yields an empty packet whose fields are all 0. */
  lemma ReassembleCases(buffer: seq<Frame>)
    ensures |Reassemble(buffer).0| <= 1
    ensures Reassemble(buffer).0 == [] <==> (buffer == [] || buffer[0].end > |buffer|)
    ensures Reassemble(buffer).0 == [] ==> Reassemble(buffer).1 == buffer
    ensures buffer != [] && 0 <= buffer[0].end <= |buffer| ==>
      var n := buffer[0].end;
      Reassemble(buffer) == ([DecodePacket(ConcatData(buffer[..n]))], buffer[n..])
    ensures buffer != [] && buffer[0].end == 0 ==>
      Reassemble(buffer) == ([Packet(IdInt(0), [], 0, 0, 0)], buffer)
    ensures buffer != [] && buffer[0].end < 0 ==>
      Reassemble(buffer) == ([Packet(IdInt(0), [], 0, 0, 0)], buffer[Max(0, |buffer| + buffer[0].end)..])
  {
    if buffer != [] && buffer[0].end <= 0 {
      assert buffer[..0] == [];
      var none: seq<Byte> := [];
      assert Slice(none, 0, 16) == [] && Slice(none, 16, 18) == [] && Slice(none, 30, 30) == [];
    }
  }

  /** A buffer headed by a frame with seq 0 and end 0 is never drained: sync
      keeps that frame, reassembly consumes no frame for it, so every rx
      returns one empty packet and keeps the whole buffer, whatever arrives
      behind it. */
  lemma ReceiveStalls(buffer: seq<Frame>, more: seq<Frame>)
    requires buffer != [] && buffer[0].seqNo == 0 && buffer[0].end == 0
    ensures Receive(buffer + more) == ([Packet(IdInt(0), [], 0, 0, 0)], buffer + more)
  {
    var all := buffer + more;
    assert all[0] == buffer[0];
    assert SyncPoint(all) == 0;
    assert all[0..] == all;
    ReassembleCases(all);
  }

  /** sync drops exactly the frames in front of the first one with seq 0. */
  lemma {:induction false} SyncPointMaximal(buffer: seq<Frame>)
    ensures forall j | 0 <= j < SyncPoint(buffer) :: buffer[j].seqNo != 0
    ensures SyncPoint(buffer) < |buffer| ==> buffer[SyncPoint(buffer)].seqNo == 0
  {
    if |buffer| > 0 && buffer[0].seqNo != 0 {
      var tail := buffer[1..];
      SyncPointMaximal(tail);
      forall j | 0 <= j < SyncPoint(buffer)
        ensures buffer[j].seqNo != 0
      {
        if j > 0 {
          assert buffer[j] == tail[j - 1];
        }
      }
    }
  }

  /** The sync point of frames put behind a run of frames whose seq is not 0. */
  lemma {:induction false} SyncPointSkips(stray: seq<Frame>, rest: seq<Frame>)
    requires forall i | 0 <= i < |stray| :: stray[i].seqNo != 0
    ensures SyncPoint(stray + rest) == |stray| + SyncPoint(rest)
  {
    if stray != [] {
      assert (stray + rest)[0] == stray[0];
      assert (stray + rest)[1..] == stray[1..] + rest;
      SyncPointSkips(stray[1..], rest);
    } else {
      assert stray + rest == rest;
    }
  }

  /** sync drops any run of frames whose seq is not 0 in front of a packet. */
  lemma SyncSkipsStrayFrames(stray: seq<Frame>, rest: seq<Frame>)
    requires forall i | 0 <= i < |stray| :: stray[i].seqNo != 0
    ensures Receive(stray + rest) == Receive(rest)
  {
    SyncPointSkips(stray, rest);
    var all := stray + rest;
    assert all[SyncPoint(all)..] == rest[SyncPoint(rest)..] by {
      assert all[|stray|..] == rest;
    }
  }

  /** A packet fit for transmission: a 16-byte id and fields that fit the
      header. */
  predicate Transmittable(p: Packet)
  {
    && p.id.IdBytes? && |p.id.bytes| == HEADER_ID_BYTES
    && p.size == |p.data| && p.size < Pow256(HEADER_SIZE_BYTES)
    && 0 <= p.receiver < Pow256(HEADER_RECEIVER_BYTES)
    && 0 <= p.sender < Pow256(HEADER_SENDER_BYTES)
  }

  /** The header read back from a serialised packet, whatever padding
      follows it. */
  lemma DecodeSerialised(p: Packet, padding: seq<Byte>)
    requires Transmittable(p)
    ensures Serialise(p).Ok?
    ensures DecodePacket(Serialise(p).value + padding)
      == NewPacket(IdInt(FromBytesBE(p.id.bytes)), p.data, p.receiver, p.sender)
  {
    var b := Serialise(p).value;
    SerialiseLayout(p);
    var all := b + padding;
    assert all[..|b|] == b;
    assert Slice(all, 0, 16) == b[0..16];
    assert Slice(all, 16, 18) == b[16..18];
    assert Slice(all, 18, 24) == b[18..24];
    assert Slice(all, 24, 30) == b[24..30];
    assert Slice(all, 30, 30 + p.size) == b[30..];
  }

  /** The frames of a non-empty byte string, received on an empty buffer,
      are reassembled in one go and leave nothing behind. */
  lemma ReceiveFragment(bytes: seq<Byte>)
    requires |bytes| > 0
    ensures Receive(Fragment(bytes)) == ([DecodePacket(ConcatData(Fragment(bytes)))], [])
  {
    var frames := Fragment(bytes);
    FragmentShape(bytes);
    var c := FrameCount(|bytes|);
    assert frames[0].seqNo == 0 && frames[0].end == c == |frames|;
    assert SyncPoint(frames) == 0;
    assert frames[0..] == frames;
    assert frames[..Max(c, 0)] == frames;
    assert SliceFrom(frames, c) == [];
  }

  /** Receiving the frames of one packet on an empty buffer gives back one
      packet with the same data, receiver and sender, whose id is the
      big-endian value of the sent id bytes, and empties the buffer. */
  lemma NetRoundTrip(p: Packet)
    requires Transmittable(p)
    ensures FragmentPacket(p).Ok?
    ensures Receive(FragmentPacket(p).value)
      == ([NewPacket(IdInt(FromBytesBE(p.id.bytes)), p.data, p.receiver, p.sender)], [])
  {
    var b := Serialise(p).value;
    SerialiseLayout(p);
    FragmentConcat(b);
    ReceiveFragment(b);
    DecodeSerialised(p, Zeros(PAYLOAD_BYTES * FrameCount(|b|) - |b|));
  }

  class NetLayer {
    var frameBuffer: seq<Frame>

    constructor ()
      ensures frameBuffer == []
    {
      frameBuffer := [];
    }

    method Rx(frames: seq<Frame>) returns (packets: seq<Packet>)
      modifies this
      ensures (packets, frameBuffer) == Receive(old(frameBuffer) + frames)
    {
      frameBuffer := frameBuffer + frames;
      Sync();
      packets := FramesToPacket();
    }

    /** No frames for no packet; the frame buffer is never touched. */
    method Tx(packet: Option<Packet>) returns (r: Result<seq<Frame>, NetError>)
      ensures packet.None? ==> r == Ok([])
      ensures packet.Some? ==> r == FragmentPacket(packet.value)
    {
      r := Ok([]);
      if packet.Some? {
        r := PacketToFrames(packet.value);
      }
    }

    method PacketToFrames(packet: Packet) returns (r: Result<seq<Frame>, NetError>)
      ensures r == FragmentPacket(packet)
    {
      if packet.id.IdInt? {
        return Err(IdNotBytes);
      }
      var byteArray := packet.id.bytes;
      if !(0 <= packet.size < Pow256(HEADER_SIZE_BYTES)) {
        return Err(SizeOverflow);
      }
      byteArray := byteArray + ToBytesBE(packet.size, HEADER_SIZE_BYTES);
      if !(0 <= packet.receiver < Pow256(HEADER_RECEIVER_BYTES)) {
        return Err(ReceiverOverflow);
      }
      byteArray := byteArray + ToBytesBE(packet.receiver, HEADER_RECEIVER_BYTES);
      if !(0 <= packet.sender < Pow256(HEADER_SENDER_BYTES)) {
        return Err(SenderOverflow);
      }
      byteArray := byteArray + ToBytesBE(packet.sender, HEADER_SENDER_BYTES);
      byteArray := byteArray + packet.data;

      var count := FrameCount(|byteArray|);
      var frames: seq<Frame> := [];
      for i := 0 to count
        invariant |frames| == i
        invariant forall j | 0 <= j < i :: frames[j] == NewFrame(j, count, Chunk(byteArray, j))
      {
        var startByte := i * PAYLOAD_BYTES;
        var frame := NewFrame(i, count, Slice(byteArray, startByte, startByte + PAYLOAD_BYTES));
        frames := frames + [frame];
      }
      assert frames == Fragment(byteArray);
      r := Ok(frames);
    }

    /** Reassembles at most one packet from the front of the buffer. */
    method FramesToPacket() returns (packets: seq<Packet>)
      modifies this
      ensures (packets, frameBuffer) == Reassemble(old(frameBuffer))
    {
      var buffer := frameBuffer;
      var count := |buffer|;
      if count == 0 {
        return [];
      }
      var packetFrames := buffer[0].end;
      if packetFrames > count {
        return [];
      }
      ghost var taken := buffer[..Max(packetFrames, 0)];
      var byteArray: seq<Byte> := [];
      var i := 0;
      while i < packetFrames
        invariant 0 <= i <= Max(packetFrames, 0)
        invariant ConcatData(taken) == byteArray + ConcatData(taken[i..])
      {
        ConcatDataStep(taken, i);
        byteArray := byteArray + buffer[i].data;
        i := i + 1;
      }
      assert taken[i..] == [];
      assert byteArray == ConcatData(taken);
      frameBuffer := SliceFrom(buffer, packetFrames);

      var packetId := FromBytesBE(Slice(byteArray, 0, 16));
      var packetSize := FromBytesBE(Slice(byteArray, 16, 18));
      var packetReceiver := FromBytesBE(Slice(byteArray, 18, 24));
      var packetSender := FromBytesBE(Slice(byteArray, 24, 30));
      var packetData := Slice(byteArray, 30, 30 + packetSize);
      var packet := NewPacket(IdInt(packetId), packetData, packetReceiver, packetSender);
      assert packet == DecodePacket(byteArray);
      assert Reassemble(buffer) == ([DecodePacket(ConcatData(taken))], SliceFrom(buffer, packetFrames));
      packets := [packet];
    }

    /** Drops leading frames until one with seq == 0 is at the front. */
    method Sync()
      modifies this
      ensures frameBuffer == old(frameBuffer)[SyncPoint(old(frameBuffer))..]
    {
      SyncPointMaximal(frameBuffer);
      ghost var k := 0;
      while |frameBuffer| > 0
        invariant k <= SyncPoint(old(frameBuffer))
        invariant frameBuffer == old(frameBuffer)[k..]
      {
        if frameBuffer[0].seqNo != 0 {
          frameBuffer := frameBuffer[1..];
          k := k + 1;
        } else {
          return;
        }
      }
    }
  }
}
