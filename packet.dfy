/** The variable-size addressed message (packet.py). */
module Packets {
  import opened Frames
  import opened Wrappers

  const HEADER_ID_BYTES: nat := 16
  const HEADER_SIZE_BYTES: nat := 2
  const HEADER_RECEIVER_BYTES: nat := 6
  const HEADER_SENDER_BYTES: nat := 6
  const HEADER_BYTES: nat := HEADER_ID_BYTES + HEADER_SIZE_BYTES + HEADER_RECEIVER_BYTES + HEADER_SENDER_BYTES

  /** An outgoing packet carries its id as 16 bytes; a reassembled one carries
      the big-endian integer read back from those bytes. */
  datatype PacketId = IdBytes(bytes: seq<Byte>) | IdInt(value: int)

  datatype Packet = Packet(id: PacketId, data: seq<Byte>, size: int, receiver: int, sender: int)

  /** `Packet(pid, data, receiver, sender)`: every field is stored as given and
      size is derived from the data. */
  function NewPacket(id: PacketId, data: seq<Byte>, receiver: int, sender: int): (p: Packet)
    ensures p.size == |data|
    ensures p.id == id && p.data == data && p.receiver == receiver && p.sender == sender
  {
    Packet(id, data, |data|, receiver, sender)
  }

  /** The evaluated default arguments of the constructor that vary between
      runs: a random 16-byte id and the local node address. They are computed
      once, when the class is defined. The other two defaults are the empty
      data list and receiver 0. */
  datatype Defaults = Defaults(pid: seq<Byte>, sender: int)

  /** A call `Packet(...)` in which every argument may be omitted (None): an
      omitted argument takes its default, a given one is stored as given. */
  function PacketCall(d: Defaults, pid: Option<PacketId>, data: Option<seq<Byte>>,
                      receiver: Option<int>, sender: Option<int>): (p: Packet)
    ensures p.id == (if pid.Some? then pid.value else IdBytes(d.pid))
    ensures p.data == (if data.Some? then data.value else [])
    ensures p.size == |p.data|
    ensures p.receiver == (if receiver.Some? then receiver.value else 0)
    ensures p.sender == (if sender.Some? then sender.value else d.sender)
  {
    var id := if pid.Some? then pid.value else IdBytes(d.pid);
    var bytes := if data.Some? then data.value else [];
    var to := if receiver.Some? then receiver.value else 0;
    var from := if sender.Some? then sender.value else d.sender;
    NewPacket(id, bytes, to, from)
  }

  /** With every argument given, the call is the plain constructor. */
  lemma PacketCallGiven(d: Defaults, id: PacketId, data: seq<Byte>, receiver: int, sender: int)
    ensures PacketCall(d, Some(id), Some(data), Some(receiver), Some(sender))
      == NewPacket(id, data, receiver, sender)
  {
  }

  /** `Packet()` is an empty packet of size 0 to receiver 0, carrying the
      default id and the local address. */
  lemma AllDefaults(d: Defaults)
    ensures PacketCall(d, None, None, None, None) == Packet(IdBytes(d.pid), [], 0, 0, d.sender)
  {
  }

  /** Packets built without an explicit id all share the one default id, and
      without an explicit sender the one node address. */
  lemma DefaultIdShared(d: Defaults, data1: Option<seq<Byte>>, r1: Option<int>,
                        data2: Option<seq<Byte>>, r2: Option<int>)
    ensures PacketCall(d, None, data1, r1, None).id == PacketCall(d, None, data2, r2, None).id
    ensures PacketCall(d, None, data1, r1, None).sender == PacketCall(d, None, data2, r2, None).sender
  {
  }

  /** The 30-byte header fits strictly inside one frame payload. */
  lemma HeaderFitsOneFrame()
    ensures HEADER_BYTES == 30 && HEADER_BYTES < PAYLOAD_BYTES
  {
  }
}
