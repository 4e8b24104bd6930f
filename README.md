# Acoustic modem stack: a verified model of the protocol core

This project models the protocol logic of a three-layer acoustic modem
stack written in Python:

- the frame and packet records (`frame.py`, `packet.py`);
- the link layer (`lnk.py`): MSB-first bit/byte codecs, the `[seq, end] ++
  payload` frame layout, and a streaming bit buffer that cuts off 304-bit
  frames;
- the network layer (`net.py`): packet serialisation into 36-byte frames,
  resynchronisation on the first frame with `seq == 0`, and reassembly of at
  most one packet per call;
- the physical layer (`phy.py`): FSK framing with a preamble and a trailing
  silence, bit demodulation, the search over six candidate sample offsets,
  the preamble search and the `frame_bits_remaining` state machine.

Each source module is one Dafny module: `Frames`, `Packets`, `Lnk`, `Net`
and `Phy`, plus `Wrappers` for `Option` and `Result`. Values are datatypes.
The three layers are classes whose fields are the Python object's fields.
Every Python loop is a Dafny method with a loop. Each method is proved equal
to a specification function. Most of these are recursive (`BitsOf`,
`BytesOf`, `Deframe`, `EncodeFrames`, `ConcatData`, `SyncPoint`,
`Modulated`, `Framed`, `DemodBits`, `Score`, `DemodStep`, `Search`).
`Fragment` is a sequence comprehension, `FirstBest` a maximum over the six
candidates, and `Reassemble`, `SyncStep`, `Net.Receive` and `Phy.Receive`
are case distinctions over those. The lemmas then prove the source's
promises about these functions.

Bytes are `int`s in 0..255 and bits are `int`s in 0..1, as in the Python
lists. Samples are `real`s.

The signal processing that decides a single bit is a parameter of the
physical layer and is not modelled: the band-pass filters, the Goertzel
power estimates and the sine templates.
- The two per-bit templates are sequences of `samples_per_bit` reals, passed
  to the constructor.
- The detector `detect: seq<real> -> Powers` gives the two tone powers of a
  window of samples.
- `MatchPowers` turns those powers into the bit and the separation, exactly
  as `__match_bit` does.

Behaviour of the code that the model follows and that a reader might not
expect:
- The preamble is three copies of `10101010` followed by eight 1s, 32 bits
  in all (frame.py:3).
- `PhyLayer.tx` also sends a final chunk shorter than a frame, with its own
  preamble and silence (phy.py:93-94).
- A failed sync is retried within the same `rx` call, as long as two
  preambles' worth of samples remain (phy.py:72-75).
- `seq` and `end` are reduced modulo 256 by `frame_to_bytes` (lnk.py:32).
- A frame with `seq` 0 and `end` 0 at the head of the network layer's buffer
  is never consumed (net.py:48-56): every later `rx` returns one empty
  packet and keeps the whole buffer (`Net.ReceiveStalls`).

## Model

| member | source | states |
|---|---|---|
| Frames.FrameConstants | frame.py:3-8 | A frame is 2 + 36 = 38 bytes, i.e. 304 bits. The preamble is 32 bits: alternating 1,0 for 24 bits, then eight 1s. |
| Frames.NewFrame | frame.py:10-17 | `seq` and `end` are stored as given, with no range check. The data length is max(input length, 36). The input is a prefix of the data, and every byte after it is 0, so long input is never truncated. |
| Frames.NewFrameInPlace | frame.py:13-17 | The constructor acting on the caller's list object: the frame is `NewFrame` of the old contents, and the caller's list now holds the padded data. |
| Packets.NewPacket | packet.py:11-16 | `size` equals the data length. id, data, receiver and sender are stored unchanged. |
| Packets.PacketCall | packet.py:11-16 | Each omitted argument takes its default: the once-evaluated random id, the empty data list, receiver 0 and the node address. Each given argument is stored as given, and size is the length of the resulting data. |
| Packets.PacketCallGiven | packet.py:11-16 | With every argument given, the call is the plain constructor. |
| Packets.AllDefaults | packet.py:11-16 | `Packet()` has the default id, no data, size 0, receiver 0 and the node address as sender. |
| Packets.DefaultIdShared | packet.py:11 | Two packets built without an explicit id get the same id, and without an explicit sender the same sender, because the defaults are evaluated once. |
| Packets.HeaderFitsOneFrame | packet.py:5-9 | The header is 16 + 2 + 6 + 6 = 30 bytes, strictly less than a 36-byte payload. |
| Lnk.BytesOf | lnk.py:12-21 | bits_to_bytes yields floor(len / 8) bytes. |
| Lnk.BytesToBits | lnk.py:5-9 | The loop computes `BitsOf`: 8 bits per byte, in byte order. |
| Lnk.BitsToBytes | lnk.py:12-21 | The loop, including its early `break` and the inner `|=` loop, computes `BytesOf`. |
| Lnk.BitsOfMsbFirst | lnk.py:5-9 | The output has 8·n bits, and bit 8i+k is bit 7−k of byte i (most significant first). |
| Lnk.BytesOfDropsTail | lnk.py:14-16 | The trailing len mod 8 bits do not affect the result. |
| Lnk.ByteBitsValue | lnk.py:5-19 | The eight bits of a byte, read back with `|=` and shifts, give the byte. |
| Lnk.ValueByteBits | lnk.py:17-19 | Any eight 0/1 bits are the bits of the byte they spell. |
| Lnk.BytesOfBitsOf | lnk.py:5-21 | bits_to_bytes(bytes_to_bits(B)) == B for every byte sequence. |
| Lnk.BitsOfBytesOf | lnk.py:5-21 | bytes_to_bits(bits_to_bytes(S)) == S when len(S) is a multiple of 8. |
| Lnk.BitsToBytesExamples | tests/lnk_test.py:6-20 | Every bits_to_bytes case of the unit test, including the dropped trailing bits. |
| Lnk.BytesToBitsExamples | tests/lnk_test.py:22-34 | Every bytes_to_bits case of the unit test. |
| Lnk.BytesToFrame | lnk.py:24-28 | Byte 0 becomes seq and byte 1 becomes end. The rest is the payload, kept whole as a prefix and zero-padded to 36 bytes when shorter. |
| Lnk.FrameToBytes | lnk.py:31-34 | The encoding is 2 bytes longer than the payload. |
| Lnk.FrameCodecRoundTrip | lnk.py:24-34 | bytes_to_frame(frame_to_bytes(F)) == F holds if and only if seq < 256, end < 256 (both non-negative) and the payload is at least 36 bytes. |
| Lnk.FrameBytesRoundTrip | lnk.py:24-34 | Any 38 bytes survive bytes_to_frame then frame_to_bytes. |
| Lnk.DeframeLeftover | lnk.py:42-52 | After rx, fewer than 304 bits stay buffered. The buffered bits are exactly the tail after the consumed blocks: the total length is 304 · frames + leftover. |
| Lnk.DeframeBlocks | lnk.py:46-56 | Frame i is bytes_to_frame(bits_to_bytes(block i)), where block i is the i-th 304-bit block; the frames come out in order. |
| Lnk.EncodeFramesLength | lnk.py:58-67 | tx emits 304 bits per frame with a 36-byte payload. |
| Lnk.LnkRoundTrip | lnk.py:42-67 | rx on an empty buffer, fed the bits of tx, returns the same frames and leaves the buffer empty. The frames must have seq and end in 0..255 and 36-byte payloads. |
| Lnk.LnkLayer.constructor | lnk.py:38-40 | The bit buffer starts empty; bits_per_frame is 304. |
| Lnk.LnkLayer.Rx | lnk.py:42-56 | The returned frames and the new buffer are `Deframe` of old buffer ++ input. The new buffer holds fewer than bits_per_frame bits. |
| Lnk.LnkLayer.Tx | lnk.py:58-67 | The output is `EncodeFrames`: the bits of frame_to_bytes of each frame, in input order. The buffer is not touched. |
| Net.ToBytesBE | net.py:27-29 | to_bytes(n, 'big') of a value below 256^n gives exactly n bytes. Its inverse is `FromToBytesBE`. |
| Net.FromBytesBE | net.py:58-61 | int.from_bytes(b, 'big') is a natural number below 256^len(b). |
| Net.FromToBytesBE | net.py:27-29 | int.from_bytes undoes to_bytes(n, 'big') for x < 256^n. |
| Net.SerialiseSucceeds | net.py:26-29 | Serialisation succeeds if and only if the id is a byte string, 0 ≤ size < 2^16, and receiver and sender are in 0..2^48−1. Otherwise it is the TypeError or OverflowError case. |
| Net.SerialiseLayout | net.py:25-30 | The byte string is id(16) ‖ size(2) ‖ receiver(6) ‖ sender(6) ‖ data. Reading it back at offsets 0, 16, 18, 24 and 30 gives each field. |
| Net.FrameCountBounds | net.py:32 | count is ceil(n / 36): 0 exactly for n = 0, and otherwise 36·(count−1) < n ≤ 36·count. |
| Net.FragmentShape | net.py:32-36 | There are count frames. Frame i has seq i, end count, and 36 data bytes. Every frame but the last holds the i-th 36-byte chunk. The last frame holds the rest, zero-padded. |
| Net.FragmentConcat | net.py:32-36 | The frames' payloads, concatenated, are the byte string followed by the padding. |
| Net.HeaderInFirstFrame | net.py:25-36 | The 30-byte header lies entirely in frame 0. |
| Net.ReassembleCases | net.py:40-66 | At most one packet is returned. None is returned exactly when the buffer is empty or buffer[0].end > length, and then the buffer is unchanged. Otherwise, for 0 ≤ end ≤ length, the first `end` frames are decoded and the rest kept in order. A first frame with end 0 gives an all-zero empty packet and consumes nothing. A negative end also gives the all-zero empty packet, and Python's negative slice `frame_buffer[end:]` then keeps only the last −end frames (or all of them when −end exceeds the length). |
| Net.SyncPointMaximal | net.py:68-74 | sync drops exactly the maximal leading run of frames with seq ≠ 0: every dropped frame has seq ≠ 0, and the first kept frame, if any, has seq 0. |
| Net.SyncSkipsStrayFrames | net.py:10-14 | Any run of frames with seq ≠ 0 in front of the buffer leaves rx's result unchanged. |
| Net.ReceiveStalls | net.py:10-74 | If the buffer starts with a frame whose seq and end are both 0, rx returns one empty packet with all-zero header fields and keeps the whole buffer, whatever frames arrive. |
| Net.DecodeSerialised | net.py:58-64 | Parsing a serialised packet, whatever padding follows it, gives the id's big-endian value, the same data, receiver and sender. |
| Net.DecodePacket | net.py:58-64 | The header parse gives an integer id and non-negative receiver and sender. The data is a prefix of the bytes after offset 30 (empty when there are fewer than 30 bytes), no longer than the size field read from bytes 16-17. The packet's size is the length of that data rather than the header field. It is partnered by `DecodeSerialised`. |
| Net.ReceiveFragment | net.py:10-14 | The frames of a non-empty byte string, received on an empty buffer, give one packet and leave the buffer empty. |
| Net.NetRoundTrip | net.py:10-66 | rx(tx(P)) on an empty buffer returns one packet with P's data, receiver and sender, and the big-endian integer of P's id bytes. The buffer is left empty. This needs a 16-byte id and fields that fit the header. |
| Net.NetLayer.constructor | net.py:7-8 | The frame buffer starts empty. |
| Net.NetLayer.Rx | net.py:10-14 | The packets and the new buffer are `Receive` (sync, then one reassembly) of old buffer ++ frames. |
| Net.NetLayer.Tx | net.py:16-20 | No packet gives no frames; otherwise the result is packet_to_frames. The buffer is never touched. |
| Net.NetLayer.PacketToFrames | net.py:22-38 | Returns each overflow or type error in the source's order; otherwise returns `Fragment` of the serialised bytes. |
| Net.NetLayer.FramesToPacket | net.py:40-66 | The packets and the new buffer are `Reassemble` of the old buffer. |
| Net.NetLayer.Sync | net.py:68-74 | The new buffer is the old one with its first `SyncPoint` frames dropped. |
| Phy.SamplesPerBit | phy.py:30-42 | The divisibility check at phy.py:30 passes if and only if the baud rate is non-zero and divides the sample rate; then samples_per_bit · baud_rate == sample rate. |
| Phy.DefaultSamplesPerBit | phy.py:29 | The default rates give 100 samples per bit. |
| Phy.MatchPowers | phy.py:166-168 | The bit is 1 if and only if power_1 > power_0, so ties give 0. The separation is non-negative and is the distance between the powers. |
| Phy.Modulated | phy.py:132-136 | A modulated bit string is len(bits) · samples_per_bit samples long. |
| Phy.ModulatedAppend | phy.py:132-136 | Modulation distributes over concatenation. |
| Phy.PreambleLen | phy.py:60-62 | The rendered preamble is 32 · samples_per_bit samples. |
| Phy.FramedLength | phy.py:86-100 | `Framed`, which is tx's signal for at least 304 bits, has ceil(len / 304) frames, each adding a preamble and an equal length of silence to its modulated bits. |
| Phy.TxSilentIff | phy.py:86-88 | tx returns nothing if and only if it is given fewer than 304 bits. |
| Phy.TxStartsWithPreamble | phy.py:93-99 | A signal starts with the preamble, then the modulated first 304 bits, then a preamble's length of silence. |
| Phy.DemodBits | phy.py:149-158 | __demodulate_bits decides exactly floor(len / spb) bits. |
| Phy.Score | phy.py:156 | The score, a sum of squared separations, is non-negative. |
| Phy.CleanChannel | phy.py:132-158 | With a detector that tells the two templates apart, demodulating a modulated bit string gives the bits back. |
| Phy.DemodStepCounts | phy.py:138-147 | demodulate takes at most frame_bits_remaining bits. The bits taken plus the new counter equal the old counter, so the counter never goes negative. It stops only at counter 0 or when less than one bit of samples is left. |
| Phy.DemodStepConsumes | phy.py:138-147 | demodulate drops exactly bits · spb leading samples and keeps the rest. The bits are those decided from the dropped samples. |
| Phy.DemodStepClosedForm | phy.py:138-147 | demodulate takes k = min(floor(len / spb), remaining) bits: those of the first k·spb samples. It keeps the rest and lowers the counter by k. |
| Phy.CandidateInFirstBit | phy.py:105-111 | Every candidate offset i · int(spb / 6), for i < 6, lies within the first bit. |
| Phy.FirstBestIsFirstMaximum | phy.py:108-116 | The kept candidate has the maximal score, and every earlier candidate scores strictly less (first maximum). |
| Phy.KeptBestStep | phy.py:110-116 | One candidate iteration: the new candidate replaces the kept one exactly when its score is strictly higher. Against the initial −1, the first candidate is always taken. |
| Phy.BitString | phy.py:119 | The bit string `bit_str` that sync searches has one character per bit. Each character is '0' or '1', and it is '1' exactly where the bit is 1. |
| Phy.FindFrom | phy.py:120 | str.find returns the first position from i where the needle occurs, or −1 if it occurs nowhere from i. |
| Phy.BitStringOccurs | phy.py:119-120 | The preamble string occurs in the bit string at j if and only if the preamble bits occur in the bits at j. |
| Phy.SyncFindsFirstPreamble | phy.py:119-122 | sync's position is the first occurrence of the preamble bits in the winning bits, or −1 when they never occur. |
| Phy.SyncDrop | phy.py:122-130 | sync drops at least one preamble and never more than the two-preamble window. |
| Phy.SyncSkipWithinWindow | phy.py:125 | offset + p·spb + len(preamble) stays within the window when the preamble is found at p. |
| Phy.SyncStep | phy.py:102-130 | sync always shrinks the buffer and only drops samples from its front. The frame counter it sets is 0 or 304. |
| Phy.SyncStepCases | phy.py:122-130 | If the preamble is found at p, sync keeps the samples after offset + p·spb + len(preamble) and sets the counter to 304. Otherwise it drops exactly one preamble. |
| Phy.SearchKeepsSuffix | phy.py:72-75 | The search loop of rx only drops samples from the front of the buffer. |
| Phy.SearchOutcome | phy.py:72-75 | A locked state is left alone. A search ends either locked with 304 bits expected, or still searching with fewer than two preambles of samples. |
| Phy.ReceiveAccounting | phy.py:68-84 | A call that starts locked continues its frame: bits + new counter = old counter. A call that starts searching returns bits only of a new frame. A call that returns nothing while still searching leaves fewer than two preambles of samples. |
| Phy.PhyLayer.constructor | phy.py:29-66 | Sets samples_per_bit = sample rate / baud rate, freq_dev = carrier / 3, and the bit-0 and bit-1 frequencies as carrier ∓ freq_dev. The preamble is rendered by the template loop and its string formed. The buffer starts empty with counter 0. |
| Phy.PhyLayer.Rx | phy.py:68-84 | The returned bits, the new buffer and the new counter are `Receive`: the search loop (which terminates, since every sync shrinks the buffer), then one demodulate. |
| Phy.PhyLayer.Tx | phy.py:86-100 | The loop's output is `TxSignal`: nothing for fewer than 304 bits; otherwise preamble ++ modulate(chunk) ++ silence for every 304-bit chunk, including a final short one. |
| Phy.PhyLayer.Sync | phy.py:102-130 | The new buffer is `SyncStep` of the old one. The counter becomes 304 when the preamble is found and is otherwise unchanged. |
| Phy.PhyLayer.BestCandidate | phy.py:103-116 | The candidate loop ends with the offset and bits of the first maximal-score candidate. |
| Phy.PhyLayer.Modulate | phy.py:132-136 | The loop's output is `Modulated`: the template of every bit, in order. |
| Phy.PhyLayer.Demodulate | phy.py:138-147 | The bits, the new buffer and the new counter are `DemodStep` of the old state. |
| Phy.PhyLayer.DemodulateBits | phy.py:149-158 | The loop's output is `DemodBits` and `Score` of the samples. |

## Left out

- Signal processing: `goertzel`, `butter_bandpass`, `lfilter` and the sine templates built with `np.sin` and `linspace` (phy.py:9-25, 51-58, 160-165). These are floating-point DSP and library calls. The templates are constructor inputs, and the filter-and-Goertzel chain is the `detect` function in `Modem`.
- Floating point: samples and frequencies are exact reals. `int(a / b)` on non-negative integers is modelled as integer division, which ignores float rounding for huge values.
- `stack.py` (threads, locks, audio I/O, plotting) and `util.py` (formatting for prints) are not part of this model. There is no `print` output and no unused `Frame.TAIL`.
- The random default id and the node address (`uuid`, packet.py:11) are inputs: the `Defaults` record.
- There is no end-to-end round trip through the physical layer. Which candidate sync picks depends on the detector's values, so only the clean-channel demodulation (`CleanChannel`) and the individual sync and demodulation steps are proved.
- `frames_to_packet`'s `while True` always returns in its first iteration (net.py:66), so it is modelled as straight-line code that reassembles at most one packet.
- Python lists may hold any values. The model's frames and packets hold bytes 0..255, and its bit lists hold 0 and 1.
- Aliasing of lists: only the frame constructor's in-place padding of the caller's list is modelled (`NewFrameInPlace`). The `+=` on layer buffers mutates lists that nobody else holds.
- Phy.PhyLayer.constructor: requires samples_per_bit > 0. Two cases pass the divisibility check at phy.py:30. A zero sample rate gives samples_per_bit 0, and the constructor then divides by zero in `butter_bandpass` (phy.py:22, called from phy.py:57). A baud rate that is the negated sample rate (6000 Hz at −6000 Bd, say) gives samples_per_bit −1. That constructs successfully: the templates and the preamble are empty (phy.py:53-54, 60-62), and the band-pass designs get valid critical frequencies. But its `rx` never returns: every sync decides no bits, `find` gives −1 and dropping an empty preamble leaves the buffer as it was, while the loop's exit test `len(buffer) < 2 · len(preamble)` is never true (phy.py:72-75, 119-130). The model excludes that configuration because the source's `rx` does not terminate on it. A samples_per_bit below −1 makes `linspace` raise on its negative sample count (phy.py:53).
- Phy.PhyLayer.constructor: requires both templates to be samples_per_bit long. The source builds them that way itself.
- Net.NetRoundTrip: requires `size == len(data)` and a 16-byte id. The constructor guarantees the size. The id comes from `uuid` and is always 16 bytes, but the code does not check it.
- A packet of more than 255 frames (more than 255 · 36 = 9180 serialised bytes, i.e. more than 9150 data bytes) has its `end` wrapped modulo 256 by `frame_to_bytes` (lnk.py:32), and so does the `seq` of its frames from 256 on. The network-layer round trip is proved on frames as `packet_to_frames` yields them, before that wrap; what reassembly does with a wrapped `end` is not analysed.
- The unreachable `else: return []` of `rx` (phy.py:83-84) has no counterpart, because the counter is a natural number.
