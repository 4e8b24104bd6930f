/** Physical layer (phy.py): FSK framing, bit demodulation and preamble
    synchronisation. The filter and Goertzel power estimate that decide one
    bit are abstract: a detector function gives the two tone powers of a
    window of samples. */
module Phy {
  import opened Wrappers
  import opened Frames

  // ---------------------------------------------------------------------
  // Configuration

  /** The source's default rates: 44100 Hz sampling, 2100 Hz carrier,
      441 Bd. */
  const DEFAULT_FREQ_SAMPLE: int := 2 * 2 * 3 * 3 * 5 * 5 * 7 * 7
  const DEFAULT_FREQ_CARRIER: int := 2 * 2 * 3 * 5 * 5 * 7
  const DEFAULT_BAUD_RATE: int := 3 * 3 * 7 * 7

  /** The number of candidate sample offsets sync tries (`d`). */
  const SYNC_CANDIDATES: nat := 6

  /** Why the constructor's `assert(freq_sample % baud_rate == 0)` fails:
      a zero baud rate divides by zero, any other rate that does not divide
      the sample rate fails the assertion. */
  datatype ConfigError = ZeroBaudRate | RateNotMultiple

  /** The divisibility check of the constructor and samples_per_bit. */
  function SamplesPerBit(freqSample: int, baudRate: int): (r: Result<int, ConfigError>)
    ensures r.Ok? <==> baudRate != 0 && freqSample % baudRate == 0
    ensures r.Ok? ==> r.value * baudRate == freqSample
  {
    if baudRate == 0 then Err(ZeroBaudRate)
    else if freqSample % baudRate != 0 then Err(RateNotMultiple)
    else Ok(freqSample / baudRate)
  }

  // ---------------------------------------------------------------------
  // Bit decisions

  /** The powers at the bit-0 and bit-1 frequencies in one bit window. */
  datatype Powers = Powers(power0: real, power1: real)

  /** One bit decision with its confidence. */
  datatype Match = Match(bit: Bit, separation: real)

  function Abs(x: real): (r: real)
    ensures r >= 0.0 && (r == x || r == -x)
  {
    if x < 0.0 then -x else x
  }

  /** __match_bit after the powers are known: 1 exactly when the bit-1 power
      exceeds the bit-0 power (ties give 0); separation is the distance
      between the powers. */
  function MatchPowers(p: Powers): (m: Match)
    ensures m.bit == 1 <==> p.power1 > p.power0
    ensures m.separation >= 0.0
    ensures m.separation == p.power0 - p.power1 || m.separation == p.power1 - p.power0
  {
    Match(if p.power1 > p.power0 then 1 else 0, Abs(p.power0 - p.power1))
  }

  /** The fixed parts of a modem: samples per bit, the two per-bit waveform
      templates and the detector (band-pass filters and Goertzel). */
  datatype Modem = Modem(spb: nat, tone0: seq<real>, tone1: seq<real>, detect: seq<real> -> Powers)

  predicate WellFormed(m: Modem)
  {
    m.spb > 0 && |m.tone0| == m.spb && |m.tone1| == m.spb
  }

  function MatchBit(m: Modem, window: seq<real>): (r: Match)
  {
    MatchPowers(m.detect(window))
  }

  // ---------------------------------------------------------------------
  // Arithmetic helpers

  lemma MulLe(x: nat, y: nat, c: nat)
    requires x <= y
    ensures x * c <= y * c
  {
  }

  lemma MulAdd(a: int, b: int, c: int)
    ensures (a + b) * c == a * c + b * c
  {
  }

  lemma DivMul(a: nat, b: nat)
    requires b > 0
    ensures (a / b) * b <= a < (a / b) * b + b
  {
  }

  lemma DivStep(a: nat, b: nat)
    requires 0 < b <= a
    ensures (a - b) / b + 1 == a / b
  {
    var q := (a - b) / b;
    DivMul(a - b, b);
    assert q * b + b <= a < q * b + 2 * b;
    assert (q + 1) * b <= a < (q + 2) * b;
    DivMul(a, b);
  }

  lemma DivUnique(a: nat, b: nat, q: nat, r: nat)
    requires b > 0 && r < b && a == q * b + r
    ensures a / b == q
  {
    DivMul(a, b);
    var d := a / b;
    if d < q {
      MulLe(d + 1, q, b);
    } else if d > q {
      MulLe(q + 1, d, b);
    }
  }

  lemma DivLower(a: nat, b: nat, q: nat)
    requires b > 0 && q * b <= a
    ensures q <= a / b
  {
    DivMul(a, b);
    if q > a / b {
      MulLe(a / b + 1, q, b);
    }
  }

  lemma MulDivCancel(k: nat, b: nat)
    requires b > 0
    ensures (k * b) / b == k
  {
    var q := (k * b) / b;
    DivMul(k * b, b);
    if q < k {
      MulLe(q + 1, k, b);
    } else if q > k {
      MulLe(k + 1, q, b);
    }
  }

  /** Dropping `offset + (p + n) * spb` samples stays within a window of
      `offset + c * spb` samples when p + n <= c. */
  lemma SkipBound(offset: nat, p: nat, n: nat, c: nat, spb: nat)
    requires p + n <= c
    ensures offset + p * spb + n * spb <= offset + c * spb
  {
    MulLe(p + n, c, spb);
  }

  // ---------------------------------------------------------------------
  // Modulation

  function Tone(m: Modem, bit: Bit): (template: seq<real>)
  {
    if bit == 1 then m.tone1 else m.tone0
  }

  /** Specification of modulate: the template of every bit, in order. */
  function Modulated(m: Modem, bits: seq<Bit>): (s: seq<real>)
    requires WellFormed(m)
    ensures |s| == |bits| * m.spb
  {
    if bits == [] then [] else Tone(m, bits[0]) + Modulated(m, bits[1..])
  }

  lemma {:induction false} ModulatedAppend(m: Modem, a: seq<Bit>, b: seq<Bit>)
    requires WellFormed(m)
    ensures Modulated(m, a + b) == Modulated(m, a) + Modulated(m, b)
  {
    if a != [] {
      assert (a + b)[1..] == a[1..] + b;
      ModulatedAppend(m, a[1..], b);
    } else {
      assert a + b == b;
    }
  }

  /** The rendered preamble. */
  function Preamble(m: Modem): (samples: seq<real>)
    requires WellFormed(m)
  {
    Modulated(m, PREAMBLE)
  }

  /** len(self.preamble). */
  function PreambleLen(m: Modem): (n: nat)
    ensures n == 32 * m.spb
  {
    |PREAMBLE| * m.spb
  }

  function Silence(n: nat): (z: seq<real>)
    ensures |z| == n
  {
    seq(n, _ => 0.0)
  }

  /** The frames of tx, one per BITS_PER_FRAME-bit chunk including a final
      shorter one: preamble, modulated chunk, a preamble's length of silence. */
  function Framed(m: Modem, bits: seq<Bit>): (signal: seq<real>)
    requires WellFormed(m)
    decreases |bits|
  {
    if bits == [] then []
    else
      var n := if |bits| < BITS_PER_FRAME then |bits| else BITS_PER_FRAME;
      Preamble(m) + Modulated(m, bits[..n]) + Silence(PreambleLen(m)) + Framed(m, bits[n..])
  }

  lemma FramedUnfold(m: Modem, bits: seq<Bit>)
    requires WellFormed(m) && bits != []
    ensures var n := Min(|bits|, BITS_PER_FRAME);
      Framed(m, bits) == (Preamble(m) + Modulated(m, bits[..n]) + Silence(PreambleLen(m))) + Framed(m, bits[n..])
  {
  }

  lemma AppendFrame(s: seq<real>, a: seq<real>, b: seq<real>, c: seq<real>, rest: seq<real>)
    ensures s + a + b + c + rest == s + ((a + b + c) + rest)
  {
  }

  /** The chunk of Framed that starts at bit `offset`. */
  lemma FramedStep(m: Modem, bits: seq<Bit>, offset: nat)
    requires WellFormed(m) && offset < |bits|
    ensures var end := Min(offset + BITS_PER_FRAME, |bits|);
      Framed(m, bits[offset..])
        == (Preamble(m) + Modulated(m, bits[offset..end]) + Silence(|Preamble(m)|)) + Framed(m, bits[end..])
  {
    var rest := bits[offset..];
    FramedUnfold(m, rest);
    var end := Min(offset + BITS_PER_FRAME, |bits|);
    assert bits[offset..end] == rest[..Min(|rest|, BITS_PER_FRAME)];
    assert bits[end..] == rest[Min(|rest|, BITS_PER_FRAME)..];
  }

  /** Specification of tx: nothing for less than one frame of bits. */
  function TxSignal(m: Modem, bits: seq<Bit>): (signal: seq<real>)
    requires WellFormed(m)
  {
    if |bits| < BITS_PER_FRAME then [] else Framed(m, bits)
  }

  // ---------------------------------------------------------------------
  // Demodulation

  /** The bits __demodulate_bits decides, one per whole bit window. */
  function DemodBits(m: Modem, s: seq<real>): (bits: seq<Bit>)
    requires WellFormed(m)
    ensures |bits| == |s| / m.spb
    decreases |s|
  {
    if |s| < m.spb then []
    else
      DivStep(|s|, m.spb);
      [MatchBit(m, s[..m.spb]).bit] + DemodBits(m, s[m.spb..])
  }

  function Square(x: real): (y: real)
    ensures y >= 0.0
  {
    x * x
  }

  /** The score of __demodulate_bits: the sum of the squared separations. */
  function Score(m: Modem, s: seq<real>): (score: real)
    requires WellFormed(m)
    ensures score >= 0.0
    decreases |s|
  {
    if |s| < m.spb then 0.0
    else
      Square(MatchBit(m, s[..m.spb]).separation) + Score(m, s[m.spb..])
  }

  /** One step of both recursions, for a window of at least one bit. */
  lemma DemodUnfold(m: Modem, s: seq<real>)
    requires WellFormed(m) && |s| >= m.spb
    ensures DemodBits(m, s) == [MatchBit(m, s[..m.spb]).bit] + DemodBits(m, s[m.spb..])
    ensures Score(m, s) == Square(MatchBit(m, s[..m.spb]).separation) + Score(m, s[m.spb..])
  {
    assert !(|s| < m.spb);
  }

  /** One loop iteration of __demodulate_bits keeps the accumulated bits and
      score in step with the recursive definitions. */
  lemma DemodAccumulate(m: Modem, s: seq<real>, acc: seq<Bit>, sc: real, rest: seq<real>)
    requires WellFormed(m) && |rest| >= m.spb
    requires DemodBits(m, s) == acc + DemodBits(m, rest)
    requires Score(m, s) == sc + Score(m, rest)
    ensures DemodBits(m, s) == (acc + [MatchBit(m, rest[..m.spb]).bit]) + DemodBits(m, rest[m.spb..])
    ensures Score(m, s) == (sc + Square(MatchBit(m, rest[..m.spb]).separation)) + Score(m, rest[m.spb..])
  {
    DemodUnfold(m, rest);
    var b := [MatchBit(m, rest[..m.spb]).bit];
    var d := DemodBits(m, rest[m.spb..]);
    assert acc + (b + d) == (acc + b) + d;
  }

  /** The bits demodulate decides, the samples it leaves and the frame
      bits still expected. */
  datatype Demodulation = Demodulation(bits: seq<Bit>, buffer: seq<real>, remaining: nat)

  /** Specification of demodulate: one bit per whole window at the front of
      the buffer, until the frame's bits or the buffer's windows run out. */
  function DemodStep(m: Modem, buffer: seq<real>, remaining: nat): (r: Demodulation)
    requires WellFormed(m)
    decreases remaining
  {
    if remaining == 0 || |buffer| < m.spb then Demodulation([], buffer, remaining)
    else
      var r := DemodStep(m, buffer[m.spb..], remaining - 1);
      Demodulation([MatchBit(m, buffer[..m.spb]).bit] + r.bits, r.buffer, r.remaining)
  }

  // ---------------------------------------------------------------------
  // Synchronisation

  /** The i-th candidate sample offset, `i * int(samples_per_bit / d)`. */
  function CandidateOffset(m: Modem, i: nat): (offset: nat)
  {
    i * (m.spb / SYNC_CANDIDATES)
  }

  lemma CandidateInFirstBit(m: Modem, i: nat)
    requires WellFormed(m) && i < SYNC_CANDIDATES
    ensures CandidateOffset(m, i) < m.spb
  {
    var x := m.spb / SYNC_CANDIDATES;
    MulLe(i, SYNC_CANDIDATES - 1, x);
  }

  /** The two-preamble window sync works on. */
  predicate SyncWindow(m: Modem, w: seq<real>)
  {
    WellFormed(m) && |w| == 2 * PreambleLen(m)
  }

  function CandidateScore(m: Modem, w: seq<real>, i: nat): (score: real)
    requires SyncWindow(m, w) && i < SYNC_CANDIDATES
  {
    CandidateInFirstBit(m, i);
    Score(m, w[CandidateOffset(m, i)..])
  }

  /** The candidate the first n iterations of the search keep. */
  function FirstBest(m: Modem, w: seq<real>, n: nat): (k: nat)
    requires SyncWindow(m, w) && 1 <= n <= SYNC_CANDIDATES
    ensures k < n
  {
    if n == 1 then 0
    else
      var k := FirstBest(m, w, n - 1);
      if CandidateScore(m, w, n - 1) > CandidateScore(m, w, k) then n - 1 else k
  }

  /** After n iterations the search holds candidate FirstBest(n): its
      offset, its bits and its score. */
  ghost predicate KeptBest(m: Modem, w: seq<real>, n: nat, offset: nat, bits: seq<Bit>, score: real)
    requires SyncWindow(m, w) && 1 <= n <= SYNC_CANDIDATES
  {
    var k := FirstBest(m, w, n);
    CandidateInFirstBit(m, k);
    && offset == CandidateOffset(m, k)
    && bits == DemodBits(m, w[offset..])
    && score == CandidateScore(m, w, k)
  }

  /** One iteration of the search: candidate i replaces the kept one exactly
      when its score is strictly higher (the first iteration always keeps). */
  lemma KeptBestStep(m: Modem, w: seq<real>, i: nat, offset: nat, bits: seq<Bit>, score: real,
                     newBits: seq<Bit>, newScore: real)
    requires SyncWindow(m, w) && i < SYNC_CANDIDATES
    requires i > 0 ==> KeptBest(m, w, i, offset, bits, score)
    requires i == 0 ==> score == -1.0
    requires CandidateOffset(m, i) <= |w|
    requires newBits == DemodBits(m, w[CandidateOffset(m, i)..])
    requires newScore == CandidateScore(m, w, i)
    ensures newScore > score ==> KeptBest(m, w, i + 1, CandidateOffset(m, i), newBits, newScore)
    ensures !(newScore > score) ==> KeptBest(m, w, i + 1, offset, bits, score)
  {
    assert CandidateScore(m, w, i) >= 0.0;
  }

  /** The kept candidate is the first one of maximal score. */
  lemma {:induction false} FirstBestIsFirstMaximum(m: Modem, w: seq<real>, n: nat)
    requires SyncWindow(m, w) && 1 <= n <= SYNC_CANDIDATES
    ensures forall j | 0 <= j < n :: CandidateScore(m, w, j) <= CandidateScore(m, w, FirstBest(m, w, n))
    ensures forall j | 0 <= j < FirstBest(m, w, n) :: CandidateScore(m, w, j) < CandidateScore(m, w, FirstBest(m, w, n))
  {
    if n > 1 {
      FirstBestIsFirstMaximum(m, w, n - 1);
    }
  }

  /** `''.join(map(str, bits))`. */
  function BitString(bits: seq<Bit>): (s: string)
    ensures |s| == |bits|
    ensures forall i | 0 <= i < |s| :: s[i] == '0' || s[i] == '1'
    ensures forall i | 0 <= i < |s| :: (s[i] == '1') == (bits[i] == 1)
  {
    seq(|bits|, i requires 0 <= i < |bits| => if bits[i] == 1 then '1' else '0')
  }

  predicate OccursAt(hay: string, needle: string, j: nat)
  {
    j + |needle| <= |hay| && hay[j..j + |needle|] == needle
  }

  /** `hay.find(needle, i)`: the first position from i on where the needle
      occurs, or -1. */
  function FindFrom(hay: string, needle: string, i: nat): (r: int)
    ensures r == -1 || (i <= r && OccursAt(hay, needle, r))
    ensures r == -1 ==> forall j | i <= j :: !OccursAt(hay, needle, j)
    ensures r != -1 ==> forall j | i <= j < r :: !OccursAt(hay, needle, j)
    decreases |hay| - i
  {
    if i + |needle| > |hay| then -1
    else if OccursAt(hay, needle, i) then i
    else FindFrom(hay, needle, i + 1)
  }

  function Find(hay: string, needle: string): (pos: int)
  {
    FindFrom(hay, needle, 0)
  }

  /** The candidate sync keeps, its bits, and where the preamble string
      occurs in them (-1 if nowhere). */
  datatype Alignment = Alignment(offset: nat, bits: seq<Bit>, position: int)

  function Align(m: Modem, w: seq<real>): (a: Alignment)
    requires SyncWindow(m, w)
    ensures a.offset < m.spb
  {
    var k := FirstBest(m, w, SYNC_CANDIDATES);
    CandidateInFirstBit(m, k);
    var offset := CandidateOffset(m, k);
    var bits := DemodBits(m, w[offset..]);
    Alignment(offset, bits, Find(BitString(bits), BitString(PREAMBLE)))
  }

  /** How many samples sync drops: past the found preamble, or one
      preamble's length. Never less than a preamble, never past the window. */
  function SyncDrop(m: Modem, w: seq<real>): (drop: nat)
    requires SyncWindow(m, w)
    ensures PreambleLen(m) <= drop <= |w|
  {
    var a := Align(m, w);
    if a.position >= 0 then
      SyncSkipWithinWindow(m, w);
      a.offset + a.position * m.spb + PreambleLen(m)
    else PreambleLen(m)
  }

  lemma SyncSkipWithinWindow(m: Modem, w: seq<real>)
    requires SyncWindow(m, w) && Align(m, w).position >= 0
    ensures 0 <= Align(m, w).position * m.spb
    ensures Align(m, w).offset + Align(m, w).position * m.spb + PreambleLen(m) <= |w|
  {
    var a := Align(m, w);
    var p: nat := a.position;
    assert OccursAt(BitString(a.bits), BitString(PREAMBLE), p);
    WindowArith(a.offset, p, |PREAMBLE|, |w|, m.spb);
  }

  /** p + n whole bits after offset fit in a window of len samples whose
      remainder after offset holds (len - offset) / spb bits. */
  lemma WindowArith(offset: nat, p: nat, n: nat, len: nat, spb: nat)
    requires 0 < spb && offset <= len && p + n <= (len - offset) / spb
    ensures 0 <= p * spb
    ensures offset + p * spb + n * spb <= len
  {
    MulLe(0, p, spb);
    SkipBound(offset, p, n, (len - offset) / spb, spb);
    DivMul(len - offset, spb);
  }

  datatype PhyState = PhyState(buffer: seq<real>, remaining: nat)

  /** Specification of sync on a buffer holding at least the window. */
  function SyncStep(m: Modem, buffer: seq<real>): (s: PhyState)
    requires WellFormed(m) && |buffer| >= 2 * PreambleLen(m)
    ensures |s.buffer| < |buffer|
    ensures IsSuffix(s.buffer, buffer)
    ensures s.remaining == 0 || s.remaining == BITS_PER_FRAME
  {
    var w := buffer[..2 * PreambleLen(m)];
    var drop := SyncDrop(m, w);
    PhyState(buffer[drop..], if Align(m, w).position >= 0 then BITS_PER_FRAME else 0)
  }

  lemma SyncStepCases(m: Modem, buffer: seq<real>)
    requires WellFormed(m) && |buffer| >= 2 * PreambleLen(m)
    ensures var a := Align(m, buffer[..2 * PreambleLen(m)]);
      && (a.position >= 0 ==>
           && 0 <= a.offset + a.position * m.spb + PreambleLen(m) <= |buffer|
           && SyncStep(m, buffer) == PhyState(buffer[a.offset + a.position * m.spb + PreambleLen(m)..], BITS_PER_FRAME))
      && (a.position < 0 ==> SyncStep(m, buffer) == PhyState(buffer[PreambleLen(m)..], 0))
  {
    var w := buffer[..2 * PreambleLen(m)];
    if Align(m, w).position >= 0 {
      SyncSkipWithinWindow(m, w);
    }
  }

  /** The search loop of rx: sync until a frame is found or fewer than two
      preambles' worth of samples remain. */
  function Search(m: Modem, s: PhyState): (r: PhyState)
    requires WellFormed(m)
    decreases |s.buffer|
  {
    if s.remaining != 0 then s
    else if |s.buffer| < 2 * PreambleLen(m) then s
    else Search(m, SyncStep(m, s.buffer))
  }

  /** Specification of rx: the bits returned and the new state. */
  function Receive(m: Modem, s: PhyState, input: seq<real>): (r: Demodulation)
    requires WellFormed(m)
  {
    var t := Search(m, PhyState(s.buffer + input, s.remaining));
    if t.remaining == 0 then Demodulation([], t.buffer, 0)
    else DemodStep(m, t.buffer, t.remaining)
  }

  // ---------------------------------------------------------------------
  // Properties

  /** The default rates give 100 samples per bit. */
  lemma DefaultSamplesPerBit()
    ensures SamplesPerBit(DEFAULT_FREQ_SAMPLE, DEFAULT_BAUD_RATE) == Ok(100)
  {
  }

  /** A detector that tells the two templates apart. */
  predicate Separates(m: Modem)
  {
    MatchBit(m, m.tone1).bit == 1 && MatchBit(m, m.tone0).bit == 0
  }

  /** Over a clean channel, demodulating a modulated bit string gives the
      bit string back. */
  lemma {:induction false} CleanChannel(m: Modem, bits: seq<Bit>)
    requires WellFormed(m) && Separates(m)
    ensures DemodBits(m, Modulated(m, bits)) == bits
  {
    if bits != [] {
      var s := Modulated(m, bits);
      assert s == Tone(m, bits[0]) + Modulated(m, bits[1..]);
      assert s[..m.spb] == Tone(m, bits[0]);
      assert s[m.spb..] == Modulated(m, bits[1..]);
      DemodUnfold(m, s);
      CleanChannel(m, bits[1..]);
    }
  }

  /** The number of frames tx emits for a bit string: one per started
      BITS_PER_FRAME bits. */
  function FrameChunks(n: nat): (count: nat)
  {
    (n + BITS_PER_FRAME - 1) / BITS_PER_FRAME
  }

  /** Every frame adds a preamble and a preamble's length of silence to the
      modulated bits. */
  lemma {:induction false} FramedLength(m: Modem, bits: seq<Bit>)
    requires WellFormed(m)
    ensures |Framed(m, bits)| == FrameChunks(|bits|) * (2 * PreambleLen(m)) + |bits| * m.spb
    decreases |bits|
  {
    if bits != [] {
      var n := Min(|bits|, BITS_PER_FRAME);
      var rest := bits[n..];
      FramedUnfold(m, bits);
      FramedLength(m, rest);
      var pl := PreambleLen(m);
      assert |Framed(m, bits)| == pl + n * m.spb + pl + |Framed(m, rest)|;
      ChunksStep(|bits|);
      MulAdd(1, FrameChunks(|rest|), 2 * pl);
      MulAdd(n, |rest|, m.spb);
    }
  }

  lemma ChunksStep(n: nat)
    requires n > 0
    ensures FrameChunks(n) == FrameChunks(n - Min(n, BITS_PER_FRAME)) + 1
  {
    if n >= BITS_PER_FRAME {
      DivStep(n + BITS_PER_FRAME - 1, BITS_PER_FRAME);
    }
  }

  /** tx is silent exactly when it is given less than one frame of bits. */
  lemma TxSilentIff(m: Modem, bits: seq<Bit>)
    requires WellFormed(m)
    ensures TxSignal(m, bits) == [] <==> |bits| < BITS_PER_FRAME
  {
    if |bits| >= BITS_PER_FRAME {
      FramedUnfold(m, bits);
      assert |Preamble(m)| > 0;
    }
  }

  /** A signal from tx starts with the preamble, then the first frame's
      bits, then a preamble's length of silence. */
  lemma TxStartsWithPreamble(m: Modem, bits: seq<Bit>)
    requires WellFormed(m) && |bits| >= BITS_PER_FRAME
    ensures var s := TxSignal(m, bits);
      var pl := PreambleLen(m);
      var fl := BITS_PER_FRAME * m.spb;
      && |s| >= pl + fl + pl
      && s[..pl] == Preamble(m)
      && s[pl..pl + fl] == Modulated(m, bits[..BITS_PER_FRAME])
      && s[pl + fl..pl + fl + pl] == Silence(pl)
  {
    FramedUnfold(m, bits);
  }

  /** A bit string's text form holds the preamble's text at j exactly when
      the bits there are the preamble. */
  lemma BitStringOccurs(bits: seq<Bit>, pattern: seq<Bit>, j: nat)
    ensures OccursAt(BitString(bits), BitString(pattern), j)
      <==> j + |pattern| <= |bits| && bits[j..j + |pattern|] == pattern
  {
    if j + |pattern| <= |bits| {
      if OccursAt(BitString(bits), BitString(pattern), j) {
        forall k | 0 <= k < |pattern|
          ensures bits[j..j + |pattern|][k] == pattern[k]
        {
          assert BitString(bits)[j + k] == BitString(pattern)[k];
        }
      }
      if bits[j..j + |pattern|] == pattern {
        assert BitString(bits)[j..j + |pattern|] == BitString(pattern);
      }
    }
  }

  /** The preamble bits start at j. */
  predicate PreambleAt(bits: seq<Bit>, j: nat)
  {
    j + |PREAMBLE| <= |bits| && bits[j..j + |PREAMBLE|] == PREAMBLE
  }

  /** What sync finds: the first position of the preamble bits in the
      decided bits, or -1 when they do not contain it. */
  lemma SyncFindsFirstPreamble(m: Modem, w: seq<real>)
    requires SyncWindow(m, w)
    ensures var a := Align(m, w);
      && (a.position >= 0 ==>
           && PreambleAt(a.bits, a.position)
           && forall j | 0 <= j < a.position :: !PreambleAt(a.bits, j))
      && (a.position == -1 ==> forall j: nat :: !PreambleAt(a.bits, j))
  {
    var a := Align(m, w);
    var hay := BitString(a.bits);
    var needle := BitString(PREAMBLE);
    assert a.position == FindFrom(hay, needle, 0);
    if a.position >= 0 {
      BitStringOccurs(a.bits, PREAMBLE, a.position);
      forall j | 0 <= j < a.position
        ensures !PreambleAt(a.bits, j)
      {
        BitStringOccurs(a.bits, PREAMBLE, j);
      }
    } else {
      forall j: nat
        ensures !PreambleAt(a.bits, j)
      {
        BitStringOccurs(a.bits, PREAMBLE, j);
      }
    }
  }

  /** demodulate takes as many whole bits as the buffer holds, but never
      more than the frame has left. */
  lemma {:induction false} DemodStepCounts(m: Modem, buffer: seq<real>, remaining: nat)
    requires WellFormed(m)
    ensures var r := DemodStep(m, buffer, remaining);
      && |r.bits| + r.remaining == remaining
      && (r.remaining == 0 || |r.buffer| < m.spb)
    decreases remaining
  {
    if remaining != 0 && |buffer| >= m.spb {
      DemodStepCounts(m, buffer[m.spb..], remaining - 1);
    }
  }

  /** demodulate consumes spb samples per bit it decides. */
  lemma {:induction false} DemodStepLength(m: Modem, buffer: seq<real>, remaining: nat)
    requires WellFormed(m)
    ensures var r := DemodStep(m, buffer, remaining);
      |r.bits| * m.spb + |r.buffer| == |buffer|
    decreases remaining
  {
    if remaining != 0 && |buffer| >= m.spb {
      var t := DemodStep(m, buffer[m.spb..], remaining - 1);
      DemodStepLength(m, buffer[m.spb..], remaining - 1);
      MulAdd(1, |t.bits|, m.spb);
    }
  }

  /** A prefix that reaches past position n splits there into the first n
      samples and a prefix of the rest. */
  lemma PrefixSplit(s: seq<real>, n: nat, tail: nat)
    requires n + tail <= |s|
    ensures s[..|s| - tail][..n] == s[..n]
    ensures s[..|s| - tail][n..] == s[n..][..|s[n..]| - tail]
  {
  }

  /** demodulate leaves the tail of the buffer in place. */
  lemma {:induction false} DemodStepSuffix(m: Modem, buffer: seq<real>, remaining: nat)
    requires WellFormed(m)
    ensures IsSuffix(DemodStep(m, buffer, remaining).buffer, buffer)
    decreases remaining
  {
    if remaining != 0 && |buffer| >= m.spb {
      var rest := buffer[m.spb..];
      DemodStepSuffix(m, rest, remaining - 1);
      assert IsSuffix(rest, buffer);
      SuffixTrans(DemodStep(m, rest, remaining - 1).buffer, rest, buffer);
    }
  }

  /** demodulate decides its bits from the front of the buffer, window by
      window. */
  lemma {:induction false} DemodStepBits(m: Modem, buffer: seq<real>, remaining: nat)
    requires WellFormed(m)
    ensures var r := DemodStep(m, buffer, remaining);
      && |r.buffer| <= |buffer|
      && r.bits == DemodBits(m, buffer[..|buffer| - |r.buffer|])
    decreases remaining
  {
    var r := DemodStep(m, buffer, remaining);
    if remaining == 0 || |buffer| < m.spb {
      assert buffer[..0] == [];
    } else {
      var rest := buffer[m.spb..];
      var t := DemodStep(m, rest, remaining - 1);
      DemodStepBits(m, rest, remaining - 1);
      assert r.buffer == t.buffer;
      assert r.bits == [MatchBit(m, buffer[..m.spb]).bit] + t.bits;
      var taken := buffer[..|buffer| - |t.buffer|];
      PrefixSplit(buffer, m.spb, |t.buffer|);
      DemodUnfold(m, taken);
    }
  }

  /** demodulate decides its bits from the front of the buffer and leaves
      the rest of the buffer in place. */
  lemma DemodStepConsumes(m: Modem, buffer: seq<real>, remaining: nat)
    requires WellFormed(m)
    ensures var r := DemodStep(m, buffer, remaining);
      && |r.bits| * m.spb + |r.buffer| == |buffer|
      && r.buffer == buffer[|buffer| - |r.buffer|..]
      && r.bits == DemodBits(m, buffer[..|buffer| - |r.buffer|])
  {
    DemodStepLength(m, buffer, remaining);
    DemodStepSuffix(m, buffer, remaining);
    DemodStepBits(m, buffer, remaining);
  }

  /** The closed form that demodulate computes: min(len / spb, remaining)
      bits from the first that many windows. */
  lemma DemodStepClosedForm(m: Modem, buffer: seq<real>, remaining: nat)
    requires WellFormed(m)
    ensures var k := Min(|buffer| / m.spb, remaining);
      && k * m.spb <= |buffer|
      && DemodStep(m, buffer, remaining)
        == Demodulation(DemodBits(m, buffer[..k * m.spb]), buffer[k * m.spb..], remaining - k)
  {
    var r := DemodStep(m, buffer, remaining);
    DemodStepCounts(m, buffer, remaining);
    DemodStepConsumes(m, buffer, remaining);
    var n := |r.bits|;
    if r.remaining == 0 {
      DivLower(|buffer|, m.spb, n);
    } else {
      DivUnique(|buffer|, m.spb, n, |r.buffer|);
    }
    assert Min(|buffer| / m.spb, remaining) == n;
  }

  /** b ends with a. */
  predicate IsSuffix(a: seq<real>, b: seq<real>)
  {
    |a| <= |b| && a == b[|b| - |a|..]
  }

  lemma SuffixTrans(a: seq<real>, b: seq<real>, c: seq<real>)
    requires IsSuffix(a, b) && IsSuffix(b, c)
    ensures IsSuffix(a, c)
  {
    assert b[|b| - |a|..] == c[|c| - |a|..];
  }

  /** The search of rx only drops samples from the front. */
  lemma {:induction false} SearchKeepsSuffix(m: Modem, s: PhyState)
    requires WellFormed(m)
    ensures IsSuffix(Search(m, s).buffer, s.buffer)
    decreases |s.buffer|
  {
    if s.remaining == 0 && |s.buffer| >= 2 * PreambleLen(m) {
      var n := SyncStep(m, s.buffer);
      SearchKeepsSuffix(m, n);
      SuffixTrans(Search(m, n).buffer, n.buffer, s.buffer);
    }
  }

  /** The search of rx leaves a locked state alone, and otherwise stops
      either locked onto a new frame or with less than two preambles of
      samples left. */
  lemma {:induction false} SearchOutcome(m: Modem, s: PhyState)
    requires WellFormed(m)
    ensures s.remaining != 0 ==> Search(m, s) == s
    ensures s.remaining == 0 ==>
      || (Search(m, s).remaining == 0 && |Search(m, s).buffer| < 2 * PreambleLen(m))
      || Search(m, s).remaining == BITS_PER_FRAME
    decreases |s.buffer|
  {
    if s.remaining == 0 && |s.buffer| >= 2 * PreambleLen(m) {
      SearchOutcome(m, SyncStep(m, s.buffer));
    }
  }

  /** rx never returns more bits than the frame has left: a call that
      starts locked continues that frame; a call that starts searching
      returns bits only of a newly found frame. */
  lemma ReceiveAccounting(m: Modem, s: PhyState, input: seq<real>)
    requires WellFormed(m)
    ensures var r := Receive(m, s, input);
      && (s.remaining != 0 ==> |r.bits| + r.remaining == s.remaining)
      && (s.remaining == 0 ==> r.bits == [] || |r.bits| + r.remaining == BITS_PER_FRAME)
      && (r.bits == [] && r.remaining == 0 && s.remaining == 0 ==> |r.buffer| < 2 * PreambleLen(m))
  {
    var t := Search(m, PhyState(s.buffer + input, s.remaining));
    SearchOutcome(m, PhyState(s.buffer + input, s.remaining));
    if t.remaining != 0 {
      DemodStepCounts(m, t.buffer, t.remaining);
    }
  }

  // ---------------------------------------------------------------------
  // The layer

  class PhyLayer {
    const freqSample: int
    const freqCarrier: int
    const baudRate: int
    const bitsPerFrame: nat
    const freqDev: real
    const freqBit0: real
    const freqBit1: real
    const samplesPerBit: nat
    const modem: Modem
    const preamble: seq<real>
    const preambleStr: string

    var sampleBuffer: seq<real>
    var frameBitsRemaining: nat

    ghost predicate Valid()
    {
      && WellFormed(modem)
      && samplesPerBit == modem.spb
      && bitsPerFrame == BITS_PER_FRAME
      && preamble == Preamble(modem)
      && preambleStr == BitString(PREAMBLE)
    }

    /** The templates stand for the sine segments and detect for the
        band-pass filters and Goertzel estimates built from the rates. */
    constructor (freqSample: int, freqCarrier: int, baudRate: int,
                 tone0: seq<real>, tone1: seq<real>, detect: seq<real> -> Powers)
      requires SamplesPerBit(freqSample, baudRate).Ok?
      requires SamplesPerBit(freqSample, baudRate).value > 0
      requires |tone0| == SamplesPerBit(freqSample, baudRate).value == |tone1|
      ensures Valid()
      ensures this.freqSample == freqSample && this.freqCarrier == freqCarrier && this.baudRate == baudRate
      ensures samplesPerBit == SamplesPerBit(freqSample, baudRate).value
      ensures freqDev == freqCarrier as real / 3.0
      ensures freqBit0 == freqCarrier as real - freqDev && freqBit1 == freqCarrier as real + freqDev
      ensures modem.tone0 == tone0 && modem.tone1 == tone1 && modem.detect == detect
      ensures sampleBuffer == [] && frameBitsRemaining == 0
    {
      var spb := freqSample / baudRate;
      var m := Modem(spb, tone0, tone1, detect);
      var pre: seq<real> := [];
      for i := 0 to |PREAMBLE|
        invariant pre == Modulated(m, PREAMBLE[..i])
      {
        ModulatedAppend(m, PREAMBLE[..i], [PREAMBLE[i]]);
        assert PREAMBLE[..i + 1] == PREAMBLE[..i] + [PREAMBLE[i]];
        pre := pre + (if PREAMBLE[i] == 1 then tone1 else tone0);
      }
      assert PREAMBLE[..|PREAMBLE|] == PREAMBLE;
      this.freqSample := freqSample;
      this.freqCarrier := freqCarrier;
      this.bitsPerFrame := BITS_PER_FRAME;
      this.freqDev := freqCarrier as real / 3.0;
      this.freqBit0 := freqCarrier as real - freqCarrier as real / 3.0;
      this.freqBit1 := freqCarrier as real + freqCarrier as real / 3.0;
      this.baudRate := baudRate;
      this.samplesPerBit := spb;
      this.modem := m;
      this.preamble := pre;
      this.preambleStr := BitString(PREAMBLE);
      this.sampleBuffer := [];
      this.frameBitsRemaining := 0;
    }

    /** Appends the samples; while searching, syncs until a preamble is found
        or too few samples remain; once locked, demodulates what it can. */
    method Rx(signalSamples: seq<real>) returns (bitArray: seq<Bit>)
      requires Valid()
      modifies this
      ensures Demodulation(bitArray, sampleBuffer, frameBitsRemaining)
        == Receive(modem, PhyState(old(sampleBuffer), old(frameBitsRemaining)), signalSamples)
    {
      sampleBuffer := sampleBuffer + signalSamples;
      ghost var start := PhyState(sampleBuffer, frameBitsRemaining);
      while frameBitsRemaining == 0
        invariant Search(modem, PhyState(sampleBuffer, frameBitsRemaining)) == Search(modem, start)
        decreases |sampleBuffer|
      {
        if |sampleBuffer| < 2 * |preamble| {
          return [];
        }
        Sync();
      }
      // frameBitsRemaining is a nat, so the source's `else: return []`
      // (line 83) cannot be reached.
      bitArray := Demodulate();
    }

    method Tx(bitArray: seq<Bit>) returns (signalSamples: seq<real>)
      requires Valid()
      ensures signalSamples == TxSignal(modem, bitArray)
    {
      if |bitArray| < bitsPerFrame {
        return [];
      }
      signalSamples := [];
      var offset := 0;
      while offset < |bitArray|
        invariant signalSamples + Framed(modem, bitArray[Min(offset, |bitArray|)..]) == Framed(modem, bitArray)
        decreases |bitArray| - offset
      {
        var frameBits := bitArray[offset..Min(offset + bitsPerFrame, |bitArray|)];
        var modulated := Modulate(frameBits);
        ghost var before := signalSamples;
        ghost var next := Framed(modem, bitArray[Min(offset + bitsPerFrame, |bitArray|)..]);
        FramedStep(modem, bitArray, offset);
        signalSamples := signalSamples + preamble;
        signalSamples := signalSamples + modulated;
        signalSamples := signalSamples + Silence(|preamble|);
        AppendFrame(before, preamble, modulated, Silence(|preamble|), next);
        offset := offset + bitsPerFrame;
      }
    }

    /** Picks the candidate offset with the first maximal score, then looks
        for the preamble in its bits. The counter is set only when the
        preamble is found. */
    method Sync()
      requires Valid() && |sampleBuffer| >= 2 * |preamble|
      modifies this
      ensures sampleBuffer == SyncStep(modem, old(sampleBuffer)).buffer
      ensures frameBitsRemaining
        == if SyncStep(modem, old(sampleBuffer)).remaining == 0 then old(frameBitsRemaining)
           else SyncStep(modem, old(sampleBuffer)).remaining
    {
      assert |preamble| == PreambleLen(modem);
      var samples := sampleBuffer[..2 * |preamble|];
      var sampleOffset, bitArray := BestCandidate(samples);

      var bitStr := BitString(bitArray);
      var bitOffset := Find(bitStr, preambleStr);
      assert bitOffset == Align(modem, samples).position;
      SyncStepCases(modem, sampleBuffer);
      if bitOffset > -1 {
        sampleOffset := sampleOffset + bitOffset * samplesPerBit + |preamble|;
        sampleBuffer := sampleBuffer[sampleOffset..];
        frameBitsRemaining := bitsPerFrame;
      } else {
        sampleBuffer := sampleBuffer[|preamble|..];
      }
    }

    /** The candidate loop of sync: the offset with the first maximal score
        and the bits decided from it. */
    method BestCandidate(samples: seq<real>) returns (sampleOffset: nat, bitArray: seq<Bit>)
      requires Valid() && SyncWindow(modem, samples)
      ensures sampleOffset == Align(modem, samples).offset
      ensures bitArray == Align(modem, samples).bits
    {
      var d := SYNC_CANDIDATES;
      var offset := samplesPerBit / d;
      bitArray := [];
      var bestScore: real := -1.0;
      sampleOffset := 0;
      for i := 0 to d
        invariant i == 0 ==> bestScore == -1.0
        invariant i > 0 ==> KeptBest(modem, samples, i, sampleOffset, bitArray, bestScore)
      {
        CandidateInFirstBit(modem, i);
        assert i * offset == CandidateOffset(modem, i);
        var bits, score := DemodulateBits(samples[i * offset..]);
        KeptBestStep(modem, samples, i, sampleOffset, bitArray, bestScore, bits, score);
        if score > bestScore {
          bestScore := score;
          sampleOffset := i * offset;
          bitArray := bits;
        }
      }
    }

    method Modulate(bitArray: seq<Bit>) returns (samples: seq<real>)
      requires Valid()
      ensures samples == Modulated(modem, bitArray)
    {
      samples := [];
      for i := 0 to |bitArray|
        invariant samples == Modulated(modem, bitArray[..i])
      {
        ModulatedAppend(modem, bitArray[..i], [bitArray[i]]);
        assert bitArray[..i + 1] == bitArray[..i] + [bitArray[i]];
        samples := samples + (if bitArray[i] == 1 then modem.tone1 else modem.tone0);
      }
      assert bitArray[..|bitArray|] == bitArray;
    }

    /** Decides as many bits as both the buffer and the frame allow. */
    method Demodulate() returns (bitArray: seq<Bit>)
      requires Valid()
      modifies this
      ensures Demodulation(bitArray, sampleBuffer, frameBitsRemaining)
        == DemodStep(modem, old(sampleBuffer), old(frameBitsRemaining))
    {
      DemodStepClosedForm(modem, sampleBuffer, frameBitsRemaining);
      var availableBits := |sampleBuffer| / samplesPerBit;
      if availableBits > frameBitsRemaining {
        availableBits := frameBitsRemaining;
      }
      var sampleCount := availableBits * samplesPerBit;
      MulDivCancel(availableBits, samplesPerBit);
      var bits, _ := DemodulateBits(sampleBuffer[..sampleCount]);
      bitArray := bits;
      sampleBuffer := sampleBuffer[sampleCount..];
      frameBitsRemaining := frameBitsRemaining - |bitArray|;
    }

    /** One bit per whole window of samplesPerBit samples, with the summed
        squared separations as score. */
    method DemodulateBits(samples: seq<real>) returns (bitArray: seq<Bit>, score: real)
      requires Valid()
      ensures bitArray == DemodBits(modem, samples)
      ensures score == Score(modem, samples)
    {
      var md := modem;
      assert WellFormed(md);
      var spb := samplesPerBit;
      var count := |samples| / spb;
      bitArray := [];
      score := 0.0;
      var rest := samples;
      for i := 0 to count
        invariant |bitArray| == i
        invariant DemodBits(md, samples) == bitArray + DemodBits(md, rest)
        invariant Score(md, samples) == score + Score(md, rest)
      {
        assert |DemodBits(md, rest)| > 0;
        var m := MatchBit(md, rest[..spb]);
        DemodAccumulate(md, samples, bitArray, score, rest);
        bitArray := bitArray + [m.bit];
        score := score + Square(m.separation);
        rest := rest[spb..];
      }
    }
  }
}
