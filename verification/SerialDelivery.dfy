/** From buildFrame on one side to the receive callback on the other, with noise on the line. */
module SerialDelivery {
  import opened Octets
  import opened Crc8
  import opened Crc8Detection
  import opened SerialLink
  import opened Sequences

  // ----- one frame -----

  lemma LenByte(cmd: Octet, payload: seq<Octet>, more: seq<Octet>)
    requires |payload| <= 254
    ensures var buf := FrameBytes(cmd, payload) + more;
            Marked(buf, 0) && Need(buf, 0) == |payload| + 5
  {
    hide Crc, OfNat, Octet.Value;
    OfNatValue(|payload| + 1);
  }

  lemma OwnCrc(cmd: Octet, payload: seq<Octet>, more: seq<Octet>)
    requires |payload| <= 254
    ensures var buf := FrameBytes(cmd, payload) + more;
            Need(buf, 0) <= |buf| && CrcMatches(buf, 0) && EventAt(buf, 0) == Event(cmd, |payload|, payload)
  {
    hide Crc, OfNat, Octet.Value;
    var buf := FrameBytes(cmd, payload) + more;
    var n := |payload| + 5;
    LenByte(cmd, payload, more);
    assert buf[2..n - 1] == [OfNat(|payload| + 1), cmd] + payload;
    assert buf[4..n - 1] == payload;
  }

  lemma FrameTaken(cmd: Octet, payload: seq<Octet>, more: seq<Octet>)
    requires |payload| <= 254
    ensures var d := Deframe(more);
            Deframe(FrameBytes(cmd, payload) + more) == Deframed([Event(cmd, |payload|, payload)] + d.events, d.rest)
  {
    hide FrameBytes, Marked, Need, CrcMatches, EventAt;
    var buf := FrameBytes(cmd, payload) + more;
    LenByte(cmd, payload, more);
    OwnCrc(cmd, payload, more);
    assert buf[|payload| + 5..] == more;
  }

  /** A callback either gets as many payload bytes as it is told of, or none and 2^64 - 1. */
  predicate HonestOrEmpty(e: Event) {
    |e.payload| <= 254 && (e.plLen == |e.payload| || (e.plLen == SIZE_T_MAX && e.payload == []))
  }

  /** The longest payload any delivered frame can carry. */
  lemma {:induction false} DeliveredSizes(buf: seq<Octet>)
    ensures forall i | 0 <= i < |Deframe(buf).events| :: HonestOrEmpty(Deframe(buf).events[i])
    decreases |buf|
  {
    hide TurnOf, Need, Deframe, EventAt;
    match TurnOf(buf)
    case Stop => StopHere(buf);
    case Skip =>
      SkipHere(buf);
      DeliveredSizes(buf[1..]);
    case Take =>
      TakeHere(buf);
      EventSize(buf);
      DeliveredSizes(buf[Need(buf, 0)..]);
  }

  lemma EventSize(buf: seq<Octet>)
    requires |buf| >= 5 && Need(buf, 0) <= |buf|
    ensures HonestOrEmpty(EventAt(buf, 0))
  {
  }

  /**
   buildFrame takes payloads of up to 255 bytes, but its LEN byte has no room for 256:
   a frame comes out as it went in exactly when the payload has at most 254 bytes.
   */
  lemma RoundTripExact(cmd: Octet, payload: seq<Octet>)
    requires |payload| < 256
    ensures Deframe(FrameBytes(cmd, payload)) == Deframed([Event(cmd, |payload|, payload)], [])
            <==> |payload| <= 254
  {
    hide Deframe, FrameBytes;
    if |payload| <= 254 {
      FrameTaken(cmd, payload, []);
      assert FrameBytes(cmd, payload) + [] == FrameBytes(cmd, payload);
      assert Deframe([]) == Deframed([], []) by { StopHere([]); }
    } else {
      var e := Event(cmd, |payload|, payload);
      DeliveredSizes(FrameBytes(cmd, payload));
      assert [e][0] == e;
    }
  }

  /**
   LEN = 0 is not rejected: with five bytes buffered, AA 55 00 is taken as a frame exactly
   when the next byte is zero, and the callback is told of 2^64 - 1 payload bytes.
   */
  lemma ZeroLengthExact(buf: seq<Octet>)
    requires |buf| >= 5 && Marked(buf, 0) && buf[2] == ZERO
    ensures var d := Deframe(buf[4..]);
            if buf[3] == ZERO then Deframe(buf) == Deframed([Event(ZERO, SIZE_T_MAX, [])] + d.events, d.rest)
            else Deframe(buf) == Deframe(buf[1..])
  {
    hide Crc, CrcMatches, EventAt, Need, Marked, Octet.Value;
    ZeroLengthMatch(buf);
  }

  lemma ZeroLengthMatch(buf: seq<Octet>)
    requires |buf| >= 5 && buf[2] == ZERO
    ensures Need(buf, 0) == 4 && (CrcMatches(buf, 0) <==> buf[3] == ZERO)
    ensures EventAt(buf, 0) == Event(buf[3], SIZE_T_MAX, [])
  {
    hide Crc;
    assert buf[2..3] == [ZERO];
    CrcOfZero();
  }

  lemma CrcOfZero()
    ensures Crc([ZERO]) == ZERO
  {
    hide ShiftN;
    assert Crc([]) == ZERO;
    assert [ZERO][..0] == [];
    XorZero();
    ShiftZeroOctet(8);
  }

  // ----- damaged frames -----

  /**
   A frame whose SOF and LEN arrive intact but whose covered bytes or check byte are hit by a
   burst of at most eight bits is not delivered: the deframer moves on by one byte.
   */
  lemma BurstRejected(cmd: Octet, payload: seq<Octet>, damaged: seq<Octet>, more: seq<Octet>, s: int)
    requires |payload| <= 254 && |damaged| == |payload| + 5
    requires damaged[..3] == FrameBytes(cmd, payload)[..3]
    requires var n := |payload| + 4;
             var w, w' := Word(FrameBytes(cmd, payload)[2..n], FrameBytes(cmd, payload)[n]), Word(damaged[2..n], damaged[n]);
             w != w' && forall k | 0 <= k < 8 * (n - 2) + 8 && w[k] != w'[k] :: s <= k < s + 8
    ensures Deframe(damaged + more) == Deframe((damaged + more)[1..])
  {
    hide Crc, Word;
    SameHeader(cmd, payload, damaged);
    var f, n := FrameBytes(cmd, payload), |payload| + 4;
    assert f[2..n] == [OfNat(|payload| + 1), cmd] + payload;
    BurstDetected(f[2..n], f[n], damaged[2..n], damaged[n], s);
    DamagedSkipped(damaged, more);
  }

  /** The same for any odd number of flipped bits. */
  lemma OddFlipsRejected(cmd: Octet, payload: seq<Octet>, damaged: seq<Octet>, more: seq<Octet>)
    requires |payload| <= 254 && |damaged| == |payload| + 5
    requires damaged[..3] == FrameBytes(cmd, payload)[..3]
    requires var f, n := FrameBytes(cmd, payload), |payload| + 4;
             Odd(Flips(f[2..n], damaged[2..n]) + Weight(f[n].Xor(damaged[n])))
    ensures Deframe(damaged + more) == Deframe((damaged + more)[1..])
  {
    hide Crc, Flips, Weight, Octet.Xor, Odd;
    SameHeader(cmd, payload, damaged);
    var f, n := FrameBytes(cmd, payload), |payload| + 4;
    assert f[2..n] == [OfNat(|payload| + 1), cmd] + payload;
    OddFlipsDetected(f[2..n], f[n], damaged[2..n], damaged[n]);
    DamagedSkipped(damaged, more);
  }

  lemma SameHeader(cmd: Octet, payload: seq<Octet>, damaged: seq<Octet>)
    requires |payload| <= 254 && |damaged| == |payload| + 5
    requires damaged[..3] == FrameBytes(cmd, payload)[..3]
    ensures Marked(damaged, 0) && Need(damaged, 0) == |damaged|
  {
    hide FrameBytes, Marked, Need;
    var f := FrameBytes(cmd, payload);
    LenByte(cmd, payload, []);
    assert f + [] == f;
    FirstThree(damaged, f);
  }

  lemma FirstThree(a: seq<Octet>, b: seq<Octet>)
    requires |a| >= 3 && |b| >= 3 && a[..3] == b[..3]
    ensures Marked(a, 0) == Marked(b, 0) && Need(a, 0) == Need(b, 0)
  {
    hide Octet.Value;
    assert forall i | 0 <= i < 3 :: a[i] == a[..3][i] && b[i] == b[..3][i];
  }

  lemma DamagedSkipped(damaged: seq<Octet>, more: seq<Octet>)
    requires |damaged| >= 5 && Marked(damaged, 0) && Need(damaged, 0) == |damaged|
    requires Crc(damaged[2..|damaged| - 1]) != damaged[|damaged| - 1]
    ensures Deframe(damaged + more) == Deframe((damaged + more)[1..])
  {
    hide Crc, Marked, Need, EventAt;
    FramePrefix(damaged, more);
  }

  // ----- noise -----

  /** No AA directly followed by 55. */
  predicate Quiet(noise: seq<Octet>) {
    forall i | 0 <= i < |noise| - 1 :: !(noise[i] == SOF1 && noise[i + 1] == SOF2)
  }

  lemma {:induction false} NoiseSkipped(noise: seq<Octet>, frame: seq<Octet>)
    requires Quiet(noise) && |frame| >= 5 && frame[0] == SOF1
    ensures Deframe(noise + frame) == Deframe(frame)
    decreases |noise|
  {
    hide Need, CrcMatches, EventAt;
    if noise == [] {
      assert noise + frame == frame;
    } else {
      var buf := noise + frame;
      assert buf[1..] == noise[1..] + frame;
      assert buf[1] == if |noise| > 1 then noise[1] else SOF1;
      NoiseSkipped(noise[1..], frame);
    }
  }

  lemma {:induction false} QuietTail(noise: seq<Octet>)
    requires Quiet(noise)
    ensures Deframe(noise).events == [] && |Deframe(noise).rest| <= 4
    decreases |noise|
  {
    hide Need, CrcMatches, EventAt;
    if |noise| >= 5 {
      QuietTail(noise[1..]);
    }
  }

  /** Some noise and then a frame. */
  datatype Burst = Burst(noise: seq<Octet>, cmd: Octet, payload: seq<Octet>)

  function Line(bs: seq<Burst>): seq<Octet> {
    if bs == [] then [] else bs[0].noise + FrameBytes(bs[0].cmd, bs[0].payload) + Line(bs[1..])
  }

  function Commands(bs: seq<Burst>): seq<Event> {
    if bs == [] then [] else [Event(bs[0].cmd, |bs[0].payload|, bs[0].payload)] + Commands(bs[1..])
  }

  predicate Clean(b: Burst) {
    Quiet(b.noise) && |b.payload| <= 254
  }

  lemma {:induction false} LineDeframed(bs: seq<Burst>, tail: seq<Octet>)
    requires forall b | b in bs :: Clean(b)
    ensures var d := Deframe(tail);
            Deframe(Line(bs) + tail) == Deframed(Commands(bs) + d.events, d.rest)
    decreases |bs|
  {
    hide Deframe, Quiet, FrameBytes;
    if bs == [] {
      assert Line(bs) + tail == tail;
      assert Commands(bs) + Deframe(tail).events == Deframe(tail).events;
    } else {
      var b, more := bs[0], Line(bs[1..]) + tail;
      assert Clean(b);
      var f := FrameBytes(b.cmd, b.payload);
      assert Line(bs) + tail == b.noise + (f + more);
      StartsWithSof(b.cmd, b.payload, more);
      NoiseSkipped(b.noise, f + more);
      FrameTaken(b.cmd, b.payload, more);
      LineDeframed(bs[1..], tail);
      var e := Event(b.cmd, |b.payload|, b.payload);
      assert [e] + (Commands(bs[1..]) + Deframe(tail).events) == Commands(bs) + Deframe(tail).events;
    }
  }

  lemma StartsWithSof(cmd: Octet, payload: seq<Octet>, more: seq<Octet>)
    ensures |FrameBytes(cmd, payload) + more| >= 5 && (FrameBytes(cmd, payload) + more)[0] == SOF1
  {
  }

  /**
   Recovery: after a frame damaged as in BurstRejected or OddFlipsRejected, with nothing like a start
   of frame in what is left of it and the noise behind it, every following frame is delivered.
   */
  lemma DamagedRecovered(damaged: seq<Octet>, bs: seq<Burst>, tail: seq<Octet>)
    requires |damaged| >= 5 && Marked(damaged, 0) && Need(damaged, 0) == |damaged|
    requires Crc(damaged[2..|damaged| - 1]) != damaged[|damaged| - 1]
    requires bs != [] && Quiet(damaged[1..] + bs[0].noise)
    requires forall b | b in bs :: Clean(b)
    ensures var d := Deframe(tail);
            Deframe(damaged + Line(bs) + tail) == Deframed(Commands(bs) + d.events, d.rest)
  {
    hide Crc, Marked, Need, Deframe, Quiet, FrameBytes, Line, Commands;
    var bs' := [Burst(damaged[1..] + bs[0].noise, bs[0].cmd, bs[0].payload)] + bs[1..];
    assert bs[0] in bs;
    assert forall b | b in bs' :: b == bs'[0] || b in bs;
    LineDeframed(bs', tail);
    LongerNoise(damaged[1..], bs, tail);
    DamagedSkipped(damaged, Line(bs) + tail);
    PastFirst(damaged, Line(bs), tail);
  }

  lemma PastFirst(a: seq<Octet>, b: seq<Octet>, c: seq<Octet>)
    requires a != []
    ensures a + (b + c) == a + b + c && (a + (b + c))[1..] == a[1..] + (b + c)
  {
  }

  lemma Regroup(a: seq<Octet>, b: seq<Octet>, c: seq<Octet>, d: seq<Octet>, e: seq<Octet>)
    ensures (a + b) + c + d + e == a + ((b + c + d) + e)
  {
  }

  lemma LineCons(b: Burst, bs: seq<Burst>)
    ensures Line([b] + bs) == b.noise + FrameBytes(b.cmd, b.payload) + Line(bs)
    ensures Commands([b] + bs) == [Event(b.cmd, |b.payload|, b.payload)] + Commands(bs)
  {
    hide FrameBytes;
    assert ([b] + bs)[1..] == bs;
  }

  /** Bytes before a line are more noise before its first frame. */
  lemma LongerNoise(noise: seq<Octet>, bs: seq<Burst>, tail: seq<Octet>)
    requires bs != []
    ensures var bs' := [Burst(noise + bs[0].noise, bs[0].cmd, bs[0].payload)] + bs[1..];
            Line(bs') + tail == noise + (Line(bs) + tail) && Commands(bs') == Commands(bs)
  {
    hide FrameBytes, Line, Commands;
    var b, rest := bs[0], bs[1..];
    LineCons(Burst(noise + b.noise, b.cmd, b.payload), rest);
    LineCons(b, rest);
    assert bs == [b] + rest;
    Regroup(noise, b.noise, FrameBytes(b.cmd, b.payload), Line(rest), tail);
  }

  /** The commonest case: a frame hit by a short burst costs no other frame, if nothing in it looks like a start of frame. */
  lemma BurstRecovered(cmd: Octet, payload: seq<Octet>, damaged: seq<Octet>, s: int, bs: seq<Burst>, tail: seq<Octet>)
    requires |payload| <= 254 && |damaged| == |payload| + 5
    requires damaged[..3] == FrameBytes(cmd, payload)[..3]
    requires var n := |payload| + 4;
             var w, w' := Word(FrameBytes(cmd, payload)[2..n], FrameBytes(cmd, payload)[n]), Word(damaged[2..n], damaged[n]);
             w != w' && forall k | 0 <= k < 8 * (n - 2) + 8 && w[k] != w'[k] :: s <= k < s + 8
    requires bs != [] && Quiet(damaged[1..] + bs[0].noise)
    requires forall b | b in bs :: Clean(b)
    ensures var d := Deframe(tail);
            Deframe(damaged + Line(bs) + tail) == Deframed(Commands(bs) + d.events, d.rest)
  {
    hide Crc, Word, Marked, Need, Deframe, Quiet, Line, Commands, Clean;
    SameHeader(cmd, payload, damaged);
    var f, n := FrameBytes(cmd, payload), |payload| + 4;
    BurstDetected(f[2..n], f[n], damaged[2..n], damaged[n], s);
    DamagedRecovered(damaged, bs, tail);
  }

  /**
   Any number of frames, each preceded by noise, with noise after the last, read in any
   pieces: the callbacks are exactly the commands sent, in order, and at most four noise bytes
   stay buffered.
   */
  lemma EndToEnd(bs: seq<Burst>, tail: seq<Octet>, cuts: seq<seq<Octet>>)
    requires forall b | b in bs :: Clean(b)
    requires Quiet(tail) && Flatten(cuts) == Line(bs) + tail
    ensures PollRun([], cuts).events == Commands(bs)
    ensures |PollRun([], cuts).rest| <= 4
  {
    hide Quiet, Line, Clean, Deframe;
    StopHere([]);
    ChunkInvariance([], cuts);
    assert [] + Flatten(cuts) == Flatten(cuts);
    LineDeframed(bs, tail);
    QuietTail(tail);
    assert Commands(bs) + [] == Commands(bs);
  }
}
