/**
 The TCP link by byte values: what each frame looks like on the wire, which bytes a receiver takes for a
 frame, and what it does with a command. Nothing here is said through the protocol's named constants.
 */
module TcpWire {
  import opened Bytes
  import opened FrameProtocol
  import opened TcpStream
  import opened TcpServer

  /** The four length bytes of a header that begins at p, least significant first. */
  function LengthAt(b: seq<byte>, p: nat): nat
    requires p + 6 <= |b|
  {
    b[p + 2] as nat + 256 * b[p + 3] as nat + 65536 * b[p + 4] as nat + 16777216 * b[p + 5] as nat
  }

  /** The numbers of the protocol. */
  lemma Numbers()
    ensures FRAME_SENSOR == 0x01 && FRAME_VIDEO == 0x10 && FRAME_THERMAL == 0x20 && FRAME_TEXT == 0x30 && FRAME_COMMAND == 0x40
    ensures LL_SOF == 0xA5 && LL_HEADER_SIZE == 6 && LL_MAX_PAYLOAD == 16777216 && LL_SENSOR_PAYLOAD_SIZE == 40
  {
  }

  /** Every frame that is sent: A5, the type, the length modulo 2^32 with its low byte first, the payload. */
  lemma FrameLayout(f: Frame)
    ensures var e := Encode(f);
            && |e| == 6 + |f.payload| && e[0] == 0xA5 && e[1] == f.ty
            && e[2] as nat + 256 * e[3] as nat + 65536 * e[4] as nat + 16777216 * e[5] as nat == |f.payload| % 4294967296
            && e[6..] == f.payload
  {
    hide Le32;
    var e, n := Encode(f), |f.payload|;
    Le32RoundTrip(n);
    Le32Bytes(n);
    assert [e[2], e[3], e[4], e[5]] == Le32(n);
  }

  lemma Le32Bytes(n: nat)
    ensures var s := Le32(n);
            FromLe32(s) == s[0] as nat + 256 * s[1] as nat + 65536 * s[2] as nat + 16777216 * s[3] as nat
  {
  }

  // ----- what a receiver takes for a frame -----

  /** A header that a receiver believes: A5, and a length of at most 16 MiB. */
  predicate Plausible(b: seq<byte>, p: nat) {
    p + 6 <= |b| && b[p] == 0xA5 && LengthAt(b, p) <= 16777216
  }

  lemma LengthIs(b: seq<byte>, p: nat)
    requires p + 6 <= |b|
    ensures U32At(b, p + 2) == LengthAt(b, p)
  {
  }

  lemma PlausibleShift(b: seq<byte>, p: nat)
    requires b != []
    ensures Plausible(b[1..], p) == Plausible(b, p + 1)
    ensures p + 7 <= |b| ==> LengthAt(b[1..], p) == LengthAt(b, p + 1)
  {
  }

  lemma DecodeSkips(b: seq<byte>)
    requires |b| >= 6 && !Plausible(b, 0)
    ensures Decode(b) == Decode(b[1..])
  {
    hide U32At;
    LengthIs(b, 0);
  }

  lemma DecodeHere(b: seq<byte>)
    requires Plausible(b, 0)
    ensures var n := 6 + LengthAt(b, 0);
            if n <= |b| then
              var d := Decode(b[n..]);
              Decode(b) == Decoded([Frame(b[1], b[6..n])] + d.frames, d.rest)
            else Decode(b) == Decoded([], b)
  {
    hide U32At;
    LengthIs(b, 0);
  }

  lemma Shifted(b: seq<byte>, p: nat, n: nat)
    requires 0 < p && p + n <= |b| && n >= 6
    ensures var c := b[1..];
            c[p - 1 + n..] == b[p + n..] && c[p + 5..p - 1 + n] == b[p + 6..p + n] && c[p] == b[p + 1]
  {
  }

  /**
   The first plausible header decides: if its frame is complete it is taken, and what follows is
   decoded by itself; if not, the buffer from there on is kept.
   */
  lemma {:induction false} DecodeLeftmost(b: seq<byte>, p: nat)
    requires Plausible(b, p) && forall q: nat | q < p :: !Plausible(b, q)
    ensures var n := 6 + LengthAt(b, p);
            if p + n <= |b| then
              var d := Decode(b[p + n..]);
              Decode(b) == Decoded([Frame(b[p + 1], b[p + 6..p + n])] + d.frames, d.rest)
            else Decode(b) == Decoded([], b[p..])
    decreases p
  {
    hide Decode, Plausible, LengthAt;
    PlausibleFits(b, p);
    if p == 0 {
      DecodeHere(b);
      assert b[0..] == b;
    } else {
      var c := b[1..];
      forall q: nat | q < p - 1
        ensures !Plausible(c, q)
      {
        PlausibleShift(b, q);
      }
      PlausibleShift(b, p - 1);
      DecodeSkips(b);
      DecodeLeftmost(c, p - 1);
      var n := 6 + LengthAt(b, p);
      if p + n <= |b| {
        Shifted(b, p, n);
      } else {
        assert c[p - 1..] == b[p..];
      }
    }
  }

  lemma PlausibleFits(b: seq<byte>, p: nat)
    requires Plausible(b, p)
    ensures p + 6 <= |b|
  {
  }

  /** Without one nothing is taken, and only the last five bytes are kept. */
  lemma {:induction false} DecodeNothing(b: seq<byte>)
    requires forall q: nat :: !Plausible(b, q)
    ensures Decode(b) == Decoded([], if |b| <= 5 then b else b[|b| - 5..])
    decreases |b|
  {
    hide U32At;
    if |b| >= 6 {
      DecodeSkips(b);
      forall q: nat
        ensures !Plausible(b[1..], q)
      {
        PlausibleShift(b, q);
      }
      DecodeNothing(b[1..]);
    }
  }

  // ----- commands -----

  function CommandBytes(a: byte, b: byte): seq<byte> {
    [0xA5, 0x40, 2, 0, 0, 0, a, b]
  }

  /** A command frame behind bytes without a start of frame is the command, and nothing else. */
  lemma CommandDecoded(junk: seq<byte>, a: byte, b: byte)
    requires 0xA5 !in junk
    ensures Commands(Decode(junk + CommandBytes(a, b)).frames) == [Command(a, b)]
    ensures Decode(junk + CommandBytes(a, b)).rest == []
  {
    hide Decode, Commands;
    var buf, p := junk + CommandBytes(a, b), |junk|;
    assert LengthAt(buf, p) == 2 && buf[p] == 0xA5 && buf[p + 1] == 0x40;
    assert forall q: nat | q < p :: buf[q] == junk[q] && junk[q] in junk;
    DecodeLeftmost(buf, p);
    assert |buf| == p + 8 && buf[p + 6] == a && buf[p + 7] == b;
    assert buf[p + 8..] == [];
    assert buf[p + 6..p + 8] == [a, b];
    DecodeEmpty();
    var f := Frame(0x40, [a, b]);
    assert [f] + [] == [f];
    CommandsOne(f);
  }

  lemma DecodeEmpty()
    ensures Decode([]) == Decoded([], [])
  {
  }

  /** In particular the emergency stop: A5 40 02 00 00 00 06 01. */
  method CommandArrives(sock: Socket, rx: Receiver, a: byte, b: byte) returns (rc: int)
    requires rx.Valid() && 0xA5 !in rx.buf
    requires Drain(sock.inbox).rc.WouldBlock? && Drain(sock.inbox).bytes == CommandBytes(a, b)
    modifies sock`inbox, rx
    ensures rc == 8 && rx.Valid() && rx.out == old(rx.out) + [Command(a, b)] && rx.buf == []
  {
    hide Decode, Commands, Drain;
    CommandDecoded(rx.buf, a, b);
    rc := PollCommands(sock, rx);
  }

  /** After half a frame the same bytes are that frame's payload, and no command. */
  lemma CommandSwallowed(a: byte, b: byte)
    ensures var half: seq<byte> := [0xA5, 0x10, 8, 0, 0, 0];
            Decode(half) == Decoded([], half)
            && Decode(half + CommandBytes(a, b)) == Decoded([Frame(0x10, CommandBytes(a, b))], [])
  {
    hide Decode;
    var half: seq<byte> := [0xA5, 0x10, 8, 0, 0, 0];
    var buf := half + CommandBytes(a, b);
    assert LengthAt(half, 0) == 8 && LengthAt(buf, 0) == 8;
    DecodeLeftmost(half, 0);
    assert half[0..] == half;
    DecodeLeftmost(buf, 0);
    assert buf[14..] == [] && buf[6..14] == CommandBytes(a, b);
    DecodeEmpty();
  }
}
