/**
 The send and receive helpers of TcpServer over a scripted socket: the kernel's answers are a
 finite list of events, chosen by the environment.
 */
module TcpServer {
  import opened Bytes
  import opened FrameProtocol
  import opened Sequences
  import opened TcpStream

  /** One answer of recv(): up to 512 bytes, end of stream, or an errno. */
  datatype RecvEvent = Data(bytes: seq<byte>) | Closed | WouldBlock | Interrupted | Broken

  /** One answer of send(): at most `n` bytes taken, a retryable errno, or a failure. */
  datatype SendEvent = Accept(n: nat) | SendInterrupted | SendWouldBlock | Refuse

  const RECV_CHUNK: nat := 512

  predicate ValidRecv(e: RecvEvent) {
    e.Data? ==> 0 < |e.bytes| <= RECV_CHUNK
  }

  predicate ValidSend(e: SendEvent) {
    e.Accept? ==> e.n > 0
  }

  type Inbox = s: seq<RecvEvent> | forall e | e in s :: ValidRecv(e)
  type Outbox = s: seq<SendEvent> | forall e | e in s :: ValidSend(e)

  /** A connected socket as the server sees it. An empty script means nothing to read, nobody to write to. */
  class Socket {
    var inbox: Inbox
    var outbox: Outbox
    var wire: seq<byte>  // every byte the kernel has accepted

    constructor (inbox: Inbox, outbox: Outbox)
      ensures this.inbox == inbox && this.outbox == outbox && wire == []
    {
      this.inbox, this.outbox, wire := inbox, outbox, [];
    }

    method Recv() returns (e: RecvEvent)
      modifies this`inbox
      ensures old(inbox) == [] ==> e == WouldBlock && inbox == []
      ensures old(inbox) != [] ==> e == old(inbox)[0] && inbox == old(inbox)[1..]
      ensures ValidRecv(e)
    {
      if inbox == [] {
        e := WouldBlock;
      } else {
        e := inbox[0];
        inbox := inbox[1..];
      }
    }

    method Send(data: seq<byte>) returns (e: SendEvent)
      requires data != []
      modifies this`outbox, this`wire
      ensures old(outbox) == [] ==> e == Refuse && outbox == []
      ensures old(outbox) != [] ==> outbox == old(outbox)[1..]
      ensures old(outbox) != [] && old(outbox)[0].Accept? ==> e == Accept(Min(old(outbox)[0].n, |data|))
      ensures old(outbox) != [] && !old(outbox)[0].Accept? ==> e == old(outbox)[0]
      ensures e.Accept? ==> 0 < e.n <= |data| && wire == old(wire) + data[..e.n]
      ensures !e.Accept? ==> wire == old(wire)
    {
      if outbox == [] {
        e := Refuse;
      } else {
        e := outbox[0];
        assert ValidSend(e);
        outbox := outbox[1..];
        if e.Accept? {
          e := Accept(Min(e.n, |data|));
          wire := wire + data[..e.n];
        }
      }
    }
  }

  // ----- sending -----

  /** How far a blocking full write of `len` bytes gets against a script. */
  datatype Sent = Sent(taken: nat, ok: bool, script: Outbox)

  function Transmit(len: nat, script: Outbox): (s: Sent)
    ensures s.taken <= len
    ensures s.ok <==> s.taken == len
    ensures |s.script| <= |script|
    decreases |script|
  {
    if len == 0 then Sent(0, true, script)
    else if script == [] then Sent(0, false, [])
    else
      assert ValidSend(script[0]);
      match script[0]
      case Accept(n) =>
        var k := Min(n, len);
        var s := Transmit(len - k, script[1..]);
        Sent(k + s.taken, s.ok, s.script)
      case Refuse => Sent(0, false, script[1..])
      case _ => Transmit(len, script[1..])
  }

  /** One answer of send() and the rest of the write. */
  lemma TransmitStep(len: nat, script: Outbox)
    requires len > 0
    ensures script == [] ==> Transmit(len, script) == Sent(0, false, [])
    ensures script != [] && script[0].Refuse? ==> Transmit(len, script) == Sent(0, false, script[1..])
    ensures script != [] && !script[0].Refuse? && !script[0].Accept? ==> Transmit(len, script) == Transmit(len, script[1..])
    ensures script != [] && script[0].Accept? ==>
              var k := Min(script[0].n, len);
              var r := Transmit(len - k, script[1..]);
              Transmit(len, script) == Sent(k + r.taken, r.ok, r.script)
  {
    if script != [] {
      assert ValidSend(script[0]);
    }
  }

  lemma TransmitNothing(script: Outbox)
    ensures Transmit(0, script) == Sent(0, true, script)
  {
  }

  /** The bytes the kernel offers to take before it refuses for good. */
  function Offered(script: Outbox): nat {
    if script == [] || script[0].Refuse? then 0
    else (if script[0].Accept? then script[0].n else 0) + Offered(script[1..])
  }

  lemma OfferedNext(script: Outbox, k: nat)
    requires 0 < k <= |script| && !script[0].Refuse?
    ensures Offered(script[..k]) == (if script[0].Accept? then script[0].n else 0) + Offered(script[1..][..k - 1])
    ensures Offered(script[..0]) == 0
    ensures k > 1 ==> Offered(script[..k - 1]) == (if script[0].Accept? then script[0].n else 0) + Offered(script[1..][..k - 2])
  {
    assert script[..k][1..] == script[1..][..k - 1];
    assert k > 1 ==> script[..k - 1][1..] == script[1..][..k - 2];
  }

  /** A write succeeds exactly if the kernel offers to take as many bytes before it refuses, and gets rid of no fewer. */
  lemma {:induction false} TransmitExact(len: nat, script: Outbox)
    ensures var s := Transmit(len, script);
            (s.ok <==> len <= Offered(script)) && s.taken == Min(len, Offered(script))
    decreases |script|
  {
    if len > 0 && script != [] {
      assert ValidSend(script[0]);
      TransmitExact(if script[0].Accept? then len - Min(script[0].n, len) else len, script[1..]);
    }
  }

  /** It uses no more answers than it needs: the k-th was the one that finished it, or refused. */
  lemma {:induction false} TransmitUses(len: nat, script: Outbox) returns (k: nat)
    ensures var s := Transmit(len, script);
            && k <= |script| && s.script == script[k..] && (len == 0 ==> k == 0)
            && (s.ok && len > 0 ==> k > 0 && Offered(script[..k - 1]) < len <= Offered(script[..k]))
            && (!s.ok ==> k == |script| || (k > 0 && script[k - 1].Refuse?))
    decreases |script|
  {
    k := 0;
    if len > 0 && script != [] {
      assert ValidSend(script[0]);
      TransmitStep(len, script);
      hide Transmit;
      if script[0].Refuse? {
        k := 1;
      } else {
        k := TransmitUses(if script[0].Accept? then len - Min(script[0].n, len) else len, script[1..]);
        k := k + 1;
        OfferedNext(script, k);
        hide Offered;
      }
    }
  }

  method SendAll(sock: Socket, data: seq<byte>) returns (ok: bool)
    modifies sock`outbox, sock`wire
    ensures var s := Transmit(|data|, old(sock.outbox));
            ok == s.ok && sock.wire == old(sock.wire) + data[..s.taken] && sock.outbox == s.script
  {
    hide Transmit;
    var sent := 0;
    while sent < |data|
      invariant 0 <= sent <= |data|
      invariant sock.wire == old(sock.wire) + data[..sent]
      invariant var s := Transmit(|data|, old(sock.outbox));
                var r := Transmit(|data| - sent, sock.outbox);
                s.taken == sent + r.taken && s.ok == r.ok && s.script == r.script
      decreases |data| - sent + |sock.outbox|
    {
      TransmitStep(|data| - sent, sock.outbox);
      var e := sock.Send(data[sent..]);
      match e {
        case Accept(n) =>
          assert data[..sent] + data[sent..][..n] == data[..sent + n];
          sent := sent + n;
        case SendInterrupted =>
        case SendWouldBlock =>
        case Refuse =>
          return false;
      }
    }
    TransmitNothing(sock.outbox);
    return true;
  }

  /** How many bytes of Encode(f) get out when the header and then the payload are written in full. */
  function TransmitFrame(f: Frame, script: Outbox): (s: Sent)
    ensures s.taken <= |Encode(f)|
    ensures s.ok <==> s.taken == |Encode(f)|
  {
    var h := Transmit(LL_HEADER_SIZE, script);
    if !h.ok || |f.payload| == 0 then h
    else
      var p := Transmit(|f.payload|, h.script);
      Sent(LL_HEADER_SIZE + p.taken, p.ok, p.script)
  }

  /** A frame is written whole or, on failure, cut off inside; nothing else ever reaches the wire. */
  method SendFrame(sock: Socket, ty: byte, payload: seq<byte>) returns (ok: bool)
    modifies sock`outbox, sock`wire
    ensures var f := Frame(ty, payload);
            var s := TransmitFrame(f, old(sock.outbox));
            ok == s.ok && sock.wire == old(sock.wire) + Encode(f)[..s.taken] && sock.outbox == s.script
    ensures ok ==> sock.wire == old(sock.wire) + Encode(Frame(ty, payload))
  {
    var hdr := new byte[LL_HEADER_SIZE];
    BuildHeader(ty, |payload|, hdr);
    ghost var e := Encode(Frame(ty, payload));
    assert forall k | 0 <= k <= LL_HEADER_SIZE :: e[..k] == Header(ty, |payload|)[..k];
    ok := SendAll(sock, hdr[..]);
    if !ok {
      return;
    }
    if |payload| > 0 {
      assert forall k | 0 <= k <= |payload| :: e[..LL_HEADER_SIZE + k] == Header(ty, |payload|) + payload[..k];
      ok := SendAll(sock, payload);
    }
  }

  method SendText(sock: Socket, text: seq<byte>) returns (ok: bool)
    modifies sock`outbox, sock`wire
    ensures var f := Frame(FRAME_TEXT, text);
            var s := TransmitFrame(f, old(sock.outbox));
            ok == s.ok && sock.wire == old(sock.wire) + Encode(f)[..s.taken] && sock.outbox == s.script
  {
    ok := SendFrame(sock, FRAME_TEXT, text);
  }

  // ----- receiving -----

  datatype Drained = Drained(rc: RecvEvent, bytes: seq<byte>, inbox: Inbox)

  /** What the recv loop reads before it stops, and why it stops. */
  function Drain(inbox: Inbox): (d: Drained)
    ensures d.rc in {Closed, WouldBlock, Broken}
  {
    if inbox == [] then Drained(WouldBlock, [], [])
    else
      match inbox[0]
      case Data(bytes) => var d := Drain(inbox[1..]); d.(bytes := bytes + d.bytes)
      case Interrupted => Drain(inbox[1..])
      case rc => Drained(rc, [], inbox[1..])
  }

  /** The bytes in a list of answers, in order. */
  function Heard(es: seq<RecvEvent>): seq<byte> {
    if es == [] then [] else (if es[0].Data? then es[0].bytes else []) + Heard(es[1..])
  }

  /** The loop hears out every answer before the first end of stream, error or "nothing there", and that one stops it. */
  lemma {:induction false} DrainExact(inbox: Inbox) returns (k: nat)
    ensures var d := Drain(inbox);
            && k <= |inbox| && (forall i | 0 <= i < k :: inbox[i].Data? || inbox[i].Interrupted?) && d.bytes == Heard(inbox[..k])
            && if k == |inbox| then d.rc == WouldBlock && d.inbox == []
               else !inbox[k].Data? && !inbox[k].Interrupted? && d.rc == inbox[k] && d.inbox == inbox[k + 1..]
    decreases |inbox|
  {
    k := 0;
    if inbox != [] && (inbox[0].Data? || inbox[0].Interrupted?) {
      k := DrainExact(inbox[1..]);
      k := k + 1;
      assert inbox[..k][1..] == inbox[1..][..k - 1];
    }
  }

  /**
   A connection's receive state: the half-packet buffer and the list of commands. The ghost
   fields remember everything ever received and every frame ever recognised.
   */
  class Receiver {
    var buf: seq<byte>
    var out: seq<Command>
    ghost var stream: seq<byte>
    ghost var frames: seq<Frame>

    /** Everything recognised so far plus what the buffer still holds is one decode of the whole stream. */
    ghost predicate Valid()
      reads this
    {
      Decode(stream) == After(frames, buf)
    }

    /** The buffer holds no complete frame. */
    ghost predicate Settled()
      reads this
    {
      Decode(buf) == Decoded([], buf)
    }

    constructor ()
      ensures Valid() && Settled()
      ensures buf == [] && out == [] && stream == [] && frames == []
    {
      buf, out, stream, frames := [], [], [], [];
    }
  }

  /** Frames already recognised, followed by those still in a buffer. */
  function After(frames: seq<Frame>, buf: seq<byte>): Decoded {
    var d := Decode(buf);
    Decoded(frames + d.frames, d.rest)
  }

  lemma ValidAfterMore(stream: seq<byte>, frames: seq<Frame>, buf: seq<byte>, more: seq<byte>)
    requires Decode(stream) == After(frames, buf)
    ensures Decode(stream + more) == After(frames, buf + more)
  {
    hide Decode;
    DecodeSplit(stream, more);
    DecodeSplit(buf, more);
    var d := Decode(buf);
    var d' := Decode(d.rest + more);
    assert frames + (d.frames + d'.frames) == (frames + d.frames) + d'.frames;
  }

  /** The parse loop has recognised `taken` and stands at `off`. */
  ghost predicate ParsedTo(buf: seq<byte>, off: nat, taken: seq<Frame>) {
    off <= |buf| && Decode(buf) == After(taken, buf[off..])
  }

  lemma ParseStart(buf: seq<byte>)
    ensures ParsedTo(buf, 0, [])
  {
    assert buf[0..] == buf;
    assert [] + Decode(buf).frames == Decode(buf).frames;
  }

  lemma ParseSkip(buf: seq<byte>, off: nat, taken: seq<Frame>)
    requires ParsedTo(buf, off, taken) && |buf| - off >= LL_HEADER_SIZE
    requires buf[off] != LL_SOF || U32At(buf, off + 2) > LL_MAX_PAYLOAD
    ensures ParsedTo(buf, off + 1, taken)
  {
    var here := buf[off..];
    assert U32At(buf, off + 2) == U32At(here, 2);
    assert here[1..] == buf[off + 1..];
  }

  lemma ParseTake(buf: seq<byte>, off: nat, taken: seq<Frame>, f: Frame)
    requires ParsedTo(buf, off, taken) && |buf| - off >= LL_HEADER_SIZE
    requires buf[off] == LL_SOF && U32At(buf, off + 2) <= LL_MAX_PAYLOAD
    requires |buf| - off >= LL_HEADER_SIZE + U32At(buf, off + 2)
    requires f == Frame(buf[off + 1], buf[off + LL_HEADER_SIZE..off + LL_HEADER_SIZE + U32At(buf, off + 2)])
    ensures ParsedTo(buf, off + LL_HEADER_SIZE + U32At(buf, off + 2), taken + [f])
  {
    hide FromLe32;
    var here := buf[off..];
    var n := LL_HEADER_SIZE + U32At(buf, off + 2);
    assert U32At(buf, off + 2) == U32At(here, 2);
    assert here[n..] == buf[off + n..];
    assert here[LL_HEADER_SIZE..n] == f.payload;
    var d := Decode(here[n..]);
    assert taken + ([f] + d.frames) == (taken + [f]) + d.frames;
  }

  lemma ParseStop(buf: seq<byte>, off: nat, taken: seq<Frame>)
    requires ParsedTo(buf, off, taken)
    requires |buf| - off < LL_HEADER_SIZE || (
               && buf[off] == LL_SOF && U32At(buf, off + 2) <= LL_MAX_PAYLOAD
               && |buf| - off < LL_HEADER_SIZE + U32At(buf, off + 2))
    ensures Decode(buf) == Decoded(taken, buf[off..])
  {
    var here := buf[off..];
    if |here| >= LL_HEADER_SIZE {
      assert U32At(buf, off + 2) == U32At(here, 2);
    }
    assert taken + [] == taken;
  }

  lemma CommandsOne(f: Frame)
    ensures Commands([f]) == if f.ty == 0x40 && |f.payload| >= 2 then [Command(f.payload[0], f.payload[1])] else []
  {
  }

  lemma CommandsNone()
    ensures Commands([]) == []
  {
  }

  /** A finished parse keeps frames so far plus buffer what they were. */
  lemma AfterParsed(frames: seq<Frame>, buf: seq<byte>, taken: seq<Frame>, rest: seq<byte>)
    requires Decode(buf) == Decoded(taken, rest) && Decode(rest) == Decoded([], rest)
    ensures After(frames, buf) == After(frames + taken, rest)
  {
    hide Decode;
    assert frames + taken + [] == frames + taken;
  }

  /** One answer of recv() and the rest of the loop. */
  lemma DrainStep(inbox: Inbox)
    ensures inbox == [] ==> Drain(inbox) == Drained(WouldBlock, [], [])
    ensures inbox != [] && inbox[0].Data? ==>
              var d := Drain(inbox[1..]);
              Drain(inbox) == Drained(d.rc, inbox[0].bytes + d.bytes, d.inbox)
    ensures inbox != [] && inbox[0].Interrupted? ==> Drain(inbox) == Drain(inbox[1..])
    ensures inbox != [] && inbox[0] in {Closed, WouldBlock, Broken} ==> Drain(inbox) == Drained(inbox[0], [], inbox[1..])
  {
  }

  /** The recv loop: append what arrives until the socket has no more, or fails. */
  method Receive(sock: Socket, rx: Receiver) returns (rc: int)
    requires rx.Valid()
    modifies sock`inbox, rx`buf, rx`stream
    ensures rx.Valid()
    ensures var d := Drain(old(sock.inbox));
            && sock.inbox == d.inbox
            && rx.stream == old(rx.stream) + d.bytes && rx.buf == old(rx.buf) + d.bytes
            && rc == match d.rc case Closed => -1 case WouldBlock => |d.bytes| case _ => -2
  {
    hide Decode, After, Drain;
    var total := 0;
    ghost var got: seq<byte> := [];
    ghost var d := Drain(sock.inbox);
    while true
      invariant rx.Valid() && total == |got|
      invariant rx.buf == old(rx.buf) + got && rx.stream == old(rx.stream) + got
      invariant var r := Drain(sock.inbox);
                d.rc == r.rc && d.inbox == r.inbox && d.bytes == got + r.bytes
      decreases |sock.inbox|
    {
      DrainStep(sock.inbox);
      var e := sock.Recv();
      match e {
        case Data(bytes) =>
          ValidAfterMore(rx.stream, rx.frames, rx.buf, bytes);
          rx.buf := rx.buf + bytes;
          rx.stream := rx.stream + bytes;
          total := total + |bytes|;
          assert got + (bytes + Drain(sock.inbox).bytes) == got + bytes + Drain(sock.inbox).bytes;
          got := got + bytes;
        case Closed => return -1;
        case WouldBlock => return total;
        case Interrupted =>
        case Broken => return -2;
      }
    }
  }

  /** Extract whole frames, keep the commands, drop what was consumed. */
  method Parse(rx: Receiver)
    requires rx.Valid()
    modifies rx`buf, rx`out, rx`frames
    ensures rx.Valid()
    ensures var p := Decode(old(rx.buf));
            && rx.buf == p.rest
            && rx.frames == old(rx.frames) + p.frames
            && rx.out == old(rx.out) + Commands(p.frames)
  {
    hide ParsedTo, Decode, U32At, Commands, After;
    CommandsNone();
    ghost var buf0 := rx.buf;
    ghost var taken: seq<Frame> := [];
    var off := 0;
    ParseStart(buf0);
    while |rx.buf| - off >= LL_HEADER_SIZE
      invariant off <= |buf0| && rx.buf == buf0 && rx.frames == old(rx.frames)
      invariant ParsedTo(buf0, off, taken)
      invariant rx.out == old(rx.out) + Commands(taken)
    {
      if rx.buf[off] != LL_SOF {
        ParseSkip(buf0, off, taken);
        off := off + 1;
        continue;
      }
      var ty := rx.buf[off + 1];
      var len := U32At(rx.buf, off + 2);
      if len > LL_MAX_PAYLOAD {
        ParseSkip(buf0, off, taken);
        off := off + 1;
        continue;
      }
      var need := LL_HEADER_SIZE + len;
      if |rx.buf| - off < need {
        break;
      }
      ghost var f := Frame(ty, buf0[off + LL_HEADER_SIZE..off + need]);
      ParseTake(buf0, off, taken, f);
      CommandsConcat(taken, [f]);
      CommandsOne(f);
      if ty == FRAME_COMMAND && len >= 2 {
        var c := Command(rx.buf[off + LL_HEADER_SIZE], rx.buf[off + LL_HEADER_SIZE + 1]);
        rx.out := rx.out + [c];
      }
      taken := taken + [f];
      off := off + need;
    }
    ParseStop(buf0, off, taken);
    DecodeIdempotent(buf0);
    AfterParsed(rx.frames, buf0, taken, buf0[off..]);
    rx.frames := rx.frames + taken;
    if off > 0 {
      rx.buf := rx.buf[off..];
    }
    assert buf0[0..] == buf0;
  }

  /**
   Reads everything available, then parses. On end of stream or a read error the bytes just
   read stay in the buffer unparsed.
   */
  method PollCommands(sock: Socket, rx: Receiver) returns (rc: int)
    requires rx.Valid()
    modifies sock`inbox, rx
    ensures rx.Valid()
    ensures var d := Drain(old(sock.inbox));
            && sock.inbox == d.inbox
            && rx.stream == old(rx.stream) + d.bytes
            && rc == match d.rc case Closed => -1 case WouldBlock => |d.bytes| case _ => -2
    ensures rc < 0 ==>
              && rx.buf == old(rx.buf) + Drain(old(sock.inbox)).bytes
              && rx.out == old(rx.out) && rx.frames == old(rx.frames)
    ensures rc >= 0 ==>
              var p := Decode(old(rx.buf) + Drain(old(sock.inbox)).bytes);
              && rx.buf == p.rest
              && rx.frames == old(rx.frames) + p.frames
              && rx.out == old(rx.out) + Commands(p.frames)
    ensures rc >= 0 ==> rx.Settled() && |rx.buf| < LL_HEADER_SIZE + LL_MAX_PAYLOAD
    ensures rc >= 0 ==> Decode(rx.stream) == Decoded(rx.frames, rx.buf)
  {
    hide Decode;
    rc := Receive(sock, rx);
    if rc < 0 {
      return;
    }
    DecodeIdempotent(rx.buf);
    ResidueBound(rx.buf);
    Parse(rx);
  }
}
