/** End to end over TCP: what sendFrame puts on the wire, either receiver takes off it again. */
module TcpDelivery {
  import opened Bytes
  import opened FrameProtocol
  import opened Sequences
  import opened TcpStream
  import opened TcpServer
  import opened FrameParserCheck

  /** A run of sendFrame calls that stops at the first failure: bytes written, whether all succeeded, and the script left. */
  datatype SendRun = SendRun(wire: seq<byte>, ok: bool, script: Outbox)

  function SendFrames(fs: seq<Frame>, script: Outbox): SendRun {
    if fs == [] then SendRun([], true, script)
    else
      var s := TransmitFrame(fs[0], script);
      if !s.ok then SendRun(Encode(fs[0])[..s.taken], false, s.script)
      else
        var r := SendFrames(fs[1..], s.script);
        SendRun(Encode(fs[0]) + r.wire, r.ok, r.script)
  }

  /** One more frame goes out on the script that is left, unless the run has already failed. */
  lemma {:induction false} SendFramesAppend(fs: seq<Frame>, f: Frame, script: Outbox)
    ensures var r := SendFrames(fs, script);
            var s := TransmitFrame(f, r.script);
            SendFrames(fs + [f], script)
            == if r.ok then SendRun(r.wire + Encode(f)[..s.taken], s.ok, s.script) else r
    decreases |fs|
  {
    hide TransmitFrame;
    if fs == [] {
      assert fs + [f] == [f] && [f][1..] == [];
      var s := TransmitFrame(f, script);
      WholeFrame(f, script);
      assert [] + Encode(f)[..s.taken] == Encode(f)[..s.taken];
      assert Encode(f) + [] == Encode(f);
    } else {
      assert (fs + [f])[1..] == fs[1..] + [f];
      var s := TransmitFrame(fs[0], script);
      SendFramesAppend(fs[1..], f, s.script);
      var r := SendFrames(fs[1..], s.script);
      var t := TransmitFrame(f, r.script);
      assert Encode(fs[0]) + (r.wire + Encode(f)[..t.taken]) == Encode(fs[0]) + r.wire + Encode(f)[..t.taken];
    }
  }

  lemma WholeFrame(f: Frame, script: Outbox)
    ensures var s := TransmitFrame(f, script); s.ok ==> Encode(f)[..s.taken] == Encode(f)
  {
  }

  /** The kernel never reports a hard failure. */
  predicate Retryable(script: Outbox) {
    Refuse !in script
  }

  function Accepts(script: Outbox): nat {
    if script == [] then 0 else (if script[0].Accept? then 1 else 0) + Accepts(script[1..])
  }

  /** Every accepting answer moves at least one byte, so enough of them finish any write. */
  lemma {:induction false} TransmitSucceeds(len: nat, script: Outbox)
    requires Retryable(script) && Accepts(script) >= len
    ensures var s := Transmit(len, script);
            s.ok && Retryable(s.script) && Accepts(s.script) >= Accepts(script) - len
    decreases |script|
  {
    if len > 0 {
      assert ValidSend(script[0]);
      match script[0] {
        case Accept(n) =>
          var k := Min(n, len);
          TransmitSucceeds(len - k, script[1..]);
        case Refuse => assert false;
        case _ => TransmitSucceeds(len, script[1..]);
      }
    }
  }

  lemma TransmitFrameSucceeds(f: Frame, script: Outbox)
    requires Retryable(script) && Accepts(script) >= |Encode(f)|
    ensures var s := TransmitFrame(f, script);
            s.ok && Retryable(s.script) && Accepts(s.script) >= Accepts(script) - |Encode(f)|
  {
    hide Transmit;
    TransmitSucceeds(LL_HEADER_SIZE, script);
    TransmitSucceeds(|f.payload|, Transmit(LL_HEADER_SIZE, script).script);
  }

  lemma {:induction false} SendFramesSucceeds(fs: seq<Frame>, script: Outbox)
    requires Retryable(script) && Accepts(script) >= |EncodeAll(fs)|
    ensures var r := SendFrames(fs, script); r.wire == EncodeAll(fs) && r.ok
    decreases |fs|
  {
    hide TransmitFrame, Encode;
    if fs != [] {
      TransmitFrameSucceeds(fs[0], script);
      SendFramesSucceeds(fs[1..], TransmitFrame(fs[0], script).script);
    }
  }

  /** Whatever the kernel does, the bytes written are a prefix of the frames, all of them exactly on success. */
  lemma {:induction false} SendFramesPrefix(fs: seq<Frame>, script: Outbox)
    ensures var r := SendFrames(fs, script);
            r.wire <= EncodeAll(fs) && (r.ok <==> r.wire == EncodeAll(fs))
    decreases |fs|
  {
    hide TransmitFrame;
    if fs != [] {
      var s := TransmitFrame(fs[0], script);
      if s.ok {
        SendFramesPrefix(fs[1..], s.script);
        var r := SendFrames(fs[1..], s.script);
        assert Encode(fs[0]) + r.wire <= Encode(fs[0]) + EncodeAll(fs[1..]);
      } else {
        assert Encode(fs[0])[..s.taken] <= Encode(fs[0]);
      }
    }
  }

  /**
   Frames of at most 16 MiB, sent over a kernel that takes any part of each write and
   interrupts at will, and received in any pieces: both receivers report exactly those frames,
   in order, and keep nothing back.
   */
  lemma EndToEnd(fs: seq<Frame>, script: Outbox, cuts: seq<seq<byte>>, pyCuts: seq<seq<byte>>)
    requires forall f | f in fs :: Fits(f)
    requires SendFrames(fs, script).ok || (Retryable(script) && Accepts(script) >= |EncodeAll(fs)|)
    requires Flatten(cuts) == Flatten(pyCuts) == SendFrames(fs, script).wire
    ensures DecodeRun([], cuts) == Decoded(fs, [])
    ensures PyRun([], pyCuts) == Decoded(fs, [])
  {
    SendFramesPrefix(fs, script);
    if !SendFrames(fs, script).ok {
      SendFramesSucceeds(fs, script);
    }
    DeliveryExact(fs);
    ChunkInvariance([], cuts);
    assert [] + EncodeAll(fs) == EncodeAll(fs);
    TwinRunsAgree(cuts, pyCuts);
  }

  /**
   When the connection breaks part way, the receiver still reports a prefix of the frames sent:
   nothing is invented, reordered or duplicated.
   */
  lemma BrokenSendIsPrefix(fs: seq<Frame>, script: Outbox, cuts: seq<seq<byte>>)
    requires forall f | f in fs :: Fits(f)
    requires Flatten(cuts) == SendFrames(fs, script).wire
    ensures DecodeRun([], cuts).frames <= fs
  {
    SendFramesPrefix(fs, script);
    var wire := SendFrames(fs, script).wire;
    var tail := EncodeAll(fs)[|wire|..];
    assert wire + tail == EncodeAll(fs);
    ChunkInvariance([], cuts);
    assert [] + wire == wire;
    DecodeSplit(wire, tail);
    DeliveryExact(fs);
  }
}
