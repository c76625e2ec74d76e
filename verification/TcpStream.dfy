/**
 The TCP deframer as a function of the buffered bytes, and what it means for a byte stream
 that arrives in pieces.
 */
module TcpStream {
  import opened Bytes
  import opened FrameProtocol
  import opened Sequences

  /** The frames taken from the front of a buffer, and the bytes that stay in it. */
  datatype Decoded = Decoded(frames: seq<Frame>, rest: seq<byte>)

  /** One pass of the C++ receiver over its buffer. */
  function Decode(buf: seq<byte>): Decoded
    decreases |buf|
  {
    if |buf| < LL_HEADER_SIZE then Decoded([], buf)
    else if buf[0] != LL_SOF then Decode(buf[1..])
    else
      var len := U32At(buf, 2);
      if len > LL_MAX_PAYLOAD then Decode(buf[1..])
      else if |buf| < LL_HEADER_SIZE + len then Decoded([], buf)
      else
        var d := Decode(buf[LL_HEADER_SIZE + len..]);
        Decoded([Frame(buf[1], buf[LL_HEADER_SIZE..LL_HEADER_SIZE + len])] + d.frames, d.rest)
  }

  /** A frame that reaches the caller as a command. */
  predicate IsCommand(f: Frame) {
    f.ty == FRAME_COMMAND && |f.payload| >= 2
  }

  function CommandOf(f: Frame): seq<Command> {
    if IsCommand(f) then [Command(f.payload[0], f.payload[1])] else []
  }

  function Commands(fs: seq<Frame>): seq<Command> {
    if fs == [] then [] else CommandOf(fs[0]) + Commands(fs[1..])
  }

  lemma {:induction false} CommandsConcat(a: seq<Frame>, b: seq<Frame>)
    ensures Commands(a + b) == Commands(a) + Commands(b)
  {
    hide CommandOf;
    if a == [] {
      assert a + b == b;
    } else {
      assert (a + b)[1..] == a[1..] + b;
      CommandsConcat(a[1..], b);
      assert CommandOf(a[0]) + (Commands(a[1..]) + Commands(b)) == CommandOf(a[0]) + Commands(a[1..]) + Commands(b);
    }
  }

  // ----- chunking -----

  /** Decode `a`, keep its residue, decode again when `b` has arrived. */
  function Resume(d: Decoded, more: seq<byte>): Decoded {
    var d' := Decode(d.rest + more);
    Decoded(d.frames + d'.frames, d'.rest)
  }

  lemma U32AtPrefix(a: seq<byte>, b: seq<byte>, k: nat)
    requires k + 4 <= |a|
    ensures U32At(a + b, k) == U32At(a, k)
  {
  }

  /** Cutting a buffer anywhere and decoding in two goes is decoding it in one. */
  lemma {:induction false} DecodeSplit(a: seq<byte>, b: seq<byte>)
    ensures Decode(a + b) == Resume(Decode(a), b)
    decreases |a|
  {
    hide U32At;
    if |a| >= LL_HEADER_SIZE {
      U32AtPrefix(a, b, 2);
      var n := LL_HEADER_SIZE + U32At(a, 2);
      if a[0] != LL_SOF || U32At(a, 2) > LL_MAX_PAYLOAD {
        assert (a + b)[1..] == a[1..] + b;
        DecodeSplit(a[1..], b);
      } else if |a| >= n {
        assert (a + b)[n..] == a[n..] + b;
        assert (a + b)[LL_HEADER_SIZE..n] == a[LL_HEADER_SIZE..n];
        DecodeSplit(a[n..], b);
        var d := Decode(a[n..]);
        var f := Frame(a[1], a[LL_HEADER_SIZE..n]);
        assert [f] + (d.frames + Decode(d.rest + b).frames) == ([f] + d.frames) + Decode(d.rest + b).frames;
      }
    }
  }

  /** A run of receives: each chunk is appended to the residue and decoded. */
  function DecodeRun(rest: seq<byte>, chunks: seq<seq<byte>>): Decoded
    decreases chunks
  {
    if chunks == [] then Decoded([], rest)
    else
      var d := Decode(rest + chunks[0]);
      var r := DecodeRun(d.rest, chunks[1..]);
      Decoded(d.frames + r.frames, r.rest)
  }

  /** Decoding leaves nothing that a second decode would still take. */
  lemma {:induction false} DecodeIdempotent(a: seq<byte>)
    ensures Decode(Decode(a).rest) == Decoded([], Decode(a).rest)
    decreases |a|
  {
    if |a| >= LL_HEADER_SIZE {
      var n := LL_HEADER_SIZE + U32At(a, 2);
      if a[0] != LL_SOF || U32At(a, 2) > LL_MAX_PAYLOAD {
        DecodeIdempotent(a[1..]);
      } else if |a| >= n {
        DecodeIdempotent(a[n..]);
      }
    }
  }

  /**
   Chunk invariance: however the stream is cut, the frames delivered over the run and the
   residue at its end are those of one decode of everything received.
   */
  lemma {:induction false} ChunkInvariance(rest: seq<byte>, chunks: seq<seq<byte>>)
    requires Decode(rest) == Decoded([], rest)
    ensures DecodeRun(rest, chunks) == Decode(rest + Flatten(chunks))
    decreases |chunks|
  {
    hide Decode;
    if chunks == [] {
      assert rest + [] == rest;
    } else {
      var a := rest + chunks[0];
      DecodeIdempotent(a);
      ChunkInvariance(Decode(a).rest, chunks[1..]);
      DecodeSplit(a, Flatten(chunks[1..]));
      assert a + Flatten(chunks[1..]) == rest + Flatten(chunks);
    }
  }

  /** What is kept between receives is less than one maximal frame, and a half frame at that. */
  lemma {:induction false} ResidueBound(a: seq<byte>)
    ensures |Decode(a).rest| < 6 + 16777216
    ensures forall f | f in Decode(a).frames :: |f.payload| <= 16777216
    decreases |a|
  {
    if |a| >= LL_HEADER_SIZE {
      var n := LL_HEADER_SIZE + U32At(a, 2);
      if a[0] != LL_SOF || U32At(a, 2) > LL_MAX_PAYLOAD {
        ResidueBound(a[1..]);
      } else if |a| >= n {
        ResidueBound(a[n..]);
      }
    }
  }

  // ----- sent frames come out again -----

  predicate Fits(f: Frame) {
    |f.payload| <= LL_MAX_PAYLOAD
  }

  /** The length field of an encoded frame reads back as the payload length modulo 2^32. */
  lemma LengthField(f: Frame, more: seq<byte>)
    ensures var buf := Encode(f) + more;
            buf[0] == LL_SOF && buf[1] == f.ty && U32At(buf, 2) == |f.payload| % TWO_32
  {
    hide Le32;
    var buf := Encode(f) + more;
    assert [buf[2], buf[3], buf[4], buf[5]] == Le32(|f.payload|);
    Le32RoundTrip(|f.payload|);
  }

  lemma DecodeOne(f: Frame, more: seq<byte>)
    requires Fits(f)
    ensures Decode(Encode(f) + more) == Decoded([f] + Decode(more).frames, Decode(more).rest)
  {
    hide Le32;
    var buf := Encode(f) + more;
    var n := |f.payload|;
    LengthField(f, more);
    assert U32At(buf, 2) == n;
    assert buf[LL_HEADER_SIZE..LL_HEADER_SIZE + n] == f.payload;
    assert buf[LL_HEADER_SIZE + n..] == more;
  }

  lemma {:induction false} DecodeAll(fs: seq<Frame>, more: seq<byte>)
    requires forall f | f in fs :: Fits(f)
    ensures Decode(EncodeAll(fs) + more) == Decoded(fs + Decode(more).frames, Decode(more).rest)
  {
    hide Le32, Decode, Header;
    if fs == [] {
      assert EncodeAll(fs) + more == more;
      assert fs + Decode(more).frames == Decode(more).frames;
    } else {
      assert EncodeAll(fs) + more == Encode(fs[0]) + (EncodeAll(fs[1..]) + more);
      DecodeOne(fs[0], EncodeAll(fs[1..]) + more);
      DecodeAll(fs[1..], more);
      assert fs + Decode(more).frames == [fs[0]] + (fs[1..] + Decode(more).frames);
    }
  }

  /** Frames put on the wire back to back are received exactly, if and only if none is over 16 MiB. */
  lemma DeliveryExact(fs: seq<Frame>)
    ensures Decode(EncodeAll(fs)) == Decoded(fs, []) <==> forall f | f in fs :: |f.payload| <= 16777216
  {
    if forall f | f in fs :: Fits(f) {
      DecodeAll(fs, []);
      assert EncodeAll(fs) + [] == EncodeAll(fs);
      assert fs + [] == fs;
    } else {
      ResidueBound(EncodeAll(fs));
    }
  }
}
