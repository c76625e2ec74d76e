/** The Python receiver: a second, independently written deframer for the TCP link, and its tally. */
module FrameParserCheck {
  import opened Bytes
  import opened FrameProtocol
  import opened Sequences
  import opened TcpStream

  /** buf.find(SOF, off), with |buf| standing for Python's -1. */
  function FindSof(buf: seq<byte>, off: nat): (r: nat)
    requires off <= |buf|
    ensures off <= r <= |buf|
    ensures forall k | off <= k < r :: buf[k] != LL_SOF
    ensures r < |buf| ==> buf[r] == LL_SOF
    decreases |buf| - off
  {
    if off == |buf| || buf[off] == LL_SOF then off else FindSof(buf, off + 1)
  }

  function DropToSof(buf: seq<byte>): seq<byte> {
    buf[FindSof(buf, 0)..]
  }

  /** parse_stream: the frames it dispatches and the bytes it returns. */
  function PyDecode(buf: seq<byte>): Decoded
    decreases |buf|
  {
    var b := DropToSof(buf);
    if |b| < LL_HEADER_SIZE then Decoded([], b)
    else
      var length := U32At(b, 2);
      if length > LL_MAX_PAYLOAD then PyDecode(b[1..])
      else if |b| < LL_HEADER_SIZE + length then Decoded([], b)
      else
        var d := PyDecode(b[LL_HEADER_SIZE + length..]);
        Decoded([Frame(b[1], b[LL_HEADER_SIZE..LL_HEADER_SIZE + length])] + d.frames, d.rest)
  }

  // ----- the two parsers agree -----

  lemma {:induction false} FindSofShift(buf: seq<byte>, off: nat)
    requires 0 < off <= |buf|
    ensures FindSof(buf, off) == FindSof(buf[1..], off - 1) + 1
    decreases |buf| - off
  {
    if off < |buf| && buf[off] != LL_SOF {
      FindSofShift(buf, off + 1);
    }
  }

  lemma DropSkip(buf: seq<byte>)
    requires buf != [] && buf[0] != LL_SOF
    ensures DropToSof(buf) == DropToSof(buf[1..])
  {
    FindSofShift(buf, 1);
  }

  lemma DropAtSof(buf: seq<byte>)
    requires buf == [] || buf[0] == LL_SOF
    ensures DropToSof(buf) == buf
  {
  }

  /** Same frames on every buffer; the Python residue is the C++ residue with its leading noise gone. */
  lemma {:induction false} TwinsAgree(buf: seq<byte>)
    ensures PyDecode(buf) == Decoded(Decode(buf).frames, DropToSof(Decode(buf).rest))
    decreases |buf|
  {
    hide U32At, DropToSof;
    if |buf| == 0 || buf[0] == LL_SOF {
      DropAtSof(buf);
      if |buf| >= LL_HEADER_SIZE {
        var n := LL_HEADER_SIZE + U32At(buf, 2);
        if U32At(buf, 2) > LL_MAX_PAYLOAD {
          TwinsAgree(buf[1..]);
        } else if |buf| >= n {
          TwinsAgree(buf[n..]);
        }
      }
    } else {
      DropSkip(buf);
      assert PyDecode(buf) == PyDecode(buf[1..]);
      TwinsAgree(buf[1..]);
      if |buf| <= LL_HEADER_SIZE {
        assert Decode(buf[1..]) == Decoded([], buf[1..]);
      }
    }
  }

  function PyRun(rest: seq<byte>, chunks: seq<seq<byte>>): Decoded
    decreases chunks
  {
    if chunks == [] then Decoded([], rest)
    else
      var d := PyDecode(rest + chunks[0]);
      var r := PyRun(d.rest, chunks[1..]);
      Decoded(d.frames + r.frames, r.rest)
  }

  /** Leading noise that is dropped now or later makes no difference. */
  lemma {:induction false} DropConcat(a: seq<byte>, b: seq<byte>)
    ensures DropToSof(DropToSof(a) + b) == DropToSof(a + b)
    decreases |a|
  {
    hide DropToSof;
    if a == [] || a[0] == LL_SOF {
      DropAtSof(a);
    } else {
      DropSkip(a);
      DropSkip(a + b);
      assert (a + b)[1..] == a[1..] + b;
      DropConcat(a[1..], b);
    }
  }

  lemma PyDecodeDrop(a: seq<byte>, b: seq<byte>)
    ensures PyDecode(DropToSof(a) + b) == PyDecode(a + b)
  {
    hide DropToSof;
    DropConcat(a, b);
  }

  lemma PyDecodeSplit(a: seq<byte>, b: seq<byte>)
    ensures var d := PyDecode(a);
            var d' := PyDecode(d.rest + b);
            PyDecode(a + b) == Decoded(d.frames + d'.frames, d'.rest)
  {
    hide Decode, PyDecode, DropToSof;
    TwinsAgree(a);
    TwinsAgree(a + b);
    DecodeSplit(a, b);
    PyDecodeDrop(Decode(a).rest, b);
    TwinsAgree(Decode(a).rest + b);
  }

  lemma {:induction false} PyRunInvariance(a: seq<byte>, chunks: seq<seq<byte>>)
    ensures var r := PyRun(PyDecode(a).rest, chunks);
            PyDecode(a + Flatten(chunks)) == Decoded(PyDecode(a).frames + r.frames, r.rest)
    decreases |chunks|
  {
    hide PyDecode;
    var d := PyDecode(a);
    if chunks == [] {
      assert a + [] == a && d.frames + [] == d.frames;
    } else {
      var c := chunks[0];
      PyDecodeSplit(a, c);
      PyRunInvariance(a + c, chunks[1..]);
      assert (a + c) + Flatten(chunks[1..]) == a + Flatten(chunks);
      var d' := PyDecode(d.rest + c);
      var r := PyRun(d'.rest, chunks[1..]);
      assert (d.frames + d'.frames) + r.frames == d.frames + (d'.frames + r.frames);
    }
  }

  /** One stream, any two ways of cutting it: both receivers report the same frames and commands. */
  lemma TwinRunsAgree(cuts: seq<seq<byte>>, pyCuts: seq<seq<byte>>)
    requires Flatten(cuts) == Flatten(pyCuts)
    ensures var cpp := DecodeRun([], cuts);
            var py := PyRun([], pyCuts);
            && py.frames == cpp.frames
            && Commands(py.frames) == Commands(cpp.frames)
            && py.rest == DropToSof(cpp.rest)
  {
    var stream := Flatten(cuts);
    ChunkInvariance([], cuts);
    assert [] + stream == stream;
    PyRunInvariance([], pyCuts);
    assert PyDecode([]) == Decoded([], []);
    assert [] + PyRun([], pyCuts).frames == PyRun([], pyCuts).frames;
    TwinsAgree(stream);
  }

  // ----- the tally -----

  predicate StartsJpeg(payload: seq<byte>) {
    |payload| >= 2 && payload[0] == 0xFF && payload[1] == 0xD8
  }

  /** The frames the script counts as bad. */
  predicate IsBad(f: Frame) {
    || (f.ty == FRAME_SENSOR && |f.payload| < LL_SENSOR_PAYLOAD_SIZE)
    || (f.ty == FRAME_VIDEO && !StartsJpeg(f.payload))
  }

  function CountType(fs: seq<Frame>, ty: byte): nat {
    if fs == [] then 0 else (if fs[0].ty == ty then 1 else 0) + CountType(fs[1..], ty)
  }

  function CountBad(fs: seq<Frame>): nat {
    if fs == [] then 0 else (if IsBad(fs[0]) then 1 else 0) + CountBad(fs[1..])
  }

  lemma {:induction false} CountConcat(a: seq<Frame>, b: seq<Frame>, ty: byte)
    ensures CountType(a + b, ty) == CountType(a, ty) + CountType(b, ty)
    ensures CountBad(a + b) == CountBad(a) + CountBad(b)
  {
    if a == [] {
      assert a + b == b;
    } else {
      assert (a + b)[1..] == a[1..] + b;
      CountConcat(a[1..], b, ty);
    }
  }

  lemma {:induction false} CountZero(fs: seq<Frame>, ty: byte)
    ensures CountType(fs, ty) == 0 <==> forall f | f in fs :: f.ty != ty
    ensures CountBad(fs) == 0 <==> forall f | f in fs :: !IsBad(f)
  {
    if fs != [] {
      CountZero(fs[1..], ty);
      assert fs == [fs[0]] + fs[1..];
    }
  }

  /** The stats dictionary; `seen` is the list of frames it has been told about. */
  class Stats {
    var text: nat
    var sensor: nat
    var video: nat
    var thermal: nat
    var bad: nat
    ghost var seen: seq<Frame>

    ghost predicate Valid()
      reads this
    {
      && text == CountType(seen, FRAME_TEXT)
      && sensor == CountType(seen, FRAME_SENSOR)
      && video == CountType(seen, FRAME_VIDEO)
      && thermal == CountType(seen, FRAME_THERMAL)
      && bad == CountBad(seen)
    }

    constructor ()
      ensures Valid() && seen == []
    {
      text, sensor, video, thermal, bad, seen := 0, 0, 0, 0, 0, [];
    }

    method Dispatch(ftype: byte, payload: seq<byte>)
      requires Valid()
      modifies this
      ensures Valid() && seen == old(seen) + [Frame(ftype, payload)]
      ensures text == old(text) + (if ftype == 0x30 then 1 else 0) && sensor == old(sensor) + (if ftype == 0x01 then 1 else 0)
      ensures video == old(video) + (if ftype == 0x10 then 1 else 0) && thermal == old(thermal) + (if ftype == 0x20 then 1 else 0)
      ensures bad == old(bad)
                     + (if ftype == 0x01 && |payload| < 40 then 1
                        else if ftype == 0x10 && !(|payload| >= 2 && payload[0] == 0xFF && payload[1] == 0xD8) then 1 else 0)
    {
      ghost var f := Frame(ftype, payload);
      CountConcat(seen, [f], FRAME_TEXT);
      CountConcat(seen, [f], FRAME_SENSOR);
      CountConcat(seen, [f], FRAME_VIDEO);
      CountConcat(seen, [f], FRAME_THERMAL);
      if ftype == FRAME_TEXT {
        text := text + 1;
      } else if ftype == FRAME_SENSOR {
        sensor := sensor + 1;
        if |payload| < LL_SENSOR_PAYLOAD_SIZE {
          bad := bad + 1;
        }
      } else if ftype == FRAME_VIDEO {
        video := video + 1;
        if !StartsJpeg(payload) {
          bad := bad + 1;
        }
      } else if ftype == FRAME_THERMAL {
        thermal := thermal + 1;
      }
      seen := seen + [f];
    }

    /** The script's final answer, in terms of the frames themselves. */
    method Verdict() returns (ok: bool)
      requires Valid()
      ensures ok <==>
                && (forall f | f in seen && f.ty == 0x01 :: |f.payload| >= 40)
                && (forall f | f in seen && f.ty == 0x10 :: |f.payload| >= 2 && f.payload[0] == 0xFF && f.payload[1] == 0xD8)
                && (exists f | f in seen :: f.ty == 0x10 || f.ty == 0x30)
    {
      CountZero(seen, FRAME_VIDEO);
      CountZero(seen, FRAME_TEXT);
      ok := bad == 0 && (video > 0 || text > 0);
    }
  }

  /** The parse_stream loop has dispatched `taken` and stands at `off`. */
  ghost predicate PyParsedTo(buf: seq<byte>, off: nat, taken: seq<Frame>) {
    && off <= |buf|
    && PyDecode(buf).frames == taken + PyDecode(buf[off..]).frames
    && PyDecode(buf).rest == PyDecode(buf[off..]).rest
  }

  lemma PyParseStart(buf: seq<byte>)
    ensures PyParsedTo(buf, 0, [])
  {
    assert buf[0..] == buf;
    assert [] + PyDecode(buf).frames == PyDecode(buf).frames;
  }

  lemma {:induction false} DropFrom(buf: seq<byte>, off: nat)
    requires off <= |buf|
    ensures DropToSof(buf[off..]) == buf[FindSof(buf, off)..]
    decreases |buf| - off
  {
    hide DropToSof;
    if off == |buf| || buf[off] == LL_SOF {
      DropAtSof(buf[off..]);
    } else {
      DropSkip(buf[off..]);
      assert buf[off..][1..] == buf[off + 1..];
      DropFrom(buf, off + 1);
    }
  }

  /** Moving `off` up to the next SOF changes nothing. */
  lemma PyParseSync(buf: seq<byte>, off: nat, taken: seq<Frame>)
    requires PyParsedTo(buf, off, taken)
    ensures PyParsedTo(buf, FindSof(buf, off), taken)
  {
    hide DropToSof;
    DropFrom(buf, off);
    DropAtSof(buf[FindSof(buf, off)..]);
  }

  lemma PyParseSkip(buf: seq<byte>, off: nat, taken: seq<Frame>)
    requires PyParsedTo(buf, off, taken) && |buf| - off >= LL_HEADER_SIZE
    requires buf[off] == LL_SOF && U32At(buf, off + 2) > LL_MAX_PAYLOAD
    ensures PyParsedTo(buf, off + 1, taken)
  {
    hide DropToSof;
    var here := buf[off..];
    DropAtSof(here);
    assert U32At(buf, off + 2) == U32At(here, 2);
    assert here[1..] == buf[off + 1..];
  }

  lemma PyParseTake(buf: seq<byte>, off: nat, taken: seq<Frame>, f: Frame)
    requires PyParsedTo(buf, off, taken) && |buf| - off >= LL_HEADER_SIZE
    requires buf[off] == LL_SOF && U32At(buf, off + 2) <= LL_MAX_PAYLOAD
    requires |buf| - off >= LL_HEADER_SIZE + U32At(buf, off + 2)
    requires f == Frame(buf[off + 1], buf[off + LL_HEADER_SIZE..off + LL_HEADER_SIZE + U32At(buf, off + 2)])
    ensures PyParsedTo(buf, off + LL_HEADER_SIZE + U32At(buf, off + 2), taken + [f])
  {
    hide DropToSof, FromLe32;
    var here := buf[off..];
    DropAtSof(here);
    var n := LL_HEADER_SIZE + U32At(buf, off + 2);
    assert U32At(buf, off + 2) == U32At(here, 2);
    assert here[n..] == buf[off + n..];
    assert here[LL_HEADER_SIZE..n] == f.payload;
    var d := PyDecode(here[n..]);
    assert taken + ([f] + d.frames) == (taken + [f]) + d.frames;
  }

  lemma PyParseStop(buf: seq<byte>, off: nat, taken: seq<Frame>)
    requires PyParsedTo(buf, off, taken) && (off == |buf| || buf[off] == LL_SOF)
    requires |buf| - off < LL_HEADER_SIZE || (
               U32At(buf, off + 2) <= LL_MAX_PAYLOAD && |buf| - off < LL_HEADER_SIZE + U32At(buf, off + 2))
    ensures PyDecode(buf) == Decoded(taken, buf[off..])
  {
    hide DropToSof;
    var here := buf[off..];
    DropAtSof(here);
    if |here| >= LL_HEADER_SIZE {
      assert U32At(buf, off + 2) == U32At(here, 2);
    }
    assert taken + [] == taken;
  }

  method ParseStream(buf: seq<byte>, stats: Stats) returns (rest: seq<byte>)
    requires stats.Valid()
    modifies stats
    ensures stats.Valid()
    ensures stats.seen == old(stats.seen) + PyDecode(buf).frames
    ensures rest == PyDecode(buf).rest
  {
    hide PyParsedTo, PyDecode, U32At, Stats.Valid;
    var off := 0;
    var n := |buf|;
    ghost var taken: seq<Frame> := [];
    PyParseStart(buf);
    while true
      invariant off <= n && stats.Valid()
      invariant PyParsedTo(buf, off, taken)
      invariant stats.seen == old(stats.seen) + taken
      decreases n - off
    {
      var sof := FindSof(buf, off);
      PyParseSync(buf, off, taken);
      off := sof;
      if sof == n {
        PyParseStop(buf, off, taken);
        return [];
      }
      if n - off < LL_HEADER_SIZE {
        PyParseStop(buf, off, taken);
        return buf[off..];
      }
      var ftype := buf[off + 1];
      var length := U32At(buf, off + 2);
      if length > LL_MAX_PAYLOAD {
        PyParseSkip(buf, off, taken);
        off := off + 1;
        continue;
      }
      if n - off < LL_HEADER_SIZE + length {
        PyParseStop(buf, off, taken);
        return buf[off..];
      }
      var payload := buf[off + LL_HEADER_SIZE..off + LL_HEADER_SIZE + length];
      PyParseTake(buf, off, taken, Frame(ftype, payload));
      off := off + LL_HEADER_SIZE + length;
      stats.Dispatch(ftype, payload);
      taken := taken + [Frame(ftype, payload)];
    }
  }
}
