/**
 A session by byte values: its frames turn by turn, straight from the grabs and the clock readings, and
 when it ends. Nothing here is said through the constants or the frame lists of the application.
 */
module SessionWire {
  import opened Bytes
  import opened FrameProtocol
  import opened Application
  import opened Json
  import opened Decimal
  import Timing
  import Camera = CameraManager

  function Zeros(n: nat): (r: seq<byte>)
    ensures |r| == n
  {
    seq(n, _ => 0)
  }

  /** The 40 bytes of telemetry at millisecond t: the time stamp, 12000 millivolts, mode 3, and zeros. */
  function TelemetryBytes(t: nat): (r: seq<byte>)
    ensures |r| == 40
  {
    [(t % 256) as byte, (t / 256 % 256) as byte, (t / 65536 % 256) as byte, (t / 16777216 % 256) as byte]
    + Zeros(26) + [0xE0, 0x2E, 3] + Zeros(7)
  }

  /**
   What the turns of the loop send: the bytes grabbed, if any, as a frame of type 0x10, and then the telemetry
   as a frame of type 0x01, if the 32-bit clock has moved by a second since the last one.
   */
  function Turns(grabs: seq<Camera.Grab>, readings: seq<nat>, last: nat): seq<Frame>
    decreases |grabs|
  {
    if grabs == [] then []
    else
      (if grabs[0].Got? && grabs[0].data != [] then [Frame(0x10, grabs[0].data)] else [])
      + (if readings == [] then []
         else if (readings[0] - last) % 4294967296 >= 1000 then
           [Frame(0x01, TelemetryBytes(readings[0]))] + Turns(grabs[1..], readings[1..], readings[0])
         else Turns(grabs[1..], readings[1..], last))
  }

  /** The reading that sent the latest telemetry. */
  function LastSent(readings: seq<nat>, last: nat): nat {
    if readings == [] then last
    else LastSent(readings[1..], if (readings[0] - last) % 4294967296 >= 1000 then readings[0] else last)
  }

  lemma {:induction false} LastSentNext(readings: seq<nat>, r: nat, last: nat)
    ensures var l := LastSent(readings, last);
            LastSent(readings + [r], last) == if (r - l) % 4294967296 >= 1000 then r else l
    decreases |readings|
  {
    var all := readings + [r];
    if readings == [] {
      assert all[1..] == [] && all[0] == r;
    } else {
      assert all[1..] == readings[1..] + [r] && all[0] == readings[0];
      LastSentNext(readings[1..], r, if (readings[0] - last) % 4294967296 >= 1000 then readings[0] else last);
    }
  }

  /** Turns on its first turn. */
  lemma TurnsFirst(grabs: seq<Camera.Grab>, readings: seq<nat>, last: nat)
    requires grabs != []
    ensures var next := if readings != [] && (readings[0] - last) % 4294967296 >= 1000 then readings[0] else last;
            Turns(grabs, readings, last)
            == VideoOf(grabs[0])
               + (if readings != [] && (readings[0] - last) % 4294967296 >= 1000 then
                    [Frame(0x01, TelemetryBytes(readings[0]))]
                  else [])
               + (if readings == [] then [] else Turns(grabs[1..], readings[1..], next))
  {
    hide TelemetryBytes;
  }

  lemma {:induction false} TurnsGrab(grabs: seq<Camera.Grab>, readings: seq<nat>, last: nat, g: Camera.Grab)
    requires |grabs| == |readings|
    ensures Turns(grabs + [g], readings, last) == Turns(grabs, readings, last) + VideoOf(g)
    decreases |grabs|
  {
    var all := grabs + [g];
    TurnsFirst(all, readings, last);
    if grabs == [] {
      assert all[0] == g && Turns([], readings, last) == [];
      hide Turns, VideoOf;
    } else {
      assert all[1..] == grabs[1..] + [g] && all[0] == grabs[0];
      hide Turns, VideoOf, TelemetryBytes;
      TurnsFirst(grabs, readings, last);
      TurnsGrab(grabs[1..], readings[1..], if (readings[0] - last) % 4294967296 >= 1000 then readings[0] else last, g);
    }
  }

  lemma FirstTick(g: Camera.Grab, last: nat, r: nat)
    ensures Turns([g], [r], last)
            == Turns([g], [], last) + (if (r - last) % 4294967296 >= 1000 then [Frame(0x01, TelemetryBytes(r))] else [])
  {
    hide TelemetryBytes;
    assert [g][1..] == [] && [r][1..] == [];
    assert Turns([], [], last) == [] && Turns([], [], r) == [];
  }

  lemma {:induction false} TurnsTick(grabs: seq<Camera.Grab>, readings: seq<nat>, last: nat, r: nat)
    requires |grabs| == |readings| + 1
    ensures Turns(grabs, readings + [r], last)
            == Turns(grabs, readings, last)
               + (if (r - LastSent(readings, last)) % 4294967296 >= 1000 then [Frame(0x01, TelemetryBytes(r))] else [])
    decreases |grabs|
  {
    hide TelemetryBytes, VideoOf, Turns;
    var all := readings + [r];
    if readings == [] {
      assert grabs == [grabs[0]] && all == [r];
      FirstTick(grabs[0], last, r);
    } else {
      TurnsFirst(grabs, all, last);
      TurnsFirst(grabs, readings, last);
      assert all[1..] == readings[1..] + [r] && all[0] == readings[0];
      TurnsTick(grabs[1..], readings[1..], if (readings[0] - last) % 4294967296 >= 1000 then readings[0] else last, r);
    }
  }

  // ----- the application's clock and telemetry -----

  lemma ElapsedIs(last: nat, now: nat)
    requires last <= now
    ensures Timing.Elapsed(last * Timing.NS_PER_MS, now * Timing.NS_PER_MS) == (now - last) % 4294967296
  {
    assert (now * Timing.NS_PER_MS - last * Timing.NS_PER_MS) / Timing.NS_PER_MS == now - last;
  }

  lemma NoReadings()
    ensures Timing.Monotone(0, []) && Timing.LastOf(0, Timing.Firings(1000, 0, [])) == 0
  {
  }

  lemma {:induction false} LastFiring(readings: seq<nat>)
    requires Timing.Monotone(0, Nanoseconds(readings))
    ensures Timing.LastOf(0, Timing.Firings(1000, 0, Nanoseconds(readings))) == LastSent(readings, 0) * Timing.NS_PER_MS
    decreases |readings|
  {
    hide Timing.Elapsed, Timing.Firings, Timing.Monotone;
    if readings != [] {
      var k := |readings| - 1;
      var before, r := readings[..k], readings[k];
      assert readings == before + [r];
      assert Nanoseconds(readings) == Nanoseconds(before) + [r * Timing.NS_PER_MS];
      Timing.FiringsAppend(1000, 0, Nanoseconds(before), r * Timing.NS_PER_MS);
      LastFiring(before);
      LastSentNext(before, r, 0);
      ElapsedIs(LastSent(before, 0), r);
    } else {
      NoReadings();
    }
  }

  lemma FiresIs(readings: seq<nat>, r: nat)
    requires Timing.Monotone(0, Nanoseconds(readings) + [r * Timing.NS_PER_MS])
    ensures Fires(Nanoseconds(readings), r * Timing.NS_PER_MS) <==> (r - LastSent(readings, 0)) % 4294967296 >= 1000
  {
    hide Timing.Elapsed, Timing.Firings, Timing.Monotone, Nanoseconds;
    Timing.FiringsAppend(1000, 0, Nanoseconds(readings), r * Timing.NS_PER_MS);
    LastFiring(readings);
    ElapsedIs(LastSent(readings, 0), r);
  }

  lemma ZeroWords()
    ensures Le16(0) == Zeros(2) && Le32(0) == Zeros(4) && Le16(12000) == [0xE0, 0x2E]
    ensures forall m: nat, n: nat :: Zeros(m) + Zeros(n) == Zeros(m + n)
  {
  }

  lemma SameDigits(a: seq<byte>, b: seq<byte>)
    requires |a| == |b| == 4 && FromLe32(a) == FromLe32(b)
    ensures a == b
  {
    var (a1, a2, a3) := (a[1] as nat, a[2] as nat, a[3] as nat);
    var (b1, b2, b3) := (b[1] as nat, b[2] as nat, b[3] as nat);
    LastDigit(a[0], a1 + 256 * (a2 + 256 * a3), b[0], b1 + 256 * (b2 + 256 * b3));
    LastDigit(a[1], a2 + 256 * a3, b[1], b2 + 256 * b3);
    LastDigit(a[2], a3, b[2], b3);
  }

  lemma LastDigit(a: byte, m: nat, b: byte, n: nat)
    requires a as nat + 256 * m == b as nat + 256 * n
    ensures a == b && m == n
  {
  }

  /** Cutting to 32 bits first changes none of the four bytes. */
  lemma Low32(t: nat)
    ensures Le32(t % 4294967296) == Le32(t)
  {
    hide Le32, FromLe32;
    Le32RoundTrip(t);
    Le32RoundTrip(t % 4294967296);
    assert t % 4294967296 % TWO_32 == t % TWO_32;
    SameDigits(Le32(t), Le32(t % 4294967296));
  }

  lemma StampBytes(t: nat)
    ensures Le32(t) == [(t % 256) as byte, (t / 256 % 256) as byte, (t / 65536 % 256) as byte, (t / 16777216 % 256) as byte]
  {
  }

  lemma EnvironmentOf(t: nat)
    requires t < TWO_32
    ensures EnvironmentBytes(Telemetry(t)) == Le32(t) + Zeros(12)
    ensures MotionBytes(Telemetry(t)) == Zeros(14) + [0xE0, 0x2E]
    ensures StatusBytes(Telemetry(t)) == [3] + Zeros(7)
  {
    ZeroWords();
    hide Le16, Le32;
    assert Zeros(4) + Zeros(4) + Zeros(2) + Zeros(2) + Zeros(2) + [0xE0, 0x2E] == Zeros(14) + [0xE0, 0x2E];
    assert Le32(t) + Zeros(2) + Zeros(2) + Zeros(2) + Zeros(4) + Zeros(2) == Le32(t) + Zeros(12);
  }

  lemma SensorFrameIs(t: nat)
    ensures SensorFrame(t * Timing.NS_PER_MS) == Frame(0x01, TelemetryBytes(t))
  {
    assert t * Timing.NS_PER_MS / Timing.NS_PER_MS == t;
    StampBytes(t);
    Low32(t);
    EnvironmentOf(t % 4294967296);
    hide Telemetry, EnvironmentBytes, MotionBytes, StatusBytes, Le32;
    var e := Le32(t % 4294967296);
    assert e + Zeros(12) + (Zeros(14) + [0xE0, 0x2E]) + ([3] + Zeros(7)) == e + Zeros(26) + [0xE0, 0x2E, 3] + Zeros(7);
  }

  /** What a reader of the telemetry finds in it. */
  lemma TelemetryRead(t: nat)
    ensures var d := UnpackSensor(TelemetryBytes(t));
            d == SensorData((t % 4294967296) as uint32, 0, 0, 0, 0, 0, 0, 0, 0, 0, 0, 12000, 3, 0, 0, 0, 0, 0, 0, 0)
  {
    hide TelemetryBytes, SensorPayload, UnpackSensor;
    SensorFrameIs(t);
    assert t * Timing.NS_PER_MS / Timing.NS_PER_MS == t;
    SensorRoundTrip(Telemetry(t % 4294967296));
  }

  // ----- whole sessions -----

  /** The frame list of the application is the turns. */
  lemma {:induction false} FramesAreTurns(grabs: seq<Camera.Grab>, readings: seq<nat>)
    requires |readings| <= |grabs| <= |readings| + 1 && Timing.Monotone(0, Nanoseconds(readings))
    ensures FramesOf(grabs, Nanoseconds(readings)) == Turns(grabs, readings, 0)
    decreases |grabs| + |readings|
  {
    hide VideoOf, SensorFrame, TelemetryBytes, Fires, Turns, FramesOf, Timing.Monotone, Timing.Firings;
    if grabs == [] {
      NoTurns(readings);
    } else if |grabs| > |readings| {
      var k := |grabs| - 1;
      assert grabs == grabs[..k] + [grabs[k]];
      FramesAreTurns(grabs[..k], readings);
      TurnsGrab(grabs[..k], readings, 0, grabs[k]);
      FramesAfterGrab(grabs[..k], Nanoseconds(readings), grabs[k]);
    } else {
      var k := |readings| - 1;
      var before, r := readings[..k], readings[k];
      assert readings == before + [r];
      assert Nanoseconds(readings) == Nanoseconds(before) + [r * Timing.NS_PER_MS];
      Timing.MonotoneParts(0, Nanoseconds(before), r * Timing.NS_PER_MS);
      FramesAreTurns(grabs, before);
      TurnsTick(grabs, before, 0, r);
      FramesAfterTick(grabs, Nanoseconds(before), r * Timing.NS_PER_MS);
      FiresIs(before, r);
      SensorFrameIs(r);
    }
  }

  lemma NoTurns(readings: seq<nat>)
    ensures Turns([], readings, 0) == [] && FramesOf([], []) == [] && Nanoseconds([]) == []
  {
  }

  /** The frames of every session: turn by turn the picture and then the telemetry, nothing else. */
  lemma SentExact(log: Log, s: Script, written: seq<byte>)
    requires Proper(log, s, written)
    ensures |log.ticks| <= |s.readings| && |log.ticks| <= |log.grabs| <= |log.ticks| + 1
    ensures log.sent == Turns(log.grabs, s.readings[..|log.ticks|], 0)
  {
    hide Sending, Ending, Reporting, FramesOf, Timing.Monotone, Timing.Firings, SensorFrames, SensorFramesAt, Camera.Grabs;
    FramesAreTurns(log.grabs, s.readings[..|log.ticks|]);
  }

  /** The payloads of the frames of one type, in order. */
  function Payloads(fs: seq<Frame>, ty: byte): seq<seq<byte>> {
    if fs == [] then []
    else (if fs[0].ty == ty then [fs[0].payload] else []) + Payloads(fs[1..], ty)
  }

  /** The pictures grabbed, in order, the empty ones left out. */
  function Pictures(grabs: seq<Camera.Grab>): seq<seq<byte>> {
    if grabs == [] then []
    else (if grabs[0].Got? && grabs[0].data != [] then [grabs[0].data] else []) + Pictures(grabs[1..])
  }

  /** The readings at which telemetry went out. */
  function Reports(readings: seq<nat>, last: nat): seq<seq<byte>> {
    if readings == [] then []
    else if (readings[0] - last) % 4294967296 >= 1000 then [TelemetryBytes(readings[0])] + Reports(readings[1..], readings[0])
    else Reports(readings[1..], last)
  }

  lemma {:induction false} PayloadsConcat(a: seq<Frame>, b: seq<Frame>, ty: byte)
    ensures Payloads(a + b, ty) == Payloads(a, ty) + Payloads(b, ty)
  {
    if a == [] {
      assert a + b == b;
    } else {
      assert (a + b)[1..] == a[1..] + b;
      PayloadsConcat(a[1..], b, ty);
    }
  }

  lemma OnePayload(ty: byte, p: seq<byte>, u: byte)
    ensures Payloads([], u) == [] && Payloads([Frame(ty, p)], u) == if ty == u then [p] else []
  {
    assert [Frame(ty, p)][1..] == [];
  }

  lemma {:induction false} TurnsPayloads(grabs: seq<Camera.Grab>, readings: seq<nat>, last: nat, ty: byte)
    requires |readings| <= |grabs| <= |readings| + 1 && (ty == 0x10 || ty == 0x01)
    ensures Payloads(Turns(grabs, readings, last), ty) == if ty == 0x10 then Pictures(grabs) else Reports(readings, last)
    decreases |grabs|
  {
    hide TelemetryBytes, Payloads;
    OnePayload(ty, [], ty);
    if grabs != [] {
      var g := grabs[0];
      var video := if g.Got? && g.data != [] then [Frame(0x10, g.data)] else [];
      if g.Got? {
        OnePayload(0x10, g.data, ty);
      }
      if readings == [] {
        assert video + [] == video && grabs[1..] == [];
      } else {
        var t := readings[0];
        OnePayload(0x01, TelemetryBytes(t), ty);
        var due := (t - last) % 4294967296 >= 1000;
        var report := if due then [Frame(0x01, TelemetryBytes(t))] else [];
        var rest := Turns(grabs[1..], readings[1..], if due then t else last);
        TurnsPayloads(grabs[1..], readings[1..], if due then t else last, ty);
        PayloadsConcat(video, report + rest, ty);
        PayloadsConcat(report, rest, ty);
        assert [] + rest == rest;
      }
    }
  }

  /** The video of a session is exactly what the camera gave, byte for byte, and its telemetry what the clock called for. */
  lemma VideoExact(log: Log, s: Script, written: seq<byte>)
    requires Proper(log, s, written)
    ensures Payloads(log.sent, 0x10) == Pictures(log.grabs)
    ensures |log.ticks| <= |s.readings| && Payloads(log.sent, 0x01) == Reports(s.readings[..|log.ticks|], 0)
  {
    hide Proper, Turns, Payloads, Pictures, Reports;
    SentExact(log, s, written);
    TurnsPayloads(log.grabs, s.readings[..|log.ticks|], 0, 0x10);
    TurnsPayloads(log.grabs, s.readings[..|log.ticks|], 0, 0x01);
  }

  // ----- how a session ends -----

  lemma {:induction false} LastMissed(grabs: seq<Camera.Grab>, k: nat)
    ensures Trailing(grabs) >= k <==> |grabs| >= k && forall i | |grabs| - k <= i < |grabs| :: grabs[i].Missed?
    decreases |grabs|
  {
    var n := |grabs| - 1;
    if grabs != [] && k > 0 {
      LastMissed(grabs[..n], k - 1);
    }
  }

  /** One of the five grabs before the k-th succeeded. */
  ghost predicate Recovered(grabs: seq<Camera.Grab>, k: nat)
    requires 5 <= k <= |grabs|
  {
    exists i :: k - 5 <= i < k && grabs[i].Got?
  }

  /**
   The camera is given up exactly when the last five grabs have all missed, and no five in a row before had.
   Every other end has its cause too: the clock readings are used up, a poll met the end of the stream or an
   error, or a send failed; and all polls before went well.
   */
  lemma EndExact(log: Log, s: Script, written: seq<byte>)
    requires Proper(log, s, written)
    ensures var n := |log.grabs|;
            && (log.end.CameraLost? <==> n >= 5 && forall i | n - 5 <= i < n :: log.grabs[i].Missed?)
            && (forall k | 5 <= k < n :: Recovered(log.grabs, k))
            && (forall k: nat | k <= log.polls :: PollAll(s.inbox, k).rc.WouldBlock?)
            && match log.end
               case Stopped => n == |log.ticks| == log.polls == |s.readings|
               case CameraLost => n == |log.ticks| + 1 == log.polls + 1
               case SendFailed => n == log.polls + 1 && log.polls <= |log.ticks| <= n
               case PeerGone => n == |log.ticks| == log.polls + 1 && !PollAll(s.inbox, n).rc.WouldBlock?
  {
    hide Sending, Tracing, Reporting, PollAll, Trailing, LastStepSends;
    var n := |log.grabs|;
    LastMissed(log.grabs, 5);
    if n > 0 {
      TrailingStep(log.grabs);
    } else {
      TrailingNone();
    }
    forall k | 5 <= k < n
      ensures Recovered(log.grabs, k)
    {
      LastMissed(log.grabs[..k], 5);
      var i :| k - 5 <= i < k && !log.grabs[..k][i].Missed?;
      assert log.grabs[i].Got?;
    }
  }

  // ----- the greeting -----

  lemma DenotesPlain(s: string, i: int)
    requires Denotes(s, i)
    ensures PlainString(s)
  {
  }

  lemma AsciiExact(s: string)
    requires PlainString(s)
    ensures forall i | 0 <= i < |s| :: s[i] as int == Ascii(s)[i] as int
  {
    forall i | 0 <= i < |s|
      ensures s[i] as int == Ascii(s)[i] as int
    {
      assert s[i] in s;
    }
  }

  /** The text of the greeting by its characters. */
  lemma ReadyTextSpelled(width: int, height: int, mjpeg: bool) returns (w: string, h: string)
    ensures Denotes(w, width) && Denotes(h, height)
    ensures var t := "PatrolSystem ready " + w + "x" + h + (if mjpeg then " MJPEG" else " RAW");
            var r := ReadyText(width, height, mjpeg);
            |r| == |t| && forall i | 0 <= i < |t| :: t[i] as int == r[i] as int
  {
    w, h := FormatInt(width), FormatInt(height);
    FormatIntDenotes(width);
    FormatIntDenotes(height);
    DenotesPlain(w, width);
    DenotesPlain(h, height);
    var head, tail := "PatrolSystem ready ", if mjpeg then " MJPEG" else " RAW";
    assert PlainString(head) && PlainString("x") && PlainString(tail);
    assert ReadyText(width, height, mjpeg) == Ascii(head + w + "x" + h + tail);
    hide PlainString, FormatInt, Denotes, Ascii, ReadyText;
    PlainConcat(head, w);
    PlainConcat(head + w, "x");
    PlainConcat(head + w + "x", h);
    PlainConcat(head + w + "x" + h, tail);
    AsciiExact(head + w + "x" + h + tail);
  }
}
