/**
 One client session: the loop that streams video and telemetry to the peer and reads its commands.
 */
module Application {
  import opened Bytes
  import opened FrameProtocol
  import opened Sequences
  import opened TcpStream
  import opened TcpServer
  import opened FrameParserCheck
  import opened TcpDelivery
  import Timing
  import Decimal
  import Camera = CameraManager

  const SENSOR_PERIOD_MS: nat := 1000
  const MAX_GRAB_FAILURES: nat := 5

  function Ascii(s: string): (r: seq<byte>)
    ensures |r| == |s|
  {
    seq(|s|, i requires 0 <= i < |s| => Low8(s[i] as nat))
  }

  function ReadyText(width: int, height: int, mjpeg: bool): seq<byte> {
    Ascii("PatrolSystem ready " + Decimal.FormatInt(width) + "x" + Decimal.FormatInt(height)
          + (if mjpeg then " MJPEG" else " RAW"))
  }

  // ----- frames of a session -----

  predicate SessionFrame(f: Frame) {
    || (f.ty == FRAME_VIDEO && f.payload != [])
    || (f.ty == FRAME_SENSOR && |f.payload| == LL_SENSOR_PAYLOAD_SIZE)
  }

  predicate SessionFrames(fs: seq<Frame>) {
    forall f | f in fs :: SessionFrame(f)
  }

  function SensorFrames(fs: seq<Frame>): seq<Frame> {
    if fs == [] then []
    else SensorFrames(fs[..|fs| - 1]) + (if fs[|fs| - 1].ty == FRAME_SENSOR then [fs[|fs| - 1]] else [])
  }

  lemma SensorFramesAppend(fs: seq<Frame>, f: Frame)
    ensures SensorFrames(fs + [f]) == SensorFrames(fs) + (if f.ty == FRAME_SENSOR then [f] else [])
  {
    assert (fs + [f])[..|fs|] == fs;
  }

  lemma EncodeAllAppend(fs: seq<Frame>, f: Frame)
    ensures EncodeAll(fs + [f]) == EncodeAll(fs) + Encode(f)
  {
    EncodeAllConcat(fs, [f]);
    assert EncodeAll([f]) == Encode(f) + [];
  }

  /** The telemetry sent at millisecond t of the 32-bit clock. */
  function Telemetry(t: nat): SensorData
    requires t < TWO_32
  {
    SensorData(t as uint32, 0, 0, 0, 0, 0, 0, 0, 0, 0, 0, 12000, 3, 0, 0, 0, 0, 0, 0, 0)
  }

  function SensorFrame(ns: nat): Frame {
    Frame(FRAME_SENSOR, SensorPayload(Telemetry(ns / Timing.NS_PER_MS % TWO_32)))
  }

  function SensorFramesAt(times: seq<nat>): (r: seq<Frame>)
    ensures |r| == |times|
  {
    seq(|times|, i requires 0 <= i < |times| => SensorFrame(times[i]))
  }

  // ----- uint32 clock -----

  /** Unsigned subtraction of two 32-bit readings. */
  function Since(t: nat, last: nat): nat {
    (t - last) % TWO_32
  }

  /** Subtracting wrapped readings gives the wrapped elapsed time. */
  lemma SinceElapsed(last: nat, now: nat)
    requires last <= now
    ensures Since(now % TWO_32, last % TWO_32) == Timing.Elapsed(last * Timing.NS_PER_MS, now * Timing.NS_PER_MS)
  {
    assert (now * Timing.NS_PER_MS - last * Timing.NS_PER_MS) / Timing.NS_PER_MS == now - last;
    WrappedDifference(last, now);
  }

  lemma WrappedDifference(a: nat, b: nat)
    ensures (b % TWO_32 - a % TWO_32) % TWO_32 == (b - a) % TWO_32
  {
    var m := TWO_32;
    var k := b / m - a / m;
    assert b - a == b % m - a % m + k * m;
  }

  // ----- grab failures -----

  /** Failures since the last success. */
  function Trailing(grabs: seq<Camera.Grab>): nat {
    if grabs == [] || grabs[|grabs| - 1].Got? then 0 else 1 + Trailing(grabs[..|grabs| - 1])
  }

  /** At no earlier moment had five failures come in a row. */
  ghost predicate Tolerated(grabs: seq<Camera.Grab>) {
    forall k | 0 <= k < |grabs| :: Trailing(grabs[..k]) < MAX_GRAB_FAILURES
  }

  lemma TrailingAppend(grabs: seq<Camera.Grab>, grab: Camera.Grab)
    requires Tolerated(grabs) && Trailing(grabs) < MAX_GRAB_FAILURES
    ensures Trailing(grabs + [grab]) == if grab.Got? then 0 else Trailing(grabs) + 1
    ensures Tolerated(grabs + [grab])
  {
    var g := grabs + [grab];
    assert g[..|grabs|] == grabs;
    forall k | 0 <= k < |g|
      ensures Trailing(g[..k]) < MAX_GRAB_FAILURES
    {
      assert g[..k] == grabs[..k];
      assert grabs[..|grabs|] == grabs;
    }
  }

  // ----- a connection that stays broken -----

  /** Once a send has failed on this connection, every later one fails. */
  predicate StaysFailed(script: Outbox) {
    forall i, j | 0 <= i < j < |script| :: script[i].Refuse? ==> script[j].Refuse?
  }

  predicate AllRefused(script: Outbox) {
    forall e | e in script :: e.Refuse?
  }

  lemma {:induction false} TransmitStaysFailed(len: nat, script: Outbox)
    requires StaysFailed(script)
    ensures var s := Transmit(len, script);
            StaysFailed(s.script) && (!s.ok ==> AllRefused(s.script))
    decreases |script|
  {
    if len > 0 && script != [] {
      assert ValidSend(script[0]);
      match script[0] {
        case Accept(n) => TransmitStaysFailed(len - Min(n, len), script[1..]);
        case Refuse =>
        case _ => TransmitStaysFailed(len, script[1..]);
      }
    }
  }

  lemma TransmitRefused(len: nat, script: Outbox)
    requires AllRefused(script) && len > 0
    ensures var s := Transmit(len, script); !s.ok && s.taken == 0
  {
    assert script != [] ==> script[0] in script;
  }

  lemma FrameStaysFailed(f: Frame, script: Outbox)
    requires StaysFailed(script)
    ensures var s := TransmitFrame(f, script); !s.ok ==> AllRefused(s.script)
  {
    hide Transmit, StaysFailed, AllRefused;
    TransmitStaysFailed(LL_HEADER_SIZE, script);
    if Transmit(LL_HEADER_SIZE, script).ok {
      TransmitStaysFailed(|f.payload|, Transmit(LL_HEADER_SIZE, script).script);
    }
  }

  // ----- the frames a session must send -----

  /** Does a look at the clock at `ns`, after those in `ticks`, send a sensor frame? */
  ghost predicate Fires(ticks: seq<nat>, ns: nat) {
    && Timing.Monotone(0, ticks)
    && var last := Timing.LastOf(0, Timing.Firings(SENSOR_PERIOD_MS, 0, ticks));
       last <= ns && Timing.Elapsed(last, ns) >= SENSOR_PERIOD_MS
  }

  function VideoOf(g: Camera.Grab): seq<Frame> {
    if g.Got? && g.data != [] then [Frame(FRAME_VIDEO, g.data)] else []
  }

  ghost function SensorOf(ticks: seq<nat>, ns: nat): seq<Frame> {
    if Fires(ticks, ns) then [SensorFrame(ns)] else []
  }

  /** Round by round: the frame grabbed, unless empty, then telemetry if it is due. */
  ghost function FramesOf(grabs: seq<Camera.Grab>, ticks: seq<nat>): seq<Frame>
    requires |ticks| <= |grabs| <= |ticks| + 1
    decreases |grabs| + |ticks|
  {
    if grabs == [] then []
    else if |grabs| > |ticks| then
      FramesOf(grabs[..|grabs| - 1], ticks) + VideoOf(grabs[|grabs| - 1])
    else
      FramesOf(grabs, ticks[..|ticks| - 1]) + SensorOf(ticks[..|ticks| - 1], ticks[|ticks| - 1])
  }

  lemma FramesAfterGrab(grabs: seq<Camera.Grab>, ticks: seq<nat>, g: Camera.Grab)
    requires |grabs| == |ticks|
    ensures FramesOf(grabs + [g], ticks) == FramesOf(grabs, ticks) + VideoOf(g)
  {
    hide SensorOf, VideoOf;
    assert (grabs + [g])[..|grabs|] == grabs;
  }

  lemma FramesAfterTick(grabs: seq<Camera.Grab>, ticks: seq<nat>, ns: nat)
    requires |grabs| == |ticks| + 1
    ensures FramesOf(grabs, ticks + [ns]) == FramesOf(grabs, ticks) + SensorOf(ticks, ns)
  {
    hide SensorOf, VideoOf;
    assert (ticks + [ns])[..|ticks|] == ticks;
  }

  // ----- what the peer has sent -----

  /** n polls of the socket one after another: the last one's outcome and everything read. */
  function PollAll(inbox: Inbox, n: nat): Drained {
    if n == 0 then Drained(WouldBlock, [], inbox)
    else
      var p := PollAll(inbox, n - 1);
      var d := Drain(p.inbox);
      Drained(d.rc, p.bytes + d.bytes, d.inbox)
  }

  lemma PollNext(inbox: Inbox, n: nat)
    ensures var p := PollAll(inbox, n);
            var d := Drain(p.inbox);
            PollAll(inbox, n + 1) == Drained(d.rc, p.bytes + d.bytes, d.inbox)
  {
  }

  /** None of the first n polls met the end of the stream or an error. */
  ghost predicate AllOpen(inbox: Inbox, n: nat) {
    forall k: nat | k <= n :: PollAll(inbox, k).rc.WouldBlock?
  }

  lemma AllOpenNext(inbox: Inbox, n: nat)
    ensures AllOpen(inbox, 0)
    ensures AllOpen(inbox, n) && PollAll(inbox, n + 1).rc.WouldBlock? ==> AllOpen(inbox, n + 1)
    ensures AllOpen(inbox, n) ==> PollAll(inbox, n).rc.WouldBlock?
  {
  }

  // ----- when sensor frames are sent -----

  /** The sensor frames sent are the periodic firings of a one-second timer that started at time 0. */
  ghost predicate SensorsUpTo(ticks: seq<nat>, clock: nat, lastSensor: nat, lastSensorMs: nat, sent: seq<Frame>) {
    && Timing.Monotone(0, ticks) && Timing.LastOf(0, ticks) <= clock * Timing.NS_PER_MS
    && Timing.LastOf(0, Timing.Firings(SENSOR_PERIOD_MS, 0, ticks)) == lastSensor * Timing.NS_PER_MS
    && lastSensor <= clock && lastSensorMs == lastSensor % TWO_32
    && SensorFrames(sent) == SensorFramesAt(Timing.Firings(SENSOR_PERIOD_MS, 0, ticks))
  }

  lemma SensorsTick(ticks: seq<nat>, clock: nat, lastSensor: nat, lastSensorMs: nat, sent: seq<Frame>, now: nat)
    requires SensorsUpTo(ticks, clock, lastSensor, lastSensorMs, sent) && clock <= now
    ensures var t, ns := now % TWO_32, now * Timing.NS_PER_MS;
            && Timing.Monotone(0, ticks + [ns])
            && (Since(t, lastSensorMs) >= SENSOR_PERIOD_MS <==> Fires(ticks, ns))
            && if Since(t, lastSensorMs) >= SENSOR_PERIOD_MS then
                 SensorsUpTo(ticks + [ns], now, now, t, sent + [SensorFrame(ns)])
            else SensorsUpTo(ticks + [ns], now, lastSensor, lastSensorMs, sent)
  {
    hide Timing.Firings, Timing.Monotone, Timing.Elapsed, SensorFrames, SensorFramesAt, SensorPayload, Since;
    var ns := now * Timing.NS_PER_MS;
    var fired := Timing.Firings(SENSOR_PERIOD_MS, 0, ticks);
    Timing.SeenMore(0, ticks, ns);
    Timing.FiringsAppend(SENSOR_PERIOD_MS, 0, ticks, ns);
    SinceElapsed(lastSensor, now);
    SensorFramesAppend(sent, SensorFrame(ns));
    SensorFramesAtAppend(fired, ns);
    assert fired + [] == fired;
  }

  lemma SensorsVideo(ticks: seq<nat>, clock: nat, lastSensor: nat, lastSensorMs: nat, sent: seq<Frame>, data: seq<byte>)
    requires SensorsUpTo(ticks, clock, lastSensor, lastSensorMs, sent)
    ensures SensorsUpTo(ticks, clock, lastSensor, lastSensorMs, sent + [Frame(FRAME_VIDEO, data)])
  {
    hide Timing.Firings, Timing.Monotone, SensorFrames, SensorFramesAt;
    SensorFramesAppend(sent, Frame(FRAME_VIDEO, data));
  }

  // ----- the loop's state -----

  datatype End = Stopped | CameraLost | SendFailed | PeerGone

  /** Where in the loop a session can end: grabs made, looks at the clock, polls that went well. */
  predicate Rounds(end: End, grabs: nat, ticks: nat, polls: nat) {
    match end
    case Stopped => grabs == ticks == polls
    case CameraLost => grabs == ticks + 1 == polls + 1
    case SendFailed => grabs == polls + 1 && (ticks == polls || ticks == polls + 1)
    case PeerGone => grabs == ticks == polls + 1
  }

  /** The last step of the session had a frame to send: the grab, if the clock was not looked at after it, or that look. */
  ghost predicate LastStepSends(grabs: seq<Camera.Grab>, ticks: seq<nat>)
    requires |ticks| <= |grabs| <= |ticks| + 1
  {
    && grabs != []
    && if |grabs| > |ticks| then VideoOf(grabs[|grabs| - 1]) != []
       else Fires(ticks[..|ticks| - 1], ticks[|ticks| - 1])
  }

  /**
   The local variables of serveClient. The ghost fields remember the session from the moment the
   loop began: `base` is what was on the wire, `outbox` and `inbox` what the kernel had in store.
   */
  class Session {
    const sock: Socket
    const rx: Receiver
    var grabFailures: nat
    var frameCount: nat
    var lastSensorMs: nat
    var lastStatMs: nat
    ghost const base: seq<byte>
    ghost const outbox: Outbox
    ghost const inbox: Inbox
    ghost var clock: nat          // latest clock reading, milliseconds
    ghost var lastSensor: nat     // unwrapped time of the last sensor frame
    ghost var sent: seq<Frame>    // frames sent, the last one perhaps only in part
    ghost var ticks: seq<nat>     // moments the sensor clock was looked at, nanoseconds
    ghost var grabs: seq<Camera.Grab>
    ghost var polls: nat          // polls that went well
    ghost var handled: seq<byte>  // the part of the received stream whose commands were reported
    ghost var commands: seq<Command>

    constructor (sock: Socket, now: nat)
      ensures Valid() && fresh(rx) && this.sock == sock && base == sock.wire && outbox == sock.outbox && inbox == sock.inbox
      ensures clock == now && sent == [] && ticks == [] && grabs == [] && polls == 0 && handled == [] && commands == []
    {
      hide SensorsUpTo, Decode, Commands, SendFrames, SessionFrames, Tolerated, FramesOf, AllOpen;
      SessionStart(now, sock.outbox);
      AllOpenNext(sock.inbox, 0);
      this.sock := sock;
      rx := new Receiver();
      grabFailures, frameCount, lastSensorMs, lastStatMs := 0, 0, 0, now % TWO_32;
      base, outbox, inbox := sock.wire, sock.outbox, sock.inbox;
      clock, lastSensor, sent, ticks, grabs, polls, handled, commands := now, 0, [], [], [], 0, [], [];
    }

    /** All frames so far went out whole. */
    ghost predicate Whole()
      reads this`sent, sock`wire, sock`outbox
    {
      && SessionFrames(sent)
      && var r := SendFrames(sent, outbox);
         r.ok && sock.wire == base + r.wire && sock.outbox == r.script
    }

    ghost predicate SensorState()
      reads this`ticks, this`clock, this`lastSensor, this`lastSensorMs, this`sent
    {
      SensorsUpTo(ticks, clock, lastSensor, lastSensorMs, sent)
    }

    ghost predicate GrabState()
      reads this`grabs, this`grabFailures
    {
      Tolerated(grabs) && grabFailures == Trailing(grabs)
    }

    /** The frames sent are the ones the rounds so far call for, in order. */
    ghost predicate TraceState()
      reads this`grabs, this`ticks, this`sent
    {
      |ticks| <= |grabs| <= |ticks| + 1 && sent == FramesOf(grabs, ticks)
    }

    ghost predicate CommandState()
      reads this`handled, this`commands, this`polls, rx, sock`inbox
    {
      && AllOpen(inbox, polls) && PollAll(inbox, polls) == Drained(WouldBlock, handled, sock.inbox)
      && rx.Valid() && rx.stream == handled && rx.frames == Decode(handled).frames
      && |rx.buf| < LL_HEADER_SIZE + LL_MAX_PAYLOAD
      && commands == Commands(Decode(handled).frames)
    }

    /** At the head of the loop. */
    ghost predicate Valid()
      reads this, sock, rx
    {
      Whole() && SensorState() && TraceState() && GrabState() && grabFailures < MAX_GRAB_FAILURES && CommandState()
    }

    /** What was written after the base, and whether the last frame was cut off. */
    ghost predicate Written(cut: bool)
      reads this`sent, sock`wire, sock`outbox
    {
      && SessionFrames(sent)
      && var r := SendFrames(sent, outbox);
         && (cut <==> !r.ok) && sock.wire == base + r.wire && sock.outbox == r.script
         && (cut ==> sent != [] && SendFrames(sent[..|sent| - 1], outbox).ok)
    }

    /** After the loop. */
    ghost predicate Finished(end: End)
      reads this, sock
    {
      && Written(end.SendFailed?) && SensorState() && TraceState()
      && Tolerated(grabs) && (end.CameraLost? <==> Trailing(grabs) == MAX_GRAB_FAILURES)
      && AllOpen(inbox, polls) && handled == PollAll(inbox, polls).bytes
      && sock.inbox == PollAll(inbox, polls + if end.PeerGone? then 1 else 0).inbox
      && commands == Commands(Decode(handled).frames)
      && Rounds(end, |grabs|, |ticks|, polls) && (end.PeerGone? ==> !PollAll(inbox, polls + 1).rc.WouldBlock?)
      && (end.SendFailed? ==> LastStepSends(grabs, ticks))
    }

    lemma WholeWritten()
      requires Whole()
      ensures Written(false)
    {
      hide SendFrames, SessionFrames;
    }

    lemma ValidFinished(end: End)
      requires Valid() && end.Stopped? && |grabs| == |ticks| == polls
      ensures Finished(end)
    {
      hide SensorState, Tolerated, Trailing, Decode, Commands, PollAll, AllOpen, Whole, Written, FramesOf, LastStepSends;
      WholeWritten();
    }

    /** One frame out, whole or, on failure, cut off. */
    method Emit(ty: byte, payload: seq<byte>) returns (ok: bool)
      requires Whole() && SessionFrame(Frame(ty, payload))
      modifies this`sent, sock`outbox, sock`wire
      ensures sent == old(sent) + [Frame(ty, payload)]
      ensures if ok then Whole() else Written(true)
    {
      hide TransmitFrame, Encode, SessionFrame, SendFrames;
      ghost var f := Frame(ty, payload);
      SendFramesAppend(sent, f, outbox);
      ok := SendFrame(sock, ty, payload);
      sent := sent + [f];
      assert sent[..|sent| - 1] == old(sent);
      assert sock.wire == base + SendFrames(sent, outbox).wire;
    }

    method EmitVideo(data: seq<byte>) returns (ok: bool)
      requires Whole() && SensorState() && data != []
      modifies this`sent, sock`outbox, sock`wire
      ensures sent == old(sent) + [Frame(FRAME_VIDEO, data)]
      ensures if ok then Whole() else Written(true)
      ensures SensorState()
    {
      hide Whole, Written, SensorsUpTo;
      SensorsVideo(ticks, clock, lastSensor, lastSensorMs, sent, data);
      ok := Emit(FRAME_VIDEO, data);
    }

    /** The frame half of a round; false ends the session. */
    method HandleGrab(grab: Camera.Grab) returns (go: bool, ghost end: End)
      requires Valid() && |grabs| == |ticks| == polls
      modifies this`sent, this`grabFailures, this`frameCount, this`grabs, sock`outbox, sock`wire
      ensures grabs == old(grabs) + [grab] && (!go ==> !end.Stopped? && !end.PeerGone?)
      ensures if go then Valid() else Finished(end)
      ensures sent == old(sent) + (if grab.Got? && grab.data != [] then [Frame(0x10, grab.data)] else [])
      ensures go ==> frameCount == old(frameCount) + if grab.Got? && grab.data != [] then 1 else 0
    {
      hide Tolerated, Trailing, SensorState, Whole, Written, FramesOf, Decode, Commands, PollAll, AllOpen;
      TrailingAppend(grabs, grab);
      FramesAfterGrab(grabs, ticks, grab);
      assert sent + [] == sent;
      grabs := grabs + [grab];
      if grab.Missed? {
        grabFailures := grabFailures + 1;
        if grabFailures >= MAX_GRAB_FAILURES {
          WholeWritten();
          return false, CameraLost;
        }
        return true, Stopped;
      }
      grabFailures := 0;
      if |grab.data| > 0 {
        var fine := EmitVideo(grab.data);
        if !fine {
          return false, SendFailed;
        }
        frameCount := frameCount + 1;
      }
      return true, Stopped;
    }

    /** The telemetry half: a sensor frame once the 32-bit clock has moved by a second. */
    method HandleSensor(now: nat) returns (go: bool)
      requires Valid() && clock <= now && |grabs| == |ticks| + 1 == polls + 1
      modifies this`sent, this`lastSensorMs, this`lastSensor, this`ticks, this`clock, sock`outbox, sock`wire
      ensures if go then Valid() else Finished(SendFailed)
      ensures clock == now && ticks == old(ticks) + [now * Timing.NS_PER_MS]
    {
      hide Tolerated, Trailing, Whole, Written, FramesOf, Fires, SensorsUpTo, Decode, Commands, PollAll, AllOpen,
        Since, SensorPayload;
      var t := now % TWO_32;
      ghost var ns := now * Timing.NS_PER_MS;
      SensorsTick(ticks, clock, lastSensor, lastSensorMs, sent, now);
      FramesAfterTick(grabs, ticks, ns);
      assert sent + [] == sent;
      ticks := ticks + [ns];
      assert ticks[..|ticks| - 1] == old(ticks);
      clock := now;
      if Since(t, lastSensorMs) >= SENSOR_PERIOD_MS {
        lastSensorMs := t;
        lastSensor := now;
        var payload := PackSensor(Telemetry(t));
        assert SensorFrame(ns) == Frame(FRAME_SENSOR, payload);
        go := Emit(FRAME_SENSOR, payload);
        return;
      }
      return true;
    }

    /** The command half: report what has arrived; an error or the end of the stream ends the session. */
    method HandleCommands() returns (go: bool)
      requires Valid() && |grabs| == |ticks| == polls + 1
      modifies this`handled, this`commands, this`polls, sock`inbox, rx
      ensures if go then Valid() && |grabs| == |ticks| == polls else Finished(PeerGone)
      ensures go <==> Drain(old(sock.inbox)).rc.WouldBlock?
    {
      hide Tolerated, Trailing, Whole, Written, FramesOf, SensorsUpTo, Decode, Commands, AllOpen, LastStepSends,
        PollAll, Drain;
      AllOpenNext(inbox, polls);
      PollNext(inbox, polls);
      rx.out := [];
      ghost var before := rx.frames;
      var rc := PollCommands(sock, rx);
      if rc < 0 {
        WholeWritten();
        return false;
      }
      ghost var more := rx.frames[|before|..];
      CommandsConcat(before, more);
      assert rx.frames == before + more;
      handled := rx.stream;
      commands := commands + rx.out;
      polls := polls + 1;
      return true;
    }

    /** The statistics line: once a second of the 32-bit clock the frame count starts again. */
    method Report(now: nat)
      requires Valid()
      modifies this`frameCount, this`lastStatMs
      ensures Valid()
      ensures var t := now % TWO_32;
              var due := Since(t, old(lastStatMs)) >= 1000;
              && frameCount == (if due then 0 else old(frameCount))
              && lastStatMs == (if due then t else old(lastStatMs))
    {
      hide Whole, SensorState, TraceState, GrabState, CommandState, Since;
      var t := now % TWO_32;
      if Since(t, lastStatMs) >= 1000 {
        frameCount := 0;
        lastStatMs := t;
      }
    }
  }

  lemma SessionStart(clock: nat, outbox: Outbox)
    ensures SensorsUpTo([], clock, 0, 0, []) && SendFrames([], outbox) == SendRun([], true, outbox) && SessionFrames([])
    ensures Tolerated([]) && Trailing([]) == 0
    ensures Decode([]).frames == [] && Commands([]) == [] && FramesOf([], []) == []
  {
  }

  lemma SensorFramesAtAppend(times: seq<nat>, t: nat)
    ensures SensorFramesAt(times + [t]) == SensorFramesAt(times) + [SensorFrame(t)]
  {
  }

  // ----- a whole session -----

  /** Everything decided before the session: the camera once it streams, the clock, the network and the text. */
  datatype Script = Script(camera: Camera.View, readings: seq<nat>, outbox: Outbox, inbox: Inbox, text: Frame)

  /** What a session has done. */
  datatype Log = Log(sent: seq<Frame>, ticks: seq<nat>, grabs: seq<Camera.Grab>, polls: nat,
                     commands: seq<Command>, end: End)

  /** Millisecond readings as moments of the nanosecond clock. */
  function Nanoseconds(readings: seq<nat>): (r: seq<nat>)
    ensures |r| == |readings|
  {
    seq(|readings|, i requires 0 <= i < |readings| => readings[i] * Timing.NS_PER_MS)
  }

  /** The bytes: the text as far as it went, then the frames as far as they went, whole unless a send failed. */
  ghost predicate Sending(log: Log, s: Script, written: seq<byte>) {
    var t := TransmitFrame(s.text, s.outbox);
    var r := SendFrames(log.sent, t.script);
    && written == Encode(s.text)[..t.taken] + r.wire
    && SessionFrames(log.sent)
    && (log.end.SendFailed? <==> !r.ok)
    && (!r.ok ==> log.sent != [] && SendFrames(log.sent[..|log.sent| - 1], t.script).ok)
  }

  /** The frames are those called for by what the camera gave and by the clock readings, both taken from the script. */
  ghost predicate Tracing(log: Log, s: Script) {
    && |log.ticks| <= |log.grabs| <= |log.ticks| + 1 && |log.grabs| <= |s.readings|
    && log.grabs == Camera.Grabs(s.camera, |log.grabs|).0
    && log.ticks == Nanoseconds(s.readings[..|log.ticks|])
    && log.sent == FramesOf(log.grabs, log.ticks)
    && Timing.Monotone(0, log.ticks)
    && SensorFrames(log.sent) == SensorFramesAt(Timing.Firings(SENSOR_PERIOD_MS, 0, log.ticks))
  }

  /** Each way of ending has its cause, which had not arisen before. */
  ghost predicate Ending(log: Log, s: Script) {
    && Rounds(log.end, |log.grabs|, |log.ticks|, log.polls)
    && Tolerated(log.grabs) && (log.end.CameraLost? <==> Trailing(log.grabs) == MAX_GRAB_FAILURES)
    && AllOpen(s.inbox, log.polls) && (log.end.PeerGone? ==> !PollAll(s.inbox, log.polls + 1).rc.WouldBlock?)
    && (log.end.Stopped? ==> |log.grabs| == |s.readings|)
    && (log.end.SendFailed? ==> |log.ticks| <= |log.grabs| <= |log.ticks| + 1 && LastStepSends(log.grabs, log.ticks))
  }

  /** Every command received up to the last good poll has been reported once, in order. */
  ghost predicate Reporting(log: Log, s: Script) {
    log.commands == Commands(Decode(PollAll(s.inbox, log.polls).bytes).frames)
  }

  ghost predicate Proper(log: Log, s: Script, written: seq<byte>) {
    Sending(log, s, written) && Tracing(log, s) && Ending(log, s) && Reporting(log, s)
  }

  /** The grabs and the clock readings of a session so far come from the script. */
  ghost predicate Follows(grabs: seq<Camera.Grab>, ticks: seq<nat>, s: Script) {
    && |ticks| <= |grabs| <= |s.readings|
    && grabs == Camera.Grabs(s.camera, |grabs|).0 && ticks == Nanoseconds(s.readings[..|ticks|])
  }

  lemma FollowsStart(s: Script)
    ensures Follows([], [], s) && Camera.Grabs(s.camera, 0).1 == s.camera
  {
  }

  /** One more grab of the camera, one more reading of the clock. */
  lemma FollowsNext(grabs: seq<Camera.Grab>, ticks: seq<nat>, s: Script)
    requires Follows(grabs, ticks, s) && |grabs| == |ticks| < |s.readings|
    ensures var (g, w) := Camera.GrabView(Camera.Grabs(s.camera, |grabs|).1);
            && Follows(grabs + [g], ticks, s) && w == Camera.Grabs(s.camera, |grabs| + 1).1
            && Follows(grabs + [g], ticks + [s.readings[|ticks|] * Timing.NS_PER_MS], s)
  {
    hide Camera.GrabView;
    var k := |ticks|;
    assert s.readings[..k + 1] == s.readings[..k] + [s.readings[k]];
  }

  /** The log of a finished session is proper. */
  lemma Conclude(session: Session, s: Script, before: seq<byte>, end: End)
    requires session.Finished(end) && Follows(session.grabs, session.ticks, s)
    requires end.Stopped? ==> |session.grabs| == |s.readings|
    requires var t := TransmitFrame(s.text, s.outbox);
             session.base == before + Encode(s.text)[..t.taken] && session.outbox == t.script && session.inbox == s.inbox
    ensures before <= session.sock.wire
    ensures Proper(Log(session.sent, session.ticks, session.grabs, session.polls, session.commands, end), s,
                   session.sock.wire[|before|..])
  {
    hide Encode, SendFrames, TransmitFrame, SessionFrames, Tolerated, Trailing, Commands, Decode, Timing.Monotone,
      Timing.Firings, SensorFrames, SensorFramesAt, FramesOf, PollAll, Rounds, AllOpen, LastStepSends, Nanoseconds;
    var t := TransmitFrame(s.text, s.outbox);
    var wire, e := session.sock.wire, Encode(s.text)[..t.taken];
    var r := SendFrames(session.sent, t.script);
    assert wire == before + e + r.wire;
    assert wire[|before|..] == e + r.wire;
  }

  lemma InOrder(start: nat, readings: seq<nat>)
    requires Timing.Monotone(start, readings)
    ensures readings != [] ==> start <= readings[0]
    ensures forall k | 0 < k < |readings| :: readings[k - 1] <= readings[k]
  {
  }

  class Application {
    const camera: Camera.CameraManager

    constructor (camera: Camera.CameraManager)
      ensures this.camera == camera
    {
      this.camera := camera;
    }

    /** One turn of the loop: a frame, the telemetry, the commands. */
    method Round(session: Session, now: nat, ghost s: Script) returns (go: bool, ghost end: End)
      requires camera.Valid() && camera.Now() == Camera.Grabs(s.camera, |session.grabs|).1
      requires session.Valid() && Follows(session.grabs, session.ticks, s) && session.clock <= now
      requires |session.grabs| == |session.ticks| == session.polls < |s.readings| && now == s.readings[|session.ticks|]
      modifies camera`lastIndex, camera.dev`d, session, session.sock, session.rx
      ensures camera.Valid() && camera.Now() == Camera.Grabs(s.camera, |session.grabs|).1
      ensures Follows(session.grabs, session.ticks, s)
      ensures if go then session.Valid() && session.clock == now else session.Finished(end) && !end.Stopped?
      ensures go ==> |session.grabs| == |session.ticks| == session.polls == |old(session.grabs)| + 1
    {
      hide camera.Valid, camera.Now, session.Valid, session.Finished, Camera.Grabs, Camera.GrabView, Follows;
      FollowsNext(session.grabs, session.ticks, s);
      var grabbed, data, frame := camera.GrabFrame();
      go, end := session.HandleGrab(if grabbed then Camera.Got(frame) else Camera.Missed);
      if !go {
        return;
      }
      go := session.HandleSensor(now);
      if !go {
        return false, SendFailed;
      }
      go := session.HandleCommands();
      if !go {
        return false, PeerGone;
      }
      session.Report(now);
    }

    /** The loop of serveClient; stop() is called when the clock readings run out, if nothing ends it sooner. */
    method Stream(session: Session, readings: seq<nat>, ghost s: Script) returns (ghost end: End)
      requires camera.Valid() && camera.Now() == s.camera && session.Valid() && Timing.Monotone(session.clock, readings)
      requires session.grabs == [] && session.ticks == [] && session.polls == 0 && s.readings == readings
      modifies camera`lastIndex, camera.dev`d, session, session.sock, session.rx
      ensures camera.Valid() && camera.Now() == Camera.Grabs(s.camera, |session.grabs|).1
      ensures session.Finished(end) && Follows(session.grabs, session.ticks, s)
      ensures end.Stopped? ==> |session.grabs| == |readings|
    {
      hide camera.Valid, camera.Now, session.Valid, session.Finished, Camera.Grabs, Follows, Timing.Monotone;
      FollowsStart(s);
      InOrder(session.clock, readings);
      for round := 0 to |readings|
        invariant camera.Valid() && session.Valid()
        invariant round == |session.grabs| == |session.ticks| == session.polls
        invariant round < |readings| ==> session.clock <= readings[round]
        invariant Follows(session.grabs, session.ticks, s) && camera.Now() == Camera.Grabs(s.camera, round).1
      {
        var go: bool;
        go, end := Round(session, readings[round], s);
        if !go {
          return;
        }
      }
      end := Stopped;
      session.ValidFinished(end);
    }

    /**
     Serves one client. Everything the session does is determined by the camera's answers, the clock
     readings and what the network will take and deliver.
     */
    method ServeClient(sock: Socket, width: int, height: int, mjpeg: bool, start: nat, readings: seq<nat>)
      returns (started: bool, ghost log: Log)
      requires camera.Valid() && Timing.Monotone(start, readings)
      modifies camera`streaming, camera`lastIndex, camera`base, camera.dev`d, sock
      ensures camera.Valid() && !camera.streaming
      ensures !started ==> sock.wire == old(sock.wire) && sock.outbox == old(sock.outbox) && sock.inbox == old(sock.inbox)
      ensures started <==> camera.fd >= 0 && Camera.StartView(old(camera.Now()), |camera.buffers|).streaming
      ensures started ==>
                var s := Script(Camera.StartView(old(camera.Now()), |camera.buffers|), readings, old(sock.outbox),
                                old(sock.inbox), Frame(FRAME_TEXT, ReadyText(width, height, mjpeg)));
                && old(sock.wire) <= sock.wire && Proper(log, s, sock.wire[|old(sock.wire)|..])
                && sock.outbox == SendFrames(log.sent, TransmitFrame(s.text, s.outbox).script).script
                && sock.inbox == PollAll(s.inbox, log.polls + if log.end.PeerGone? then 1 else 0).inbox
                && camera.Now() == Camera.StopView(Camera.Grabs(s.camera, |log.grabs|).1)
    {
      hide *;
      log := Log([], [], [], 0, [], Stopped);
      started := camera.StartStreaming();
      if !started {
        return;
      }
      ghost var s := Script(Camera.StartView(old(camera.Now()), |camera.buffers|), readings, sock.outbox, sock.inbox,
                            Frame(FRAME_TEXT, ReadyText(width, height, mjpeg)));
      var ignored := SendText(sock, ReadyText(width, height, mjpeg));
      var session := new Session(sock, start);
      ghost var end := Stream(session, readings, s);
      Conclude(session, s, old(sock.wire), end);
      log := Log(session.sent, session.ticks, session.grabs, session.polls, session.commands, end);
      FinishedSocket(session, end);
      camera.StopStreaming();
    }
  }

  lemma FinishedSocket(session: Session, end: End)
    requires session.Finished(end)
    ensures session.sock.outbox == SendFrames(session.sent, session.outbox).script
    ensures session.sock.inbox == PollAll(session.inbox, session.polls + if end.PeerGone? then 1 else 0).inbox
  {
    hide SendFrames, PollAll;
  }

  // ----- the contract determines the session -----

  /** Half rounds done: grabs and looks at the clock. */
  function Steps(log: Log): nat {
    |log.grabs| + |log.ticks|
  }

  /** The frames due in the first n half rounds, by the script alone. */
  ghost function Due(s: Script, n: nat): seq<Frame>
    requires n <= 2 * |s.readings|
  {
    FramesOf(Camera.Grabs(s.camera, (n + 1) / 2).0, Nanoseconds(s.readings[..n / 2]))
  }

  /** The frames of half round n + 1. */
  ghost function Emitted(s: Script, n: nat): seq<Frame>
    requires n < 2 * |s.readings|
  {
    var k := n / 2;
    if n % 2 == 0 then VideoOf(Camera.GrabView(Camera.Grabs(s.camera, k).1).0)
    else SensorOf(Nanoseconds(s.readings[..k]), s.readings[k] * Timing.NS_PER_MS)
  }

  lemma DueStep(s: Script, n: nat)
    requires n < 2 * |s.readings|
    ensures Due(s, n + 1) == Due(s, n) + Emitted(s, n)
  {
    hide SensorOf, VideoOf, Camera.GrabView, Camera.Grabs, FramesOf, Nanoseconds;
    var k := n / 2;
    var gs, ts := Camera.Grabs(s.camera, k).0, Nanoseconds(s.readings[..k]);
    NextGrab(s.camera, k);
    var g := Camera.GrabView(Camera.Grabs(s.camera, k).1).0;
    if n % 2 == 0 {
      FramesAfterGrab(gs, ts, g);
    } else {
      NextReading(s.readings, k);
      FramesAfterTick(gs + [g], ts, s.readings[k] * Timing.NS_PER_MS);
    }
  }

  lemma NextGrab(v: Camera.View, n: nat)
    ensures var (gs, w) := Camera.Grabs(v, n);
            Camera.Grabs(v, n + 1).0 == gs + [Camera.GrabView(w).0]
  {
    hide Camera.GrabView;
  }

  lemma NextReading(readings: seq<nat>, k: nat)
    requires k < |readings|
    ensures Nanoseconds(readings[..k + 1]) == Nanoseconds(readings[..k]) + [readings[k] * Timing.NS_PER_MS]
  {
    assert readings[..k + 1] == readings[..k] + [readings[k]];
  }

  lemma {:induction false} DueGrows(s: Script, m: nat, n: nat)
    requires m <= n <= 2 * |s.readings|
    ensures Due(s, m) <= Due(s, n)
    decreases n - m
  {
    hide Due, Emitted;
    if m < n {
      DueStep(s, m);
      DueGrows(s, m + 1, n);
    }
  }

  /** A run of sends that succeeds has succeeded all along. */
  lemma {:induction false} SendFramesPrefixOk(fs: seq<Frame>, gs: seq<Frame>, script: Outbox)
    requires fs <= gs && SendFrames(gs, script).ok
    ensures SendFrames(fs, script).ok
    decreases |fs|
  {
    hide TransmitFrame, Encode;
    if fs != [] {
      assert gs[0] == fs[0] && fs[1..] <= gs[1..];
      SendFramesPrefixOk(fs[1..], gs[1..], TransmitFrame(fs[0], script).script);
    }
  }

  lemma StepsShape(log: Log, s: Script)
    requires Tracing(log, s)
    ensures Steps(log) <= 2 * |s.readings|
    ensures |log.grabs| == (Steps(log) + 1) / 2 && |log.ticks| == Steps(log) / 2
    ensures log.sent == Due(s, Steps(log)) && log.grabs == Camera.Grabs(s.camera, (Steps(log) + 1) / 2).0
  {
    hide FramesOf, Camera.Grabs, Timing.Firings, SensorFrames, SensorFramesAt, Timing.Monotone;
  }

  /** A session that ended because a send failed had done everything before its last frame well. */
  lemma FailedLast(log: Log, s: Script)
    requires Tracing(log, s) && Ending(log, s) && log.end.SendFailed?
    ensures Steps(log) > 0 && log.sent != [] && log.sent[..|log.sent| - 1] == Due(s, Steps(log) - 1)
  {
    hide Due, Emitted, FramesOf, Tolerated, Trailing, AllOpen, PollAll, Camera.Grabs, Nanoseconds, LastStepSends,
      Timing.Firings, SensorFrames, SensorFramesAt, Timing.Monotone;
    StepsShape(log, s);
    LastEmitted(log, s);
    var n := Steps(log);
    DueStep(s, n - 1);
    assert |Emitted(s, n - 1)| == 1;
  }

  lemma LastEmitted(log: Log, s: Script)
    requires Tracing(log, s) && LastStepSends(log.grabs, log.ticks)
    ensures 0 < Steps(log) <= 2 * |s.readings| && |Emitted(s, Steps(log) - 1)| == 1
  {
    hide FramesOf, Camera.Grabs, Camera.GrabView, Fires, SensorFrame, Timing.Firings, SensorFrames, SensorFramesAt,
      Timing.Monotone, Nanoseconds;
    StepsShape(log, s);
    var k := (Steps(log) - 1) / 2;
    NextGrab(s.camera, k);
    if Steps(log) % 2 == 0 {
      NextReading(s.readings, k);
    }
  }

  lemma ToleratedAt(grabs: seq<Camera.Grab>, k: nat)
    requires Tolerated(grabs) && k < |grabs|
    ensures Trailing(grabs[..k]) < MAX_GRAB_FAILURES
  {
  }

  lemma AllOpenAt(inbox: Inbox, n: nat, k: nat)
    requires AllOpen(inbox, n) && k <= n
    ensures PollAll(inbox, k).rc.WouldBlock?
  {
  }

  /** How far a session gets: half rounds and good polls. */
  function Progress(log: Log): nat {
    Steps(log) + log.polls
  }

  lemma NotBeyondCamera(a: Log, b: Log, s: Script)
    requires Tracing(a, s) && Tracing(b, s) && Ending(a, s) && Ending(b, s) && b.end.CameraLost?
    ensures Progress(a) <= Progress(b)
  {
    hide FramesOf, Camera.Grabs, Timing.Firings, SensorFrames, SensorFramesAt, Timing.Monotone, Tolerated,
      Trailing, AllOpen, PollAll, LastStepSends, Nanoseconds;
    if Progress(a) > Progress(b) {
      Camera.GrabsPrefix(s.camera, |b.grabs|, |a.grabs|);
      if |b.grabs| < |a.grabs| {
        ToleratedAt(a.grabs, |b.grabs|);
      } else {
        WholeSlice(a.grabs);
      }
    }
  }

  lemma WholeSlice(grabs: seq<Camera.Grab>)
    ensures grabs[..|grabs|] == grabs
  {
  }

  lemma NotBeyondPeer(a: Log, b: Log, s: Script)
    requires Tracing(a, s) && Tracing(b, s) && Ending(a, s) && Ending(b, s) && !b.end.CameraLost? && !b.end.SendFailed?
    ensures Progress(a) <= Progress(b)
  {
    hide FramesOf, Camera.Grabs, Timing.Firings, SensorFrames, SensorFramesAt, Timing.Monotone, Tolerated,
      Trailing, AllOpen, PollAll, LastStepSends, Nanoseconds;
    if Progress(a) > Progress(b) && b.end.PeerGone? {
      AllOpenAt(s.inbox, a.polls, b.polls + 1);
    }
  }

  lemma NotBeyondSend(a: Log, b: Log, s: Script, wa: seq<byte>, wb: seq<byte>)
    requires Proper(a, s, wa) && Proper(b, s, wb) && b.end.SendFailed?
    ensures Progress(a) <= Progress(b)
  {
    hide FramesOf, Camera.Grabs, Timing.Firings, SensorFrames, SensorFramesAt, Timing.Monotone, Tolerated,
      Trailing, AllOpen, PollAll, LastStepSends, Nanoseconds, Due, SendFrames, TransmitFrame, Encode, SessionFrames,
      Commands, Decode;
    var script := TransmitFrame(s.text, s.outbox).script;
    StepsShape(a, s);
    StepsShape(b, s);
    if a.end.SendFailed? {
      if Steps(b) < Steps(a) {
        FailedLast(a, s);
        DueGrows(s, Steps(b), Steps(a) - 1);
        SendFramesPrefixOk(b.sent, a.sent[..|a.sent| - 1], script);
      }
    } else if Steps(b) <= Steps(a) {
      DueGrows(s, Steps(b), Steps(a));
      SendFramesPrefixOk(b.sent, a.sent, script);
    }
  }

  /** No session with the same script gets further than another. */
  lemma NotBeyond(a: Log, b: Log, s: Script, wa: seq<byte>, wb: seq<byte>)
    requires Proper(a, s, wa) && Proper(b, s, wb)
    ensures Progress(a) <= Progress(b)
  {
    hide Sending, Tracing, Ending, Reporting;
    if b.end.CameraLost? {
      NotBeyondCamera(a, b, s);
    } else if b.end.SendFailed? {
      NotBeyondSend(a, b, s, wa, wb);
    } else {
      NotBeyondPeer(a, b, s);
    }
  }

  lemma SameSteps(a: Log, b: Log, s: Script)
    requires Tracing(a, s) && Tracing(b, s) && Ending(a, s) && Ending(b, s) && Progress(a) == Progress(b)
    ensures a.grabs == b.grabs && a.ticks == b.ticks && a.polls == b.polls && a.sent == b.sent
  {
    hide FramesOf, Camera.Grabs, Timing.Firings, SensorFrames, SensorFramesAt, Timing.Monotone, Tolerated,
      Trailing, AllOpen, PollAll, LastStepSends, Nanoseconds;
  }

  /** The script determines the session: what it does, how it ends, and every byte it writes. */
  lemma Determined(a: Log, b: Log, s: Script, wa: seq<byte>, wb: seq<byte>)
    requires Proper(a, s, wa) && Proper(b, s, wb)
    ensures a == b && wa == wb
  {
    NotBeyond(a, b, s, wa, wb);
    NotBeyond(b, a, s, wb, wa);
    SameSteps(a, b, s);
    hide FramesOf, Camera.Grabs, Timing.Firings, SensorFrames, SensorFramesAt, Timing.Monotone, Tolerated,
      Trailing, AllOpen, PollAll, LastStepSends, Nanoseconds, SendFrames, TransmitFrame, Encode, SessionFrames,
      Commands, Decode;
  }

  // ----- sensor frames and commands -----

  /**
   The sensor frames of a session carry the clock readings at which they were due: after the first they
   are never less than a second of real time apart, although every reading is cut to 32 bits.
   */
  lemma SensorSpacing(log: Log, s: Script, written: seq<byte>)
    requires Proper(log, s, written)
    ensures log.ticks == Nanoseconds(s.readings[..|log.ticks|]) && Timing.Monotone(0, log.ticks)
    ensures var f, fs := Timing.Firings(SENSOR_PERIOD_MS, 0, log.ticks), SensorFrames(log.sent);
            && |fs| == |f| && (forall i | 0 <= i < |fs| :: fs[i] == SensorFrame(f[i]))
            && (forall i | 0 < i < |f| :: f[i - 1] + 1000 * Timing.NS_PER_MS <= f[i])
  {
    hide Timing.Firings, SensorFrames, SensorFrame, Timing.Monotone, Sending, Ending, Reporting, FramesOf, Nanoseconds;
    Timing.FiringsApart(SENSOR_PERIOD_MS, 0, log.ticks);
  }

  /** Everything received in the session, a last failing poll included. */
  function Received(log: Log, s: Script): seq<byte> {
    PollAll(s.inbox, log.polls + if log.end.PeerGone? then 1 else 0).bytes
  }

  /**
   All commands received have been reported if and only if the last poll merely had no more to read, or
   what it and the buffer then held contains no complete command frame.
   */
  lemma CommandsExact(log: Log, s: Script, written: seq<byte>)
    requires Proper(log, s, written)
    ensures var p := PollAll(s.inbox, log.polls);
            log.commands == Commands(Decode(Received(log, s)).frames) <==>
            !log.end.PeerGone? || Commands(Decode(Decode(p.bytes).rest + Drain(p.inbox).bytes).frames) == []
  {
    hide Sending, Tracing, Ending, Decode, Commands, PollAll, Drain;
    var p := PollAll(s.inbox, log.polls);
    PollNext(s.inbox, log.polls);
    if log.end.PeerGone? {
      var more := Drain(p.inbox).bytes;
      DecodeSplit(p.bytes, more);
      CommandsConcat(Decode(p.bytes).frames, Decode(Decode(p.bytes).rest + more).frames);
      SamePrefix(Commands(Decode(p.bytes).frames), Commands(Decode(Decode(p.bytes).rest + more).frames));
    }
  }

  lemma SamePrefix(a: seq<Command>, b: seq<Command>)
    ensures a == a + b <==> b == []
  {
    if b != [] {
      assert |a + b| > |a|;
    }
  }

  /** A stop command that arrives together with the end of the stream: no session ever reports it. */
  lemma LostCommand(log: Log, s: Script, written: seq<byte>)
    requires Proper(log, s, written) && log.end.PeerGone? && log.polls == 0
    requires s.inbox == [Data(Encode(Frame(FRAME_COMMAND, [6, 1]))), Closed]
    ensures log.commands == [] && Commands(Decode(Received(log, s)).frames) == [Command(6, 1)]
  {
    hide Sending, Tracing, Ending, Decode, Commands, Drain, Encode;
    var f := Frame(FRAME_COMMAND, [6, 1]);
    PollNext(s.inbox, 0);
    DrainStep(s.inbox);
    DrainStep(s.inbox[1..]);
    DecodeNone();
    CommandsNone();
    CommandsOne(f);
    DecodeAlone(f);
    assert [] + (Encode(f) + []) == Encode(f);
  }

  lemma DecodeNone()
    ensures Decode([]) == Decoded([], [])
  {
  }

  lemma DecodeAlone(f: Frame)
    requires TcpStream.Fits(f)
    ensures Decode(Encode(f)) == Decoded([f], [])
  {
    hide Decode, Encode;
    DecodeOne(f, []);
    DecodeNone();
    assert Encode(f) + [] == Encode(f) && [f] + [] == [f];
  }

  // ----- what the ignored result of sendText costs -----

  /** After its first byte the encoded text holds no start-of-frame byte. */
  ghost predicate PlainText(text: Frame) {
    text.ty == FRAME_TEXT && forall k | 0 < k < |Encode(text)| :: Encode(text)[k] != LL_SOF
  }

  predicate Int32(i: int) {
    -0x8000_0000 <= i < 0x8000_0000
  }

  predicate PlainString(s: string) {
    forall c | c in s :: c < 128 as char
  }

  lemma FormatIntPlain(i: int)
    requires Int32(i)
    ensures |Decimal.FormatInt(i)| <= 11 && PlainString(Decimal.FormatInt(i))
  {
    var n := if i < 0 then -i else i;
    Decimal.FormatNatReads(n);
    assert Decimal.Pow10(10) == 10_000_000_000;
    Decimal.FormatNatLength(n, 10);
  }

  lemma PlainConcat(a: string, b: string)
    requires PlainString(a) && PlainString(b)
    ensures PlainString(a + b)
  {
  }

  lemma AsciiPlain(s: string)
    requires PlainString(s)
    ensures forall k | 0 <= k < |s| :: Ascii(s)[k] < 128
  {
    forall k | 0 <= k < |s|
      ensures Ascii(s)[k] < 128
    {
      assert s[k] in s;
    }
  }

  lemma ShortTextPlain(payload: seq<byte>)
    requires |payload| < 128 && forall k | 0 <= k < |payload| :: payload[k] < 128
    ensures PlainText(Frame(FRAME_TEXT, payload))
  {
    var e := Encode(Frame(FRAME_TEXT, payload));
    assert e == [LL_SOF, FRAME_TEXT] + Le32(|payload|) + payload;
    assert forall k | 6 <= k < |e| :: e[k] == payload[k - 6];
  }

  lemma ReadyTextPlain(width: int, height: int, mjpeg: bool)
    requires Int32(width) && Int32(height)
    ensures PlainText(Frame(FRAME_TEXT, ReadyText(width, height, mjpeg)))
  {
    hide Ascii, PlainText, Decimal.FormatInt;
    FormatIntPlain(width);
    FormatIntPlain(height);
    var w, h := Decimal.FormatInt(width), Decimal.FormatInt(height);
    var head, tail := "PatrolSystem ready ", if mjpeg then " MJPEG" else " RAW";
    assert PlainString(head) && PlainString("x") && PlainString(tail);
    hide PlainString;
    PlainConcat(head, w);
    PlainConcat(head + w, "x");
    PlainConcat(head + w + "x", h);
    PlainConcat(head + w + "x" + h, tail);
    AsciiPlain(head + w + "x" + h + tail);
    ShortTextPlain(ReadyText(width, height, mjpeg));
  }

  /** The first frame of a run of sends, if its header gets anywhere. */
  lemma FirstByte(fs: seq<Frame>, script: Outbox)
    ensures var r := SendFrames(fs, script);
            var h := Transmit(LL_HEADER_SIZE, script).taken;
            && (fs == [] || h == 0 ==> r.wire == [])
            && (fs != [] && h > 0 ==> |r.wire| >= 1 && r.wire[0] == LL_SOF)
            && (fs != [] && h == 1 ==> |r.wire| == 1)
            && (fs != [] && h > 1 ==> |r.wire| >= 2 && r.wire[1] == fs[0].ty)
  {
    hide Transmit, Le32;
    if fs != [] {
      var e := Encode(fs[0]);
      var t := TransmitFrame(fs[0], script);
      assert e[0] == LL_SOF && e[1] == fs[0].ty;
      var h := Transmit(LL_HEADER_SIZE, script);
      assert h.ok ==> t.taken >= LL_HEADER_SIZE;
    }
  }

  /** The session can get through its first n half rounds if no send fails. */
  ghost predicate Reached(s: Script, n: nat) {
    && (forall k: nat | k <= n / 2 :: Trailing(Camera.Grabs(s.camera, k).0) < MAX_GRAB_FAILURES)
    && (n > 0 ==> AllOpen(s.inbox, (n - 1) / 2))
  }

  /** No frame falls due before the camera, the peer or stop() ends the session. */
  ghost predicate NothingDue(s: Script) {
    forall n: nat | n <= 2 * |s.readings| && Reached(s, n) :: Due(s, n) == []
  }

  lemma TrailingStep(grabs: seq<Camera.Grab>)
    requires grabs != []
    ensures Trailing(grabs) <= Trailing(grabs[..|grabs| - 1]) + 1
  {
  }

  /** A session has got through the half rounds it has done. */
  lemma ReachedSteps(log: Log, s: Script)
    requires Tracing(log, s) && Ending(log, s)
    ensures Reached(s, Steps(log))
  {
    hide FramesOf, Camera.Grabs, Timing.Firings, SensorFrames, SensorFramesAt, Timing.Monotone, Tolerated,
      Trailing, AllOpen, PollAll, LastStepSends, Nanoseconds;
    StepsShape(log, s);
    var n := Steps(log);
    forall k: nat | k <= n / 2
      ensures Trailing(Camera.Grabs(s.camera, k).0) < MAX_GRAB_FAILURES
    {
      Camera.GrabsPrefix(s.camera, k, |log.grabs|);
      if k < |log.grabs| {
        ToleratedAt(log.grabs, k);
      } else if k > 0 {
        WholeSlice(log.grabs);
        ToleratedAt(log.grabs, k - 1);
        TrailingStep(log.grabs);
      } else {
        TrailingNone();
      }
    }
    if n > 0 {
      AllOpenLess(s.inbox, log.polls, (n - 1) / 2);
    }
  }

  lemma TrailingNone()
    ensures Trailing([]) == 0
  {
  }

  lemma AllOpenLess(inbox: Inbox, n: nat, k: nat)
    requires AllOpen(inbox, n) && k <= n
    ensures AllOpen(inbox, k)
  {
  }

  /** It gets no further than the script lets it, unless a send fails. */
  lemma ReachedOnly(log: Log, s: Script, n: nat)
    requires Tracing(log, s) && Ending(log, s) && !log.end.SendFailed? && n <= 2 * |s.readings| && Reached(s, n)
    ensures n <= Steps(log)
  {
    hide FramesOf, Camera.Grabs, Timing.Firings, SensorFrames, SensorFramesAt, Timing.Monotone, Tolerated,
      Trailing, AllOpen, PollAll, LastStepSends, Nanoseconds;
    StepsShape(log, s);
    if log.end.PeerGone? && n > Steps(log) {
      AllOpenAt(s.inbox, (n - 1) / 2, log.polls + 1);
    }
  }

  /** A session sends nothing exactly if nothing falls due. */
  lemma NothingDueExact(log: Log, s: Script, written: seq<byte>)
    requires Proper(log, s, written)
    ensures log.sent == [] <==> NothingDue(s)
  {
    hide Due, Reached, Tracing, Ending, Reporting, TransmitFrame, Encode, SessionFrames;
    StepsShape(log, s);
    ReachedSteps(log, s);
    if log.sent == [] {
      forall n: nat | n <= 2 * |s.readings| && Reached(s, n)
        ensures Due(s, n) == []
      {
        ReachedOnly(log, s, n);
        DueGrows(s, n, Steps(log));
      }
    }
  }

  /**
   Decided before the session: the text gets out whole, or no frame falls due, or the next send takes
   nothing, or the text sends nothing and the next send a single byte.
   */
  ghost predicate FramingSafe(s: Script) {
    var t := TransmitFrame(s.text, s.outbox);
    var h := Transmit(LL_HEADER_SIZE, t.script).taken;
    t.ok || NothingDue(s) || h == 0 || (t.taken == 0 && h == 1)
  }

  /** The bytes of a session are a prefix of the text and its frames if and only if the script is safe in that sense. */
  lemma WireExact(log: Log, s: Script, written: seq<byte>)
    requires Proper(log, s, written) && PlainText(s.text)
    ensures written <= Encode(s.text) + EncodeAll(log.sent) <==> FramingSafe(s)
  {
    hide Tracing, Ending, Reporting, NothingDue, Encode, EncodeAll, SendFrames, Transmit, TransmitFrame;
    NothingDueExact(log, s, written);
    var e, t := Encode(s.text), TransmitFrame(s.text, s.outbox);
    var w := SendFrames(log.sent, t.script).wire;
    FirstByte(log.sent, t.script);
    SendFramesPrefix(log.sent, t.script);
    WireCases(s.text, t.taken, w, log.sent);
  }

  /** Bytes of the text cut at n, then w. */
  lemma WireCases(text: Frame, n: nat, w: seq<byte>, fs: seq<Frame>)
    requires PlainText(text) && SessionFrames(fs) && n <= |Encode(text)| && w <= EncodeAll(fs)
    requires fs == [] ==> w == []
    requires w != [] ==> w[0] == LL_SOF && (|w| == 1 || w[1] == fs[0].ty)
    ensures Encode(text)[..n] + w <= Encode(text) + EncodeAll(fs) <==>
            n == |Encode(text)| || w == [] || (n == 0 && |w| == 1)
  {
    hide EncodeAll, Le32;
    var e, all := Encode(text), Encode(text) + EncodeAll(fs);
    var written := e[..n] + w;
    assert e[0] == LL_SOF && e[1] == FRAME_TEXT;
    if n == |e| {
      assert e[..n] == e;
    } else if w == [] {
      assert written == e[..n] && e == e[..n] + e[n..];
    } else if n > 0 {
      assert written[n] == LL_SOF && all[n] == e[n] != LL_SOF;
    } else if |w| > 1 {
      assert fs[0] in fs && written[1] == w[1] != FRAME_TEXT == all[1];
    }
  }

  /** On a connection that stays failed the framing is always safe. */
  lemma StaysFailedSafe(s: Script)
    requires StaysFailed(s.outbox)
    ensures FramingSafe(s)
  {
    hide StaysFailed, AllRefused, Transmit, NothingDue;
    FrameStaysFailed(s.text, s.outbox);
    if !TransmitFrame(s.text, s.outbox).ok {
      TransmitRefused(LL_HEADER_SIZE, TransmitFrame(s.text, s.outbox).script);
    }
  }

  /**
   A connection that recovers after cutting the ready text loses the framing, in every session that
   begins at a moment when telemetry is due.
   */
  lemma RecoveredConnectionCorrupts(log: Log, s: Script, written: seq<byte>, width: int, height: int, mjpeg: bool,
                                    more: Outbox)
    requires Proper(log, s, written) && Int32(width) && Int32(height)
    requires s.text == Frame(FRAME_TEXT, ReadyText(width, height, mjpeg))
    requires s.outbox == [Accept(3), Refuse, Accept(6)] + more
    requires s.readings != [] && s.readings[0] % TWO_32 >= SENSOR_PERIOD_MS
    ensures !(written <= Encode(s.text) + EncodeAll(log.sent))
  {
    hide Proper, NothingDue, PlainText, ReadyText, Encode, EncodeAll;
    ReadyTextPlain(width, height, mjpeg);
    WireExact(log, s, written);
    RecoveredScript(s.text, s.outbox, more);
    TelemetryDue(s);
  }

  /** Such a session, run: if it starts at all, it ends with broken framing on the wire. */
  method RecoveredSession(app: Application, sock: Socket, width: int, height: int, mjpeg: bool, start: nat,
                          readings: seq<nat>, ghost more: Outbox)
    returns (started: bool, ghost log: Log)
    requires app.camera.Valid() && Timing.Monotone(start, readings) && Int32(width) && Int32(height)
    requires sock.outbox == [Accept(3), Refuse, Accept(6)] + more
    requires readings != [] && readings[0] % TWO_32 >= SENSOR_PERIOD_MS
    modifies app.camera`streaming, app.camera`lastIndex, app.camera`base, app.camera.dev`d, sock
    ensures started ==>
              && old(sock.wire) <= sock.wire
              && !(sock.wire[|old(sock.wire)|..]
                   <= Encode(Frame(FRAME_TEXT, ReadyText(width, height, mjpeg))) + EncodeAll(log.sent))
  {
    hide app.camera.Valid, app.camera.Now, Proper, ReadyText, Encode, EncodeAll, Camera.StartView, SendFrames, TransmitFrame,
      PollAll, Camera.Grabs, Camera.StopView;
    ghost var s := Script(Camera.StartView(app.camera.Now(), |app.camera.buffers|), readings, sock.outbox, sock.inbox,
                          Frame(FRAME_TEXT, ReadyText(width, height, mjpeg)));
    started, log := app.ServeClient(sock, width, height, mjpeg, start, readings);
    if started {
      RecoveredConnectionCorrupts(log, s, sock.wire[|old(sock.wire)|..], width, height, mjpeg, more);
    }
  }

  lemma RecoveredScript(text: Frame, script: Outbox, more: Outbox)
    requires script == [Accept(3), Refuse, Accept(6)] + more
    ensures var t := TransmitFrame(text, script);
            t.taken == 3 && !t.ok && t.script == [Accept(6)] + more && Transmit(LL_HEADER_SIZE, t.script).taken == 6
  {
    hide Transmit;
    var rest, last := script[1..], script[2..];
    assert script[0] == Accept(3) && rest[0] == Refuse && rest[1..] == last == [Accept(6)] + more;
    TransmitStep(6, script);
    TransmitStep(3, rest);
    TransmitStep(6, last);
    TransmitNothing(last[1..]);
  }

  /** A first reading of a second or more makes a sensor frame due in the first round. */
  lemma TelemetryDue(s: Script)
    requires s.readings != [] && s.readings[0] % TWO_32 >= SENSOR_PERIOD_MS
    ensures !NothingDue(s)
  {
    hide Camera.Grabs, SensorFrame, VideoOf;
    var ns := s.readings[0] * Timing.NS_PER_MS;
    var gs := Camera.Grabs(s.camera, 1).0;
    assert s.readings[..1] == [s.readings[0]] && Nanoseconds(s.readings[..1]) == [] + [ns];
    FramesAfterTick(gs, [], ns);
    SinceElapsed(0, s.readings[0]);
    assert Fires([], ns);
    assert Due(s, 2) == FramesOf(gs, []) + [SensorFrame(ns)];
    NoGrabs(s.camera);
    TrailingNone();
    TrailingStep(gs);
    assert gs[..0] == [];
    AllOpenNext(s.inbox, 0);
    assert Reached(s, 2) by {
      forall k: nat | k <= 1
        ensures Trailing(Camera.Grabs(s.camera, k).0) < MAX_GRAB_FAILURES
      {
        assert k == 0 || k == 1;
      }
    }
  }

  lemma NoGrabs(v: Camera.View)
    ensures Camera.Grabs(v, 0).0 == []
  {
  }

  /**
   Either receiver, fed what a session wrote on such a script, in any pieces, reports a prefix of the
   ready text and the session's frames, provided no JPEG exceeds 16 MiB.
   */
  lemma SessionReadable(log: Log, s: Script, written: seq<byte>, cuts: seq<seq<byte>>, pyCuts: seq<seq<byte>>)
    requires Proper(log, s, written) && PlainText(s.text) && FramingSafe(s)
    requires |s.text.payload| <= 16777216 && forall f | f in log.sent :: |f.payload| <= 16777216
    requires Flatten(cuts) == Flatten(pyCuts) == written
    ensures DecodeRun([], cuts).frames == PyRun([], pyCuts).frames <= [s.text] + log.sent
  {
    hide Decode, DecodeRun, PyRun, EncodeAll, Proper, FramingSafe, PlainText;
    WireExact(log, s, written);
    var fs := [s.text] + log.sent;
    assert EncodeAll(fs) == Encode(s.text) + EncodeAll(log.sent) by {
      EncodeAllAppend([], s.text);
      EncodeAllNone();
      EncodeAllConcat([s.text], log.sent);
      assert [] + [s.text] == [s.text] && [] + Encode(s.text) == Encode(s.text);
    }
    var tail := EncodeAll(fs)[|written|..];
    assert written + tail == EncodeAll(fs);
    assert [] + written == written;
    DecodeNone();
    ChunkInvariance([], cuts);
    DecodeSplit(written, tail);
    DeliveryExact(fs);
    TwinRunsAgree(cuts, pyCuts);
  }

  lemma EncodeAllNone()
    ensures EncodeAll([]) == []
  {
  }
}
