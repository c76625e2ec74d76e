/**
 The serial link's frames and its deframer as a function of the buffered bytes:
 AA 55 LEN CMD payload CRC, where LEN counts CMD and payload and the CRC covers LEN onwards.
 */
module SerialLink {
  import opened Octets
  import opened Crc8
  import opened Sequences

  const SOF1 := XAA
  const SOF2 := X55
  const SIZE_T_MAX: nat := 0xFFFF_FFFF_FFFF_FFFF

  // ----- sending -----

  function FrameBytes(cmd: Octet, payload: seq<Octet>): (f: seq<Octet>)
    ensures |f| == |payload| + 5
  {
    var covered := [OfNat(|payload| + 1), cmd] + payload;
    [SOF1, SOF2] + covered + [Crc(covered)]
  }

  /** The bytes by their values: 0xAA, 0x55, LEN modulo 256, and then command, payload and check byte. */
  lemma FrameLayout(cmd: Octet, payload: seq<Octet>)
    ensures var f := FrameBytes(cmd, payload);
            && f[0].Value() == 0xAA && f[1].Value() == 0x55 && f[2].Value() == (|payload| + 1) % 256
            && f[3] == cmd && f[4..|f| - 1] == payload && f[|f| - 1] == Crc(f[2..|f| - 1])
  {
    hide Crc, OfNat, Octet.Value;
    Constants();
    OfNatValue(0xAA);
    OfNatValue(0x55);
    OfNatValue(|payload| + 1);
    var f := FrameBytes(cmd, payload);
    assert f[2..|f| - 1] == [OfNat(|payload| + 1), cmd] + payload;
  }

  method BuildFrame(cmd: Octet, payload: seq<Octet>) returns (f: seq<Octet>)
    requires |payload| < 256
    ensures f == FrameBytes(cmd, payload)
  {
    hide Crc, OfNat;
    f := [];
    f := f + [SOF1];
    f := f + [SOF2];
    f := f + [OfNat(|payload| + 1)];
    f := f + [cmd];
    if |payload| > 0 {
      f := f + payload;
    }
    var crc := ComputeCrc8(f[2..]);
    assert f[2..] == [OfNat(|payload| + 1), cmd] + payload;
    f := f + [crc];
  }

  // ----- receiving -----

  /** One call of the receive callback: command byte, claimed payload length, bytes that are really there. */
  datatype Event = Event(cmd: Octet, plLen: nat, payload: seq<Octet>)

  datatype Deframed = Deframed(events: seq<Event>, rest: seq<Octet>)

  /** Total frame size announced by the LEN byte at `buf[off + 2]`. */
  function Need(buf: seq<Octet>, off: nat): (n: nat)
    requires off + 3 <= |buf|
    ensures 4 <= n <= 259
  {
    buf[off + 2].Value() + 4
  }

  predicate Marked(buf: seq<Octet>, off: nat)
    requires off + 2 <= |buf|
  {
    buf[off] == SOF1 && buf[off + 1] == SOF2
  }

  /** The CRC comparison for the complete frame at `off`. */
  predicate CrcMatches(buf: seq<Octet>, off: nat)
    requires off + 3 <= |buf| && off + Need(buf, off) <= |buf|
  {
    Crc(buf[off + 2..off + Need(buf, off) - 1]) == buf[off + Need(buf, off) - 1]
  }

  /** What the callback is given: LEN - 1 is computed in size_t, so LEN == 0 wraps around. */
  function EventAt(buf: seq<Octet>, off: nat): Event
    requires off + 4 <= |buf| && off + Need(buf, off) <= |buf|
  {
    if buf[off + 2].Value() == 0 then Event(buf[off + 3], SIZE_T_MAX, [])
    else Event(buf[off + 3], buf[off + 2].Value() - 1, buf[off + 4..off + Need(buf, off) - 1])
  }

  /** One pass of poll over its buffer. */
  function Deframe(buf: seq<Octet>): Deframed
    decreases |buf|
  {
    if |buf| < 5 then Deframed([], buf)
    else if !Marked(buf, 0) then Deframe(buf[1..])
    else
      var need := Need(buf, 0);
      if |buf| < need then Deframed([], buf)
      else if !CrcMatches(buf, 0) then Deframe(buf[1..])
      else
        var d := Deframe(buf[need..]);
        Deframed([EventAt(buf, 0)] + d.events, d.rest)
  }

  // ----- chunking -----

  lemma FramePrefix(a: seq<Octet>, b: seq<Octet>)
    requires |a| >= 5
    ensures Marked(a + b, 0) == Marked(a, 0) && Need(a + b, 0) == Need(a, 0)
    ensures |a| >= Need(a, 0) ==>
              CrcMatches(a + b, 0) == CrcMatches(a, 0) && EventAt(a + b, 0) == EventAt(a, 0)
  {
    hide Crc, Octet.Value;
    assert (a + b)[2] == a[2];
    var n := Need(a, 0);
    if |a| >= n {
      assert (a + b)[2..n - 1] == a[2..n - 1];
      assert n >= 5 ==> (a + b)[4..n - 1] == a[4..n - 1];
    }
  }

  /** Cutting a buffer anywhere and deframing in two goes is deframing it in one. */
  lemma {:induction false} DeframeSplit(a: seq<Octet>, b: seq<Octet>)
    ensures var d := Deframe(a);
            var d' := Deframe(d.rest + b);
            Deframe(a + b) == Deframed(d.events + d'.events, d'.rest)
    decreases |a|
  {
    hide Marked, CrcMatches, EventAt, Need;
    if |a| >= 5 {
      FramePrefix(a, b);
      var n := Need(a, 0);
      if !Marked(a, 0) || (|a| >= n && !CrcMatches(a, 0)) {
        assert (a + b)[1..] == a[1..] + b;
        DeframeSplit(a[1..], b);
      } else if |a| >= n {
        assert (a + b)[n..] == a[n..] + b;
        DeframeSplit(a[n..], b);
        var d := Deframe(a[n..]);
        var d' := Deframe(d.rest + b);
        assert [EventAt(a, 0)] + (d.events + d'.events) == ([EventAt(a, 0)] + d.events) + d'.events;
      }
    }
  }

  lemma {:induction false} DeframeIdempotent(a: seq<Octet>)
    ensures Deframe(Deframe(a).rest) == Deframed([], Deframe(a).rest)
    decreases |a|
  {
    hide Marked, CrcMatches, EventAt, Need;
    if |a| >= 5 {
      var n := Need(a, 0);
      if !Marked(a, 0) || (|a| >= n && !CrcMatches(a, 0)) {
        DeframeIdempotent(a[1..]);
      } else if |a| >= n {
        DeframeIdempotent(a[n..]);
      }
    }
  }

  /** At most 258 bytes wait for more. */
  lemma {:induction false} ResidueBound(a: seq<Octet>)
    ensures |Deframe(a).rest| <= 258
    decreases |a|
  {
    hide Marked, CrcMatches, EventAt;
    if |a| >= 5 {
      var n := Need(a, 0);
      if !Marked(a, 0) || (|a| >= n && !CrcMatches(a, 0)) {
        ResidueBound(a[1..]);
      } else if |a| >= n {
        ResidueBound(a[n..]);
      }
    }
  }

  /** A run of polls: each chunk is appended to the residue and deframed. */
  function PollRun(rest: seq<Octet>, chunks: seq<seq<Octet>>): Deframed
    decreases chunks
  {
    if chunks == [] then Deframed([], rest)
    else
      var d := Deframe(rest + chunks[0]);
      var r := PollRun(d.rest, chunks[1..]);
      Deframed(d.events + r.events, r.rest)
  }

  /** However the bytes are cut into reads, the callbacks and the final buffer are those of one pass. */
  lemma {:induction false} ChunkInvariance(rest: seq<Octet>, chunks: seq<seq<Octet>>)
    requires Deframe(rest) == Deframed([], rest)
    ensures PollRun(rest, chunks) == Deframe(rest + Flatten(chunks))
    decreases |chunks|
  {
    hide Deframe;
    if chunks == [] {
      assert rest + [] == rest;
    } else {
      var a := rest + chunks[0];
      DeframeIdempotent(a);
      ChunkInvariance(Deframe(a).rest, chunks[1..]);
      DeframeSplit(a, Flatten(chunks[1..]));
      assert a + Flatten(chunks[1..]) == rest + Flatten(chunks);
    }
  }

  // ----- what is delivered -----

  /** The offsets at which frames are taken from `buf`. */
  function Starts(buf: seq<Octet>, base: nat): seq<nat>
    decreases |buf|
  {
    if |buf| < 5 then []
    else if !Marked(buf, 0) then Starts(buf[1..], base + 1)
    else
      var need := Need(buf, 0);
      if |buf| < need then []
      else if !CrcMatches(buf, 0) then Starts(buf[1..], base + 1)
      else [base] + Starts(buf[need..], base + need)
  }

  /** A complete frame with intact check byte begins at p. */
  predicate GoodFrameAt(s: seq<Octet>, p: nat) {
    && p + 4 <= |s|
    && Marked(s, p)
    && p + Need(s, p) <= |s|
    && CrcMatches(s, p)
  }

  lemma MarkedByValues(s: seq<Octet>, p: nat)
    requires p + 2 <= |s|
    ensures Marked(s, p) <==> s[p].Value() == 0xAA && s[p + 1].Value() == 0x55
  {
    hide OfNat, Octet.Value;
    Constants();
    OfNatValue(0xAA);
    OfNatValue(0x55);
    if s[p].Value() == 0xAA && s[p + 1].Value() == 0x55 {
      ValueInjective(s[p], SOF1);
      ValueInjective(s[p + 1], SOF2);
    }
  }

  /** A good frame and the callback it causes, by byte values. */
  lemma GoodFrameExact(s: seq<Octet>, p: nat)
    requires p + 4 <= |s|
    ensures var n := s[p + 2].Value();
            && (GoodFrameAt(s, p) <==>
                s[p].Value() == 0xAA && s[p + 1].Value() == 0x55 && p + n + 4 <= |s| && Crc(s[p + 2..p + n + 3]) == s[p + n + 3])
            && (GoodFrameAt(s, p) ==>
                EventAt(s, p) == if n == 0 then Event(s[p + 3], 18446744073709551615, [])
                                 else Event(s[p + 3], n - 1, s[p + 4..p + n + 3]))
  {
    hide Octet.Value, Crc, Marked;
    MarkedByValues(s, p);
  }

  /** What waits for more is too short to be looked at, or the beginning of a frame that is not all there. */
  lemma {:induction false} RestExact(a: seq<Octet>)
    ensures var r := Deframe(a).rest;
            |r| < 5 || (r[0].Value() == 0xAA && r[1].Value() == 0x55 && |r| < r[2].Value() + 4)
    decreases |a|
  {
    hide Deframe, TurnOf, Octet.Value, Marked;
    match TurnOf(a)
    case Stop =>
      StopHere(a);
      if |a| >= 5 {
        MarkedByValues(a, 0);
        Stopped(a);
      }
    case Skip =>
      SkipHere(a);
      RestExact(a[1..]);
    case Take =>
      TakeHere(a);
      RestExact(a[Need(a, 0)..]);
  }

  lemma Stopped(a: seq<Octet>)
    requires |a| >= 5 && TurnOf(a) == Stop
    ensures Marked(a, 0) && |a| < Need(a, 0)
  {
    hide Marked, CrcMatches, Need;
  }

  /** p lies inside, but not at the start of, the frame taken at h. */
  predicate Inside(s: seq<Octet>, h: nat, p: nat) {
    h + 3 <= |s| && h < p < h + Need(s, h)
  }

  lemma FrameShift(s: seq<Octet>, k: nat, p: nat)
    requires k <= p && p + 4 <= |s|
    ensures GoodFrameAt(s[k..], p - k) == GoodFrameAt(s, p)
    ensures Need(s[k..], p - k) == Need(s, p)
    ensures GoodFrameAt(s, p) ==> EventAt(s[k..], p - k) == EventAt(s, p)
  {
    hide Crc, Octet.Value;
    var t := s[k..];
    var n := Need(s, p);
    assert t[p - k + 2] == s[p + 2];
    if p + n <= |s| {
      assert t[p - k + 2..p - k + n - 1] == s[p + 2..p + n - 1];
      assert n >= 5 ==> t[p - k + 4..p - k + n - 1] == s[p + 4..p + n - 1];
    }
  }

  /** Every delivered frame is a good slice of the stream, inside the consumed region. */
  ghost predicate Genuine(s: seq<Octet>, base: nat, starts: seq<nat>, events: seq<Event>, consumed: nat) {
    && |starts| == |events|
    && forall i | 0 <= i < |starts| ::
         && base <= starts[i] && GoodFrameAt(s, starts[i]) && starts[i] + Need(s, starts[i]) <= consumed
         && events[i] == EventAt(s, starts[i])
  }

  /** Delivered frames follow one another without overlap. */
  ghost predicate Disjoint(s: seq<Octet>, starts: seq<nat>) {
    forall i, j | 0 <= i < j < |starts| :: EndsBefore(s, starts[i], starts[j])
  }

  predicate EndsBefore(s: seq<Octet>, h: nat, p: nat) {
    h + 3 <= |s| && h + Need(s, h) <= p
  }

  /** p is the start of a delivered frame or lies inside one. */
  ghost predicate Covered(s: seq<Octet>, starts: seq<nat>, p: nat) {
    exists i :: 0 <= i < |starts| && (starts[i] == p || Inside(s, starts[i], p))
  }

  /** No good frame that begins in the consumed region is passed over, unless a delivered one overlaps its start. */
  ghost predicate NothingMissed(s: seq<Octet>, base: nat, starts: seq<nat>, consumed: nat) {
    forall p | base <= p < consumed && GoodFrameAt(s, p) :: Covered(s, starts, p)
  }

  /** The deframer seen as a list of places in the whole stream. */
  ghost predicate Greedy(s: seq<Octet>, base: nat, starts: seq<nat>, events: seq<Event>, consumed: nat) {
    && base <= consumed <= |s|
    && Genuine(s, base, starts, events, consumed)
    && Disjoint(s, starts)
    && NothingMissed(s, base, starts, consumed)
  }

  lemma GoodOrNot(s: seq<Octet>, k: nat)
    requires k + 5 <= |s|
    ensures GoodFrameAt(s, k) <==> Marked(s[k..], 0) && Need(s[k..], 0) <= |s[k..]| && CrcMatches(s[k..], 0)
    ensures Need(s[k..], 0) == Need(s, k)
    ensures GoodFrameAt(s, k) ==> EventAt(s[k..], 0) == EventAt(s, k)
  {
    hide Marked, Need, CrcMatches, EventAt;
    FrameShift(s, k, k);
  }

  lemma GreedySkip(s: seq<Octet>, k: nat, starts: seq<nat>, events: seq<Event>, consumed: nat)
    requires k + 5 <= |s| && !GoodFrameAt(s, k)
    requires Greedy(s, k + 1, starts, events, consumed)
    ensures Greedy(s, k, starts, events, consumed)
  {
    hide GoodFrameAt, EventAt, Need;
  }

  lemma GenuineTake(s: seq<Octet>, k: nat, starts: seq<nat>, events: seq<Event>, consumed: nat)
    requires k + 5 <= |s| && GoodFrameAt(s, k) && k + Need(s, k) <= consumed
    requires Genuine(s, k + Need(s, k), starts, events, consumed)
    ensures Genuine(s, k, [k] + starts, [EventAt(s, k)] + events, consumed)
  {
    hide EventAt, Need, Marked, CrcMatches;
  }

  lemma DisjointTake(s: seq<Octet>, k: nat, starts: seq<nat>)
    requires k + 5 <= |s| && Disjoint(s, starts)
    requires forall i | 0 <= i < |starts| :: k + Need(s, k) <= starts[i]
    ensures Disjoint(s, [k] + starts)
  {
    hide Need;
    var starts' := [k] + starts;
    forall i, j | 0 <= i < j < |starts'|
      ensures EndsBefore(s, starts'[i], starts'[j])
    {
      assert starts'[j] == starts[j - 1];
      if i > 0 {
        assert starts'[i] == starts[i - 1];
      }
    }
  }

  lemma CoveredTake(s: seq<Octet>, k: nat, starts: seq<nat>, p: nat)
    requires Covered(s, starts, p)
    ensures Covered(s, [k] + starts, p)
  {
    hide Inside;
    var i :| 0 <= i < |starts| && (starts[i] == p || Inside(s, starts[i], p));
    assert ([k] + starts)[i + 1] == starts[i];
  }

  lemma NothingMissedTake(s: seq<Octet>, k: nat, starts: seq<nat>, consumed: nat)
    requires k + 5 <= |s|
    requires NothingMissed(s, k + Need(s, k), starts, consumed)
    ensures NothingMissed(s, k, [k] + starts, consumed)
  {
    hide Need, GoodFrameAt, Covered;
    forall p | k <= p < consumed && GoodFrameAt(s, p)
      ensures Covered(s, [k] + starts, p)
    {
      if p < k + Need(s, k) {
        CoveredFirst(s, k, starts, p);
      } else {
        CoveredTake(s, k, starts, p);
      }
    }
  }

  lemma CoveredFirst(s: seq<Octet>, k: nat, starts: seq<nat>, p: nat)
    requires k + 5 <= |s| && k <= p < k + Need(s, k)
    ensures Covered(s, [k] + starts, p)
  {
    hide Need;
    assert ([k] + starts)[0] == k;
  }

  lemma GreedyTake(s: seq<Octet>, k: nat, starts: seq<nat>, events: seq<Event>, consumed: nat)
    requires k + 5 <= |s| && GoodFrameAt(s, k)
    requires Greedy(s, k + Need(s, k), starts, events, consumed)
    ensures Greedy(s, k, [k] + starts, [EventAt(s, k)] + events, consumed)
  {
    GenuineTake(s, k, starts, events, consumed);
    DisjointTake(s, k, starts);
    NothingMissedTake(s, k, starts, consumed);
    hide Genuine, Disjoint, NothingMissed, GoodFrameAt, Need;
  }

  /** A suffix deframed from offset k, as places in the whole stream. */
  ghost predicate GreedyTail(s: seq<Octet>, k: nat)
    requires k <= |s|
  {
    var d := Deframe(s[k..]);
    && |d.rest| <= |s| - k
    && d.rest == s[|s| - |d.rest|..]
    && Greedy(s, k, Starts(s[k..], k), d.events, |s| - |d.rest|)
  }

  lemma GreedyTailStop(s: seq<Octet>, k: nat)
    requires k <= |s| && TurnOf(s[k..]) == Stop
    ensures GreedyTail(s, k)
  {
    hide Marked, CrcMatches, EventAt, Need, Greedy;
    GreedyNone(s, k);
  }

  lemma GreedyTailSkip(s: seq<Octet>, k: nat)
    requires k + 5 <= |s| && TurnOf(s[k..]) == Skip && GreedyTail(s, k + 1)
    ensures GreedyTail(s, k)
  {
    hide Marked, CrcMatches, EventAt, Need, Greedy, GoodFrameAt;
    var t := s[k + 1..];
    assert s[k..][1..] == t;
    GoodOrNot(s, k);
    GreedySkip(s, k, Starts(t, k + 1), Deframe(t).events, |s| - |Deframe(t).rest|);
  }

  lemma GreedyTailTake(s: seq<Octet>, k: nat)
    requires k + 5 <= |s| && TurnOf(s[k..]) == Take && k + Need(s, k) <= |s| && GreedyTail(s, k + Need(s, k))
    ensures GreedyTail(s, k)
  {
    hide Marked, CrcMatches, EventAt, Need, Greedy, GoodFrameAt;
    GoodOrNot(s, k);
    var n := Need(s, k);
    var t := s[k + n..];
    assert s[k..][n..] == t;
    GreedyTake(s, k, Starts(t, k + n), Deframe(t).events, |s| - |Deframe(t).rest|);
  }

  lemma {:induction false} GreedyFrom(s: seq<Octet>, k: nat)
    requires k <= |s|
    ensures GreedyTail(s, k)
    decreases |s| - k
  {
    hide GreedyTail, TurnOf, Need, Marked, CrcMatches;
    var b := s[k..];
    match TurnOf(b)
    case Stop =>
      GreedyTailStop(s, k);
    case Skip =>
      SkipHere(b);
      GreedyFrom(s, k + 1);
      GreedyTailSkip(s, k);
    case Take =>
      TakeHere(b);
      GoodOrNot(s, k);
      GreedyFrom(s, k + Need(s, k));
      GreedyTailTake(s, k);
  }

  lemma GreedyNone(s: seq<Octet>, k: nat)
    requires k <= |s|
    ensures Greedy(s, k, [], [], k)
  {
  }

  /**
   Deframing a whole stream delivers exactly the leftmost non-overlapping good frames of the
   region it consumes: sound, ordered, disjoint, and complete up to overlap.
   */
  lemma GreedySound(s: seq<Octet>)
    ensures var d := Deframe(s);
            && |d.rest| <= |s| && d.rest == s[|s| - |d.rest|..]
            && Greedy(s, 0, Starts(s, 0), d.events, |s| - |d.rest|)
  {
    hide Greedy, Deframe;
    GreedyFrom(s, 0);
    assert s[0..] == s;
  }

  // ----- every byte is accounted for -----

  /** The stream cut into framed bytes and skipped bytes. */
  datatype Piece = Framed(bytes: seq<Octet>) | Skipped(b: Octet)

  function Pieces(buf: seq<Octet>): seq<Piece>
    decreases |buf|
  {
    if |buf| < 5 then []
    else if !Marked(buf, 0) then [Skipped(buf[0])] + Pieces(buf[1..])
    else
      var need := Need(buf, 0);
      if |buf| < need then []
      else if !CrcMatches(buf, 0) then [Skipped(buf[0])] + Pieces(buf[1..])
      else [Framed(buf[..need])] + Pieces(buf[need..])
  }

  function Join(ps: seq<Piece>): seq<Octet> {
    if ps == [] then []
    else (match ps[0] case Framed(bytes) => bytes case Skipped(b) => [b]) + Join(ps[1..])
  }

  function EventsOf(ps: seq<Piece>): seq<Event>
    requires WholeFrames(ps)
  {
    if ps == [] then []
    else
      assert ps[0] in ps;
      (match ps[0] case Framed(bytes) => [EventAt(bytes, 0)] case Skipped(_) => []) + EventsOf(ps[1..])
  }

  lemma JoinCons(p: Piece, ps: seq<Piece>)
    ensures Join([p] + ps) == (match p case Framed(bytes) => bytes case Skipped(b) => [b]) + Join(ps)
  {
    assert ([p] + ps)[1..] == ps;
  }

  predicate WholeFrames(ps: seq<Piece>) {
    forall p | p in ps && p.Framed? :: |p.bytes| >= 4 && Need(p.bytes, 0) == |p.bytes|
  }

  lemma EventsCons(p: Piece, ps: seq<Piece>)
    requires WholeFrames(ps) && (p.Framed? ==> |p.bytes| >= 4 && Need(p.bytes, 0) == |p.bytes|)
    ensures WholeFrames([p] + ps)
    ensures EventsOf([p] + ps) == (match p case Framed(bytes) => [EventAt(bytes, 0)] case Skipped(_) => []) + EventsOf(ps)
  {
    hide Need, EventAt;
    assert ([p] + ps)[1..] == ps;
  }

  /** What one turn of the loop does at the front of the buffer. */
  datatype Turn = Stop | Skip | Take

  function TurnOf(buf: seq<Octet>): Turn {
    if |buf| < 5 then Stop
    else if !Marked(buf, 0) then Skip
    else if |buf| < Need(buf, 0) then Stop
    else if CrcMatches(buf, 0) then Take
    else Skip
  }

  lemma StopHere(buf: seq<Octet>)
    requires TurnOf(buf) == Stop
    ensures Deframe(buf) == Deframed([], buf) && Pieces(buf) == []
  {
    hide Marked, Need, CrcMatches;
  }

  lemma SkipHere(buf: seq<Octet>)
    requires TurnOf(buf) == Skip
    ensures |buf| >= 5
    ensures Deframe(buf) == Deframe(buf[1..]) && Pieces(buf) == [Skipped(buf[0])] + Pieces(buf[1..])
  {
    hide Marked, Need, CrcMatches;
  }

  lemma TakeHere(buf: seq<Octet>)
    requires TurnOf(buf) == Take
    ensures |buf| >= 5 && Need(buf, 0) <= |buf|
    ensures var n := Need(buf, 0);
            var d := Deframe(buf[n..]);
            && Deframe(buf) == Deframed([EventAt(buf, 0)] + d.events, d.rest)
            && Pieces(buf) == [Framed(buf[..n])] + Pieces(buf[n..])
  {
    hide Marked, Need, CrcMatches, EventAt;
  }

  lemma Reassemble(front: seq<Octet>, joined: seq<Octet>, rest: seq<Octet>, buf: seq<Octet>, k: nat)
    requires k <= |buf| && front == buf[..k] && joined + rest == buf[k..]
    ensures (front + joined) + rest == buf
  {
    assert (front + joined) + rest == front + (joined + rest);
  }

  lemma {:induction false} BytesAccounted(buf: seq<Octet>)
    ensures Join(Pieces(buf)) + Deframe(buf).rest == buf
    decreases |buf|
  {
    hide TurnOf, Need, Join, Pieces, Deframe;
    match TurnOf(buf)
    case Stop =>
      StopHere(buf);
      AccountingShort(buf);
    case Skip =>
      SkipHere(buf);
      var t := buf[1..];
      BytesAccounted(t);
      JoinCons(Skipped(buf[0]), Pieces(t));
      Reassemble([buf[0]], Join(Pieces(t)), Deframe(t).rest, buf, 1);
    case Take =>
      TakeHere(buf);
      var n := Need(buf, 0);
      var t := buf[n..];
      BytesAccounted(t);
      JoinCons(Framed(buf[..n]), Pieces(t));
      Reassemble(buf[..n], Join(Pieces(t)), Deframe(t).rest, buf, n);
  }

  lemma {:induction false} EventsAccounted(buf: seq<Octet>)
    ensures WholeFrames(Pieces(buf)) && EventsOf(Pieces(buf)) == Deframe(buf).events
    decreases |buf|
  {
    hide TurnOf, Need, EventsOf, WholeFrames, Pieces, Deframe, EventAt;
    match TurnOf(buf)
    case Stop =>
      StopHere(buf);
      AccountingShort(buf);
    case Skip =>
      SkipHere(buf);
      EventsAccounted(buf[1..]);
      EventsCons(Skipped(buf[0]), Pieces(buf[1..]));
    case Take =>
      TakeHere(buf);
      var n := Need(buf, 0);
      FrontFrame(buf);
      EventsAccounted(buf[n..]);
      EventsCons(Framed(buf[..n]), Pieces(buf[n..]));
  }

  /** Each byte is framed, skipped or residual, exactly once, and each framed piece is one callback. */
  lemma Accounting(buf: seq<Octet>)
    ensures Join(Pieces(buf)) + Deframe(buf).rest == buf
    ensures WholeFrames(Pieces(buf)) && EventsOf(Pieces(buf)) == Deframe(buf).events
  {
    BytesAccounted(buf);
    EventsAccounted(buf);
    hide *;
  }

  lemma AccountingShort(buf: seq<Octet>)
    ensures Join([]) + buf == buf && WholeFrames([]) && EventsOf([]) == []
  {
  }

  lemma FrontFrame(buf: seq<Octet>)
    requires |buf| >= 5 && Need(buf, 0) <= |buf|
    ensures var f := buf[..Need(buf, 0)];
            Need(f, 0) == |f| && EventAt(f, 0) == EventAt(buf, 0)
  {
    hide Octet.Value;
    var n := Need(buf, 0);
    assert n >= 5 ==> buf[..n][4..n - 1] == buf[4..n - 1];
  }
}
