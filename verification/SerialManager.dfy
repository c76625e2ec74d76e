/** The serial manager: its receive buffer across calls of poll. */
module SerialManager {
  import opened Octets
  import opened Crc8
  import opened SerialLink

  const READ_SIZE: nat := 256

  class SerialManager {
    var open: bool
    var rxBuf: seq<Octet>
    // what the device has been given, and what the receive callback has been given
    var written: seq<Octet>
    var delivered: seq<Event>
    ghost var received: seq<Octet>

    /** Callbacks and buffer are those of one pass over everything ever received. */
    ghost predicate Valid()
      reads this
    {
      Deframe(received) == Deframed(delivered, rxBuf) && |rxBuf| <= 258
    }

    constructor (open: bool)
      ensures Valid() && this.open == open && rxBuf == [] && written == [] && delivered == [] && received == []
    {
      this.open := open;
      rxBuf, written, delivered, received := [], [], [], [];
    }

    /** Over any life of the object, what was delivered is the leftmost non-overlapping good frames of what was read. */
    lemma DeliveredIsGreedy()
      requires Valid()
      ensures |rxBuf| <= |received| && rxBuf == received[|received| - |rxBuf|..]
      ensures Greedy(received, 0, Starts(received, 0), delivered, |received| - |rxBuf|)
    {
      hide Greedy, Deframe;
      GreedySound(received);
    }

    /** `taken` is the result of write(): how much of the frame the device accepts, or a negative error. */
    method SendCmd(cmd: Octet, payload: seq<Octet>, taken: int) returns (ok: bool)
      requires |payload| < 256 && taken <= |payload| + 5
      modifies this`written
      ensures !open ==> !ok && written == old(written)
      ensures open ==> written == old(written) + FrameBytes(cmd, payload)[..if taken < 0 then 0 else taken]
      ensures ok ==> written == old(written) + FrameBytes(cmd, payload)
      ensures ok <==> open && taken == |payload| + 5
    {
      if !open {
        return false;
      }
      var frame := BuildFrame(cmd, payload);
      if taken > 0 {
        written := written + frame[..taken];
      }
      ok := taken == |frame|;
    }

    /** `chunk` is what read() delivers, at most 256 bytes; empty when it returns zero or an error. */
    method Poll(chunk: seq<Octet>)
      requires Valid() && |chunk| <= READ_SIZE
      modifies this`rxBuf, this`delivered, this`received
      ensures Valid()
      ensures received == if open then old(received) + chunk else old(received)
      ensures var d := Deframe(old(rxBuf) + chunk);
              open ==> rxBuf == d.rest && delivered == old(delivered) + d.events
      ensures !open ==> rxBuf == old(rxBuf) && delivered == old(delivered)
    {
      hide Deframe, Need, CrcMatches, EventAt, Marked, DeframedTo, Crc, Octet.Value;
      if !open {
        return;
      }
      DeframeIdempotent(received);
      if chunk == [] {
        assert rxBuf + chunk == rxBuf && received + chunk == received && delivered + [] == delivered;
        return;
      }
      DeframeSplit(received, chunk);
      received := received + chunk;
      rxBuf := rxBuf + chunk;
      assert |rxBuf| <= 514;
      ghost var buf0, taken := rxBuf, [];
      var off := 0;
      DeframedStart(buf0);
      while |rxBuf| - off >= 5
        invariant off <= |rxBuf| && rxBuf == buf0 && received == old(received) + chunk
        invariant DeframedTo(buf0, off, taken) && delivered == old(delivered) + taken
      {
        if rxBuf[off] != SOF1 || rxBuf[off + 1] != SOF2 {
          DeframedSkip(buf0, off, taken);
          off := off + 1;
          continue;
        }
        var len := rxBuf[off + 2].Value();
        var need := len + 4;
        NeedIs(buf0, off, need);
        if |rxBuf| - off < need {
          break;
        }
        var crcCalc := ComputeCrc8(rxBuf[off + 2..off + need - 1]);
        var crcRecv := rxBuf[off + need - 1];
        MatchIs(buf0, off, crcCalc == crcRecv);
        if crcCalc != crcRecv {
          DeframedSkip(buf0, off, taken);
          off := off + 1;
          continue;
        }
        var plLen := if len == 0 then SIZE_T_MAX else len - 1;
        var e := Event(rxBuf[off + 3], plLen, if len == 0 then [] else rxBuf[off + 4..off + need - 1]);
        EventIs(buf0, off, e);
        delivered := delivered + [e];
        DeframedTake(buf0, off, taken);
        taken := taken + [e];
        off := off + need;
      }
      DeframedStop(buf0, off, taken);
      ResidueBound(buf0);
      if off > 0 {
        rxBuf := rxBuf[off..];
      }
    }
  }

  /** The deframing loop has delivered `taken` and stands at `off`. */
  ghost predicate DeframedTo(buf: seq<Octet>, off: nat, taken: seq<Event>) {
    && off <= |buf|
    && Deframe(buf) == Deframed(taken + Deframe(buf[off..]).events, Deframe(buf[off..]).rest)
  }

  lemma DeframedStart(buf: seq<Octet>)
    ensures DeframedTo(buf, 0, [])
  {
    hide Deframe;
    assert buf[0..] == buf;
    assert [] + Deframe(buf).events == Deframe(buf).events;
  }

  lemma NeedIs(buf: seq<Octet>, off: nat, need: nat)
    requires off + 3 <= |buf| && need == buf[off + 2].Value() + 4
    ensures Need(buf, off) == need
  {
  }

  lemma MatchIs(buf: seq<Octet>, off: nat, same: bool)
    requires off + 3 <= |buf| && off + Need(buf, off) <= |buf|
    requires same == (Crc(buf[off + 2..off + Need(buf, off) - 1]) == buf[off + Need(buf, off) - 1])
    ensures CrcMatches(buf, off) == same
  {
  }

  lemma EventIs(buf: seq<Octet>, off: nat, e: Event)
    requires off + 4 <= |buf| && off + Need(buf, off) <= |buf|
    requires var len := buf[off + 2].Value();
             e == if len == 0 then Event(buf[off + 3], SIZE_T_MAX, [])
             else Event(buf[off + 3], len - 1, buf[off + 4..off + Need(buf, off) - 1])
    ensures EventAt(buf, off) == e
  {
  }

  lemma DeframedSkip(buf: seq<Octet>, off: nat, taken: seq<Event>)
    requires off + 5 <= |buf| && DeframedTo(buf, off, taken)
    requires buf[off] == SOF1 && buf[off + 1] == SOF2 ==> off + Need(buf, off) <= |buf| && !CrcMatches(buf, off)
    ensures DeframedTo(buf, off + 1, taken)
  {
    GoodOrNot(buf, off);
    assert buf[off..][1..] == buf[off + 1..];
    hide Need, CrcMatches, Deframe, EventAt;
    assert TurnOf(buf[off..]) == Skip;
    SkipHere(buf[off..]);
  }

  lemma TakeTurn(buf: seq<Octet>, off: nat)
    requires off + 5 <= |buf|
    requires buf[off] == SOF1 && buf[off + 1] == SOF2 && off + Need(buf, off) <= |buf| && CrcMatches(buf, off)
    ensures TurnOf(buf[off..]) == Take
    ensures Need(buf[off..], 0) == Need(buf, off) && EventAt(buf[off..], 0) == EventAt(buf, off)
  {
    hide Need, CrcMatches, EventAt;
    GoodOrNot(buf, off);
  }

  lemma DeframedTake(buf: seq<Octet>, off: nat, taken: seq<Event>)
    requires off + 5 <= |buf| && DeframedTo(buf, off, taken)
    requires buf[off] == SOF1 && buf[off + 1] == SOF2 && off + Need(buf, off) <= |buf| && CrcMatches(buf, off)
    ensures DeframedTo(buf, off + Need(buf, off), taken + [EventAt(buf, off)])
  {
    hide Need, CrcMatches, Deframe, EventAt, GoodFrameAt, TurnOf;
    var n := Need(buf, off);
    TakeTurn(buf, off);
    assert buf[off..][n..] == buf[off + n..];
    TakeHere(buf[off..]);
    var e, d := EventAt(buf, off), Deframe(buf[off + n..]);
    assert taken + ([e] + d.events) == (taken + [e]) + d.events;
  }

  lemma DeframedStop(buf: seq<Octet>, off: nat, taken: seq<Event>)
    requires DeframedTo(buf, off, taken)
    requires |buf| - off < 5 || (buf[off] == SOF1 && buf[off + 1] == SOF2 && |buf| - off < Need(buf, off))
    ensures Deframe(buf) == Deframed(taken, buf[off..])
  {
    if |buf| - off >= 5 {
      GoodOrNot(buf, off);
    }
    hide Need, CrcMatches, Deframe, EventAt;
    assert TurnOf(buf[off..]) == Stop;
    StopHere(buf[off..]);
    assert taken + [] == taken;
  }
}
