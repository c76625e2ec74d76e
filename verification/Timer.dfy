/**
 The one-shot or repeating Timer. The clock reading is a parameter of each call that takes one.
 */
module Timer {
  import opened Bytes
  import opened Timing

  class Timer {
    var interval: nat
    var repeats: bool
    var running: bool
    var last: nat
    ghost var clock: nat      // latest clock reading
    ghost var base: nat       // value of `last` when counting began: the last start, reset or new setting
    ghost var seen: seq<nat>  // checks made while running since then
    ghost var fired: seq<nat> // those that fired

    ghost predicate Valid()
      reads this
    {
      && interval < TWO_32
      && Monotone(base, seen) && base <= clock && LastOf(base, seen) <= clock
      && fired == Firings(interval, base, seen)
      && last == LastOf(base, fired)
      && (!repeats ==> |fired| <= 1 && (running ==> fired == []))
    }

    constructor (interval: nat, repeats: bool)
      requires interval < TWO_32
      ensures Valid() && !running && this.interval == interval && this.repeats == repeats && fired == []
    {
      this.interval, this.repeats, running, last := interval, repeats, false, 0;
      clock, base, seen, fired := 0, 0, [], [];
    }

    method SetInterval(ms: nat)
      requires Valid() && ms < TWO_32
      modifies this`interval, this`base, this`seen, this`fired
      ensures Valid() && interval == ms && base == last && seen == fired == []
    {
      interval := ms;
      LastBounded(this);
      base, seen, fired := last, [], [];
    }

    method SetRepeat(r: bool)
      requires Valid()
      modifies this`repeats, this`base, this`seen, this`fired
      ensures Valid() && repeats == r && base == last && seen == fired == []
    {
      repeats := r;
      LastBounded(this);
      base, seen, fired := last, [], [];
    }

    method Start(now: nat)
      requires Valid() && clock <= now
      modifies this`running, this`last, this`clock, this`base, this`seen, this`fired
      ensures Valid() && running && last == base == clock == now && seen == fired == []
    {
      running, last := true, now;
      clock, base, seen, fired := now, now, [], [];
    }

    method Stop()
      requires Valid()
      modifies this`running
      ensures Valid() && !running
    {
      running := false;
    }

    method Reset(now: nat)
      requires Valid() && clock <= now
      modifies this`last, this`clock, this`base, this`seen, this`fired
      ensures Valid() && last == base == clock == now && seen == fired == []
    {
      last := now;
      clock, base, seen, fired := now, now, [], [];
    }

    /** Fires exactly when running and the 32-bit elapsed time has reached the interval. */
    method Check(now: nat) returns (due: bool)
      requires Valid() && clock <= now
      modifies this`running, this`last, this`clock, this`seen, this`fired
      ensures Valid() && clock == now
      ensures !old(running) ==> !due && !running && last == old(last) && seen == old(seen)
      ensures old(running) ==> old(last) <= now && due == (Elapsed(old(last), now) >= interval) && seen == old(seen) + [now]
      ensures fired == old(fired) + (if due then [now] else [])
      ensures last == (if due then now else old(last)) && running == (old(running) && (due ==> repeats))
    {
      hide Firings, Elapsed, Monotone;
      clock := now;
      LastBounded(this);
      if !running {
        return false;
      }
      SeenMore(base, seen, now);
      FiringsAppend(interval, base, seen, now);
      seen := seen + [now];
      var elapsed := Elapsed(last, now);
      if elapsed < interval {
        return false;
      }
      last := now;
      if !repeats {
        running := false;
      }
      fired := fired + [now];
      return true;
    }
  }

  lemma LastBounded(t: Timer)
    requires Monotone(t.base, t.seen) && t.base <= t.clock && LastOf(t.base, t.seen) <= t.clock
    requires t.last == LastOf(t.base, t.fired)
    requires exists i: nat :: t.fired == Firings(i, t.base, t.seen)
    ensures t.base <= t.last <= t.clock
  {
    var i: nat :| t.fired == Firings(i, t.base, t.seen);
    FiringsWithin(i, t.base, t.seen);
  }

  /** In T milliseconds since counting began a timer has fired at most floor(T / interval) times; a one-shot at most once. */
  lemma FiresAtMost(t: Timer)
    requires t.Valid() && t.interval > 0
    ensures |t.fired| <= ((t.clock - t.base) / NS_PER_MS) / t.interval
    ensures !t.repeats ==> |t.fired| <= 1
  {
    hide Firings;
    FiringsSpan(t.interval, t.base, t.seen);
    QuotientBound(|t.fired|, t.interval, t.clock - t.base);
  }

  /** If it is checked at most g ms apart, with interval + g <= 2^32, its firings are punctual. */
  lemma FiresOnTime(t: Timer, g: nat)
    requires t.Valid() && t.interval > 0 && t.interval + g <= TWO_32
    requires GapsAtMost(t.base, t.seen, g)
    ensures Spaced(t.base, t.fired, t.interval * NS_PER_MS, (t.interval + g) * NS_PER_MS)
    ensures LastOf(t.base, t.seen) < t.last + t.interval * NS_PER_MS
  {
    hide Firings, Spaced, GapsAtMost;
    FiringsPunctual(t.interval, t.base, t.base, t.seen, g);
  }
}
