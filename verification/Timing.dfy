/**
 Periodic firing on a 32-bit millisecond count of a nanosecond clock: how often, and how late.
 */
module Timing {
  import opened Bytes

  const NS_PER_MS: nat := 1_000_000

  /** static_cast<uint32_t>(duration_cast<milliseconds>(now - last).count()). */
  function Elapsed(last: nat, now: nat): (ms: nat)
    requires last <= now
    ensures ms < TWO_32
  {
    ((now - last) / NS_PER_MS) % TWO_32
  }

  /** Moments from `last` on, in order. */
  predicate Monotone(last: nat, ticks: seq<nat>) {
    && (forall i | 0 <= i < |ticks| :: last <= ticks[i])
    && (forall i, j | 0 <= i < j < |ticks| :: ticks[i] <= ticks[j])
  }

  /** The moments at which something that last fired at `last` fires again, when looked at on each tick. */
  function Firings(interval: nat, last: nat, ticks: seq<nat>): (r: seq<nat>)
    requires Monotone(last, ticks)
    decreases |ticks|
  {
    if ticks == [] then []
    else if Elapsed(last, ticks[0]) >= interval then [ticks[0]] + Firings(interval, ticks[0], ticks[1..])
    else Firings(interval, last, ticks[1..])
  }

  function LastOf(first: nat, times: seq<nat>): (r: nat) {
    if times == [] then first else times[|times| - 1]
  }

  // ----- one step -----

  /** The 32-bit truncation can only hide time, and hides none below 2^32 ms. */
  lemma ElapsedSound(last: nat, now: nat)
    requires last <= now
    ensures Elapsed(last, now) < 4294967296 && Elapsed(last, now) * 1_000_000 <= now - last
    ensures now - last < 4294967296 * 1_000_000 ==> now - last < (Elapsed(last, now) + 1) * 1_000_000
  {
    var ms := (now - last) / NS_PER_MS;
    assert ms % TWO_32 <= ms;
    if now - last < TWO_32 * NS_PER_MS {
      assert ms < TWO_32;
      assert ms % TWO_32 == ms;
    }
  }

  lemma MonotoneParts(last: nat, ticks: seq<nat>, now: nat)
    requires Monotone(last, ticks + [now])
    ensures Monotone(last, ticks) && LastOf(last, ticks) <= now
    ensures ticks != [] ==> Monotone(ticks[0], ticks[1..] + [now]) && Monotone(last, ticks[1..] + [now])
    ensures ticks != [] ==> last <= ticks[0] && Monotone(ticks[0], ticks[1..]) && Monotone(last, ticks[1..])
  {
    var all := ticks + [now];
    assert forall i | 0 <= i < |ticks| :: all[i] == ticks[i];
    assert all[|ticks|] == now;
    assert ticks != [] ==> all[0] == ticks[0] && forall i | 0 <= i < |ticks| :: (ticks[1..] + [now])[i] == all[i + 1];
  }

  /** One more tick fires or not, depending on the time since the last firing. */
  lemma {:induction false} FiringsAppend(interval: nat, last: nat, ticks: seq<nat>, now: nat)
    requires Monotone(last, ticks + [now])
    ensures Monotone(last, ticks)
    ensures var f := Firings(interval, last, ticks);
            && last <= LastOf(last, f) <= now
            && Firings(interval, last, ticks + [now])
               == f + (if Elapsed(LastOf(last, f), now) >= interval then [now] else [])
    decreases |ticks|
  {
    hide Elapsed, Monotone;
    var all := ticks + [now];
    MonotoneParts(last, ticks, now);
    if ticks == [] {
      assert all == [now] && [now][1..] == [];
    } else {
      assert all[1..] == ticks[1..] + [now] && all[0] == ticks[0];
      if Elapsed(last, ticks[0]) >= interval {
        FiringsAppend(interval, ticks[0], ticks[1..], now);
        LastOfCons(last, ticks[0], Firings(interval, ticks[0], ticks[1..]));
      } else {
        FiringsAppend(interval, last, ticks[1..], now);
      }
    }
  }

  lemma LastOfCons(first: nat, t: nat, times: seq<nat>)
    ensures LastOf(first, [t] + times) == LastOf(t, times)
  {
  }

  lemma SeenMore(base: nat, seen: seq<nat>, now: nat)
    requires Monotone(base, seen) && base <= now && LastOf(base, seen) <= now
    ensures Monotone(base, seen + [now])
  {
  }

  /** Firings happen on ticks, so between the start and the last tick. */
  lemma {:induction false} FiringsWithin(interval: nat, last: nat, ticks: seq<nat>)
    requires Monotone(last, ticks)
    ensures last <= LastOf(last, Firings(interval, last, ticks)) <= LastOf(last, ticks)
    decreases |ticks|
  {
    hide Elapsed;
    if ticks != [] {
      var rest := ticks[1..];
      assert LastOf(last, ticks) == LastOf(ticks[0], rest);
      if Elapsed(last, ticks[0]) >= interval {
        FiringsWithin(interval, ticks[0], rest);
        LastOfCons(last, ticks[0], Firings(interval, ticks[0], rest));
      } else {
        FiringsWithin(interval, last, rest);
      }
    }
  }

  // ----- not too often -----

  lemma TimesOnce(n: nat, span: nat)
    ensures (n + 1) * span == n * span + span
  {
  }

  lemma {:induction false} FiringsSpan(interval: nat, last: nat, ticks: seq<nat>)
    requires Monotone(last, ticks)
    ensures |Firings(interval, last, ticks)| * (interval * NS_PER_MS) <= LastOf(last, ticks) - last
    decreases |ticks|
  {
    hide Elapsed;
    if ticks != [] {
      var rest := ticks[1..];
      assert LastOf(last, ticks) == LastOf(ticks[0], rest);
      if Elapsed(last, ticks[0]) >= interval {
        FiringsSpan(interval, ticks[0], rest);
        ElapsedSound(last, ticks[0]);
        assert interval * NS_PER_MS <= Elapsed(last, ticks[0]) * NS_PER_MS;
        TimesOnce(|Firings(interval, ticks[0], rest)|, interval * NS_PER_MS);
      } else {
        FiringsSpan(interval, last, rest);
        if rest == [] {
          assert LastOf(last, rest) == last;
        } else {
          assert LastOf(last, rest) == LastOf(ticks[0], rest);
        }
      }
    }
  }

  lemma MoreTimes(a: nat, b: nat, span: nat)
    requires a <= b
    ensures a * span <= b * span
  {
  }

  lemma AtMostQuotient(n: nat, m: nat, d: nat)
    requires d > 0 && n * d <= m
    ensures n <= m / d
  {
    var q := m / d;
    assert m == q * d + m % d && m % d < d;
    if n > q {
      MoreTimes(q + 1, n, d);
      TimesOnce(q, d);
    }
  }

  lemma QuotientBound(n: nat, interval: nat, ns: nat)
    requires interval > 0 && n * (interval * NS_PER_MS) <= ns
    ensures n <= (ns / NS_PER_MS) / interval
  {
    assert (n * interval) * NS_PER_MS == n * (interval * NS_PER_MS);
    AtMostQuotient(n * interval, ns, NS_PER_MS);
    AtMostQuotient(n, ns / NS_PER_MS, interval);
  }

  /** At most floor(T / interval) firings in T milliseconds, wrap-around or not. */
  lemma FiringsBounded(interval: nat, last: nat, ticks: seq<nat>)
    requires interval > 0 && Monotone(last, ticks)
    ensures LastOf(last, ticks) >= last
    ensures |Firings(interval, last, ticks)| <= ((LastOf(last, ticks) - last) / NS_PER_MS) / interval
  {
    hide Firings;
    FiringsSpan(interval, last, ticks);
    QuotientBound(|Firings(interval, last, ticks)|, interval, LastOf(last, ticks) - last);
  }

  /** Consecutive firings are never less than the interval apart, whatever the ticks. */
  lemma {:induction false} FiringsApart(interval: nat, last: nat, ticks: seq<nat>)
    requires Monotone(last, ticks)
    ensures var f := Firings(interval, last, ticks);
            && (|f| > 0 ==> last + interval * NS_PER_MS <= f[0])
            && (forall i | 0 < i < |f| :: f[i - 1] + interval * NS_PER_MS <= f[i])
    decreases |ticks|
  {
    hide Elapsed;
    if ticks != [] {
      if Elapsed(last, ticks[0]) >= interval {
        ElapsedSound(last, ticks[0]);
        FiringsApart(interval, ticks[0], ticks[1..]);
      } else {
        FiringsApart(interval, last, ticks[1..]);
      }
    }
  }

  // ----- not too late -----

  /** No two consecutive ticks, nor `from` and the first, more than g milliseconds apart. */
  predicate GapsAtMost(from: nat, ticks: seq<nat>, g: nat) {
    && (|ticks| > 0 ==> ticks[0] <= from + g * NS_PER_MS)
    && (forall i | 0 < i < |ticks| :: ticks[i] <= ticks[i - 1] + g * NS_PER_MS)
  }

  /** Consecutive times, starting with `first`, at least lo and less than hi apart. */
  predicate Spaced(first: nat, times: seq<nat>, lo: nat, hi: nat) {
    && (|times| > 0 ==> first + lo <= times[0] < first + hi)
    && (forall i | 0 < i < |times| :: times[i - 1] + lo <= times[i] < times[i - 1] + hi)
  }

  lemma SpacedNone(first: nat, lo: nat, hi: nat)
    ensures Spaced(first, [], lo, hi)
  {
  }

  lemma SpacedCons(first: nat, t: nat, times: seq<nat>, lo: nat, hi: nat)
    requires first + lo <= t < first + hi && Spaced(t, times, lo, hi)
    ensures Spaced(first, [t] + times, lo, hi)
  {
  }

  /**
   With ticks at most g ms apart and interval + g <= 2^32, consecutive firings are at least the
   interval and less than interval + g apart, and on the last tick no firing is overdue.
   `seen` is the tick before the first one here.
   */
  lemma {:induction false} FiringsPunctual(interval: nat, last: nat, seen: nat, ticks: seq<nat>, g: nat)
    requires interval + g <= TWO_32 && interval > 0
    requires last <= seen < last + interval * NS_PER_MS
    requires Monotone(seen, ticks) && GapsAtMost(seen, ticks, g)
    ensures Monotone(last, ticks)
    ensures var f := Firings(interval, last, ticks);
            && Spaced(last, f, interval * NS_PER_MS, (interval + g) * NS_PER_MS)
            && LastOf(seen, ticks) < LastOf(last, f) + interval * NS_PER_MS
    decreases |ticks|
  {
    hide Elapsed, Spaced;
    if ticks == [] {
      SpacedNone(last, interval * NS_PER_MS, (interval + g) * NS_PER_MS);
    } else {
      var t, rest := ticks[0], ticks[1..];
      GapsRest(seen, ticks, g);
      ElapsedSound(last, t);
      if Elapsed(last, t) >= interval {
        FiringsPunctual(interval, t, t, rest, g);
        SpacedCons(last, t, Firings(interval, t, rest), interval * NS_PER_MS, (interval + g) * NS_PER_MS);
      } else {
        FiringsPunctual(interval, last, t, rest, g);
      }
    }
  }

  lemma GapsRest(seen: nat, ticks: seq<nat>, g: nat)
    requires |ticks| > 0 && Monotone(seen, ticks) && GapsAtMost(seen, ticks, g)
    ensures Monotone(ticks[0], ticks[1..]) && GapsAtMost(ticks[0], ticks[1..], g)
    ensures LastOf(seen, ticks) == LastOf(ticks[0], ticks[1..])
  {
  }

  /** The interval is kept, up to one tick's delay, on every schedule with gaps of at most g ms. */
  ghost predicate AlwaysPunctual(interval: nat, g: nat) {
    forall last: nat, ticks: seq<nat> | Monotone(last, ticks) && GapsAtMost(last, ticks, g) ::
      var f := Firings(interval, last, ticks);
      && Spaced(last, f, interval * NS_PER_MS, (interval + g) * NS_PER_MS)
      && LastOf(last, ticks) < LastOf(last, f) + interval * NS_PER_MS
  }

  /** A tick every millisecond up to just before the deadline, then one exactly 2^32 ms after the start. */
  function MissingSchedule(interval: nat): seq<nat>
    requires interval > 0
  {
    seq(interval - 1, k requires 0 <= k < interval - 1 => (k + 1) * NS_PER_MS) + [TWO_32 * NS_PER_MS]
  }

  lemma {:induction false} NothingEarly(interval: nat, ticks: seq<nat>)
    requires interval > 0 && Monotone(0, ticks)
    requires forall i | 0 <= i < |ticks| :: Elapsed(0, ticks[i]) < interval
    ensures Firings(interval, 0, ticks) == []
    decreases |ticks|
  {
    hide Elapsed;
    if ticks != [] {
      NothingEarly(interval, ticks[1..]);
    }
  }

  lemma WholeMs(k: nat)
    requires k < TWO_32
    ensures Elapsed(0, k * NS_PER_MS) == k
  {
  }

  lemma ScheduleMisses(interval: nat, g: nat)
    requires 0 < interval < TWO_32 < interval + g
    ensures var s := MissingSchedule(interval);
            && Monotone(0, s) && GapsAtMost(0, s, g)
            && Firings(interval, 0, s) == [] && LastOf(0, s) == TWO_32 * NS_PER_MS
  {
    hide Elapsed;
    var s := MissingSchedule(interval);
    forall i | 0 <= i < |s|
      ensures Elapsed(0, s[i]) < interval
    {
      if i < interval - 1 {
        WholeMs(i + 1);
      } else {
        WholeWraps(0, 1);
      }
    }
    NothingEarly(interval, s);
  }

  /** Punctual on every schedule exactly when the interval and the longest gap add up to at most 2^32 ms. */
  lemma PunctualExact(interval: nat, g: nat)
    requires 0 < interval < TWO_32
    ensures AlwaysPunctual(interval, g) <==> interval + g <= TWO_32
  {
    hide Firings, Spaced, GapsAtMost, Monotone, LastOf, MissingSchedule;
    if interval + g <= TWO_32 {
      forall last: nat, ticks: seq<nat> | Monotone(last, ticks) && GapsAtMost(last, ticks, g)
        ensures var f := Firings(interval, last, ticks);
                && Spaced(last, f, interval * NS_PER_MS, (interval + g) * NS_PER_MS)
                && LastOf(last, ticks) < LastOf(last, f) + interval * NS_PER_MS
      {
        FiringsPunctual(interval, last, last, ticks, g);
      }
    } else {
      ScheduleMisses(interval, g);
      var s := MissingSchedule(interval);
      LastOfNone(0);
      assert Monotone(0, s) && GapsAtMost(0, s, g) && !(LastOf(0, s) < LastOf(0, Firings(interval, 0, s)) + interval * NS_PER_MS);
    }
  }

  lemma LastOfNone(first: nat)
    ensures LastOf(first, []) == first
  {
  }

  /** Without the bound on the gaps the wrap can hide every firing: ticks exactly 2^32 ms apart. */
  lemma {:induction false} WrapHidesAll(interval: nat, last: nat, wraps: nat, ticks: seq<nat>)
    requires interval > 0
    requires forall i | 0 <= i < |ticks| :: ticks[i] == last + (wraps + i) * (TWO_32 * NS_PER_MS)
    ensures Monotone(last, ticks) && Firings(interval, last, ticks) == []
    decreases |ticks|
  {
    forall i, j | 0 <= i < j < |ticks|
      ensures ticks[i] <= ticks[j]
    {
      MoreWraps(wraps + i, wraps + j);
    }
    if ticks != [] {
      WholeWraps(last, wraps);
      WrapHidesAll(interval, last, wraps + 1, ticks[1..]);
    }
  }

  lemma MoreWraps(a: nat, b: nat)
    requires a <= b
    ensures a * (TWO_32 * NS_PER_MS) <= b * (TWO_32 * NS_PER_MS)
  {
  }

  lemma WholeWraps(last: nat, wraps: nat)
    ensures Elapsed(last, last + wraps * (TWO_32 * NS_PER_MS)) == 0
  {
    assert wraps * (TWO_32 * NS_PER_MS) == (wraps * TWO_32) * NS_PER_MS;
    assert ((wraps * TWO_32) * NS_PER_MS) / NS_PER_MS == wraps * TWO_32;
    assert (wraps * TWO_32) % TWO_32 == 0;
  }
}
