/**
 The cooperative scheduler of periodic tasks. The clock reading is a parameter of each call that
 takes one; a callback is an entry in the list of calls made.
 */
module TaskScheduler {
  import opened Bytes
  import opened Timing

  datatype Task = Task(id: int, interval: nat, last: nat)

  /** What has happened to a task since it was added at `base`: the ticks seen and the ticks it ran on. */
  datatype History = History(base: nat, seen: seq<nat>, fired: seq<nat>)

  /** A task behaves as a periodic firing over the ticks it has seen. */
  ghost predicate Tracks(t: Task, h: History, clock: nat) {
    && t.interval < TWO_32
    && Monotone(h.base, h.seen) && h.base <= clock && LastOf(h.base, h.seen) <= clock
    && h.fired == Firings(t.interval, h.base, h.seen)
    && t.last == LastOf(h.base, h.fired)
  }

  predicate Due(t: Task, now: nat)
    requires t.last <= now
  {
    Elapsed(t.last, now) >= t.interval
  }

  function Ticked(t: Task, now: nat): (r: Task)
    requires t.last <= now
  {
    if Due(t, now) then t.(last := now) else t
  }

  /** The tasks a tick runs, in list order. */
  function DueIds(ts: seq<Task>, now: nat): (r: seq<int>)
    requires forall t | t in ts :: t.last <= now
  {
    if ts == [] then []
    else (if Due(ts[0], now) then [ts[0].id] else []) + DueIds(ts[1..], now)
  }

  class TaskScheduler {
    var tasks: seq<Task>
    var nextId: int
    ghost var clock: nat
    ghost var histories: map<int, History>
    ghost var calls: seq<(int, nat)>

    ghost predicate Valid()
      reads this
    {
      && (forall id | id in histories :: id < nextId)
      && Known(tasks, histories, clock)
    }

    constructor ()
      ensures Valid() && tasks == [] && calls == [] && clock == 0
    {
      tasks, nextId := [], 0;
      clock, histories, calls := 0, map[], [];
    }

    /** A new task gets an id never handed out before. */
    method AddTask(interval: nat, now: nat) returns (id: int)
      requires Valid() && interval < TWO_32 && clock <= now
      modifies this
      ensures Valid() && clock == now && calls == old(calls)
      ensures id !in old(histories) && histories == old(histories)[id := History(now, [], [])]
      ensures tasks == old(tasks) + [Task(id, interval, now)]
    {
      hide Firings;
      id := nextId;
      nextId := nextId + 1;
      FiringsNone(interval, now);
      tasks := tasks + [Task(id, interval, now)];
      histories := histories[id := History(now, [], [])];
      clock := now;
    }

    /** Removes the task with that id, wherever it stands, and no other. */
    method RemoveTask(id: int)
      requires Valid()
      modifies this`tasks
      ensures Valid()
      ensures forall t :: t in tasks <==> t in old(tasks) && t.id != id
      ensures (forall t | t in old(tasks) :: t.id != id) ==> tasks == old(tasks)
      ensures forall k | 0 <= k < |old(tasks)| && old(tasks)[k].id == id :: tasks == Without(old(tasks), k)
    {
      hide Tracks, Known;
      var i := 0;
      while i < |tasks|
        invariant 0 <= i <= |tasks| && tasks == old(tasks)
        invariant forall j | 0 <= j < i :: tasks[j].id != id
      {
        if tasks[i].id == id {
          Removed(tasks, histories, clock, i);
          tasks := Without(tasks, i);
          return;
        }
        i := i + 1;
      }
    }

    /** Every task sees the tick; those that are due run, in list order. */
    method Tick(now: nat)
      requires Valid() && clock <= now
      modifies this
      ensures Valid() && clock == now && histories.Keys == old(histories).Keys
      ensures |tasks| == |old(tasks)|
      ensures forall t | t in old(tasks) :: t.last <= now
      ensures forall i | 0 <= i < |tasks| :: tasks[i] == Ticked(old(tasks)[i], now)
      ensures forall t | t in old(tasks) ::
                t.id in old(histories) && t.id in histories && histories[t.id] == Extended(old(histories)[t.id], t, now)
      ensures calls == old(calls) + At(DueIds(old(tasks), now), now)
    {
      hide Tracks, Due, Known, TickedTo, Ticked, At, DueIds, Extended;
      ghost var ts, hs, before := tasks, histories, calls;
      TickStart(ts, hs, before, clock, now);
      var i := 0;
      while i < |tasks|
        invariant 0 <= i <= |ts| == |tasks| && nextId == old(nextId) && clock == old(clock)
        invariant TickedTo(ts, hs, before, now, i, tasks, histories, calls)
      {
        TickStep(ts, hs, before, now, i, tasks, histories, calls);
        var t := tasks[i];
        histories := histories[t.id := Extended(histories[t.id], t, now)];
        if Due(t, now) {
          tasks := tasks[i := t.(last := now)];
          calls := calls + [(t.id, now)];
        }
        i := i + 1;
      }
      TickEnd(ts, hs, before, clock, now, tasks, histories, calls);
      TickKnown(ts, hs, clock, now, tasks, histories);
      clock := now;
    }
  }

  /** Distinct ids in increasing order, each task following its history. */
  ghost predicate Known(ts: seq<Task>, hs: map<int, History>, clock: nat) {
    && Ordered(ts)
    && (forall t | t in ts :: t.id in hs && Tracks(t, hs[t.id], clock))
  }

  /** The state of a tick that has dealt with the first i tasks. */
  ghost predicate TickedTo(ts: seq<Task>, hs: map<int, History>, before: seq<(int, nat)>, now: nat, i: nat,
                           tasks: seq<Task>, histories: map<int, History>, calls: seq<(int, nat)>)
  {
    && i <= |ts| == |tasks| && histories.Keys == hs.Keys
    && (forall t | t in ts :: t.last <= now && t.id in hs)
    && Ordered(ts)
    && (forall j | 0 <= j < i :: tasks[j] == Ticked(ts[j], now) && histories[ts[j].id] == Extended(hs[ts[j].id], ts[j], now))
    && (forall j | i <= j < |ts| :: tasks[j] == ts[j] && histories[ts[j].id] == hs[ts[j].id])
    && calls == before + At(DueIds(ts[..i], now), now)
  }

  lemma TickStart(ts: seq<Task>, hs: map<int, History>, before: seq<(int, nat)>, clock: nat, now: nat)
    requires Known(ts, hs, clock) && clock <= now
    ensures TickedTo(ts, hs, before, now, 0, ts, hs, before)
  {
    hide Tracks, Due;
    AllBefore(ts, hs, clock, now);
    assert ts[..0] == [];
  }

  lemma TickStep(ts: seq<Task>, hs: map<int, History>, before: seq<(int, nat)>, now: nat, i: nat,
                 tasks: seq<Task>, histories: map<int, History>, calls: seq<(int, nat)>)
    requires TickedTo(ts, hs, before, now, i, tasks, histories, calls) && i < |ts|
    ensures var t := tasks[i];
            && t.last <= now && t.id in histories
            && TickedTo(ts, hs, before, now, i + 1,
                        if Due(t, now) then tasks[i := t.(last := now)] else tasks,
                        histories[t.id := Extended(histories[t.id], t, now)],
                        if Due(t, now) then calls + [(t.id, now)] else calls)
  {
    hide Due, Extended, DueIds, At;
    assert tasks[i] == ts[i] && ts[i] in ts;
    Unique(ts, i);
    DueIdsStep(ts, i, now);
    assert forall j | 0 <= j < |ts| :: ts[j] in ts;
  }

  lemma TickEnd(ts: seq<Task>, hs: map<int, History>, before: seq<(int, nat)>, clock: nat, now: nat,
                tasks: seq<Task>, histories: map<int, History>, calls: seq<(int, nat)>)
    requires TickedTo(ts, hs, before, now, |ts|, tasks, histories, calls)
    ensures histories.Keys == hs.Keys && |tasks| == |ts|
    ensures forall t | t in ts :: t.last <= now && t.id in hs
    ensures forall j | 0 <= j < |ts| :: tasks[j] == Ticked(ts[j], now)
    ensures forall t | t in ts :: t.id in histories && histories[t.id] == Extended(hs[t.id], t, now)
    ensures calls == before + At(DueIds(ts, now), now)
  {
    hide Due, Extended, Ticked, At, DueIds;
    assert ts[..|ts|] == ts;
  }

  lemma TickKnown(ts: seq<Task>, hs: map<int, History>, clock: nat, now: nat, tasks: seq<Task>, histories: map<int, History>)
    requires Known(ts, hs, clock) && clock <= now && |tasks| == |ts|
    requires forall t | t in ts :: t.last <= now
    requires forall j | 0 <= j < |ts| :: tasks[j] == Ticked(ts[j], now)
    requires forall t | t in ts :: t.id in histories && histories[t.id] == Extended(hs[t.id], t, now)
    ensures Known(tasks, histories, now)
  {
    hide Due, Tracks, Extended;
    forall t | t in tasks
      ensures t.id in histories && Tracks(t, histories[t.id], now)
    {
      var j :| 0 <= j < |tasks| && tasks[j] == t;
      assert ts[j] in ts;
      TracksTicked(ts[j], hs[ts[j].id], clock, now);
    }
  }

  function At(ids: seq<int>, now: nat): (r: seq<(int, nat)>)
    ensures |r| == |ids|
  {
    seq(|ids|, i requires 0 <= i < |ids| => (ids[i], now))
  }

  ghost function Extended(h: History, t: Task, now: nat): History
    requires t.last <= now
  {
    History(h.base, h.seen + [now], h.fired + (if Due(t, now) then [now] else []))
  }

  lemma FiringsNone(interval: nat, now: nat)
    ensures Monotone(now, []) && Firings(interval, now, []) == []
  {
  }

  lemma Unique(ts: seq<Task>, i: nat)
    requires i < |ts| && Ordered(ts)
    ensures forall j | 0 <= j < |ts| && j != i :: ts[j].id != ts[i].id
  {
  }

  function Without(ts: seq<Task>, k: nat): seq<Task>
    requires k < |ts|
  {
    ts[..k] + ts[k + 1..]
  }

  predicate Ordered(ts: seq<Task>) {
    forall i, j | 0 <= i < j < |ts| :: ts[i].id < ts[j].id
  }

  lemma Around(ts: seq<Task>, i: nat, t: Task)
    requires i < |ts|
    ensures t in ts <==> t in ts[..i] || t == ts[i] || t in ts[i + 1..]
  {
    assert ts == ts[..i] + ([ts[i]] + ts[i + 1..]);
  }

  lemma OtherId(ts: seq<Task>, i: nat, t: Task)
    requires i < |ts| && Ordered(ts)
    requires t in ts[..i] || t in ts[i + 1..]
    ensures t.id != ts[i].id
  {
    hide Ordered;
    if t in ts[..i] {
      var j :| 0 <= j < i && ts[j] == t;
      InOrder(ts, j, i);
    } else {
      var j :| i < j < |ts| && ts[j] == t;
      InOrder(ts, i, j);
    }
  }

  /** Taking out one of several tasks with distinct ids takes out that id and nothing else. */
  lemma WithoutMember(ts: seq<Task>, i: nat, t: Task)
    requires i < |ts| && Ordered(ts)
    ensures t in Without(ts, i) <==> t in ts && t.id != ts[i].id
  {
    hide Ordered;
    Around(ts, i, t);
    if t in ts[..i] || t in ts[i + 1..] {
      OtherId(ts, i, t);
    }
  }

  lemma InOrder(ts: seq<Task>, i: nat, j: nat)
    requires Ordered(ts) && i < j < |ts|
    ensures ts[i].id < ts[j].id
  {
  }

  lemma WithoutOrdered(ts: seq<Task>, k: nat)
    requires k < |ts| && Ordered(ts)
    ensures Ordered(Without(ts, k))
  {
    var us := Without(ts, k);
    forall i, j | 0 <= i < j < |us|
      ensures us[i].id < us[j].id
    {
      hide Ordered;
      InOrder(ts, if i < k then i else i + 1, if j < k then j else j + 1);
    }
  }

  lemma Removed(ts: seq<Task>, hs: map<int, History>, clock: nat, i: nat)
    requires i < |ts| && Known(ts, hs, clock)
    ensures Known(Without(ts, i), hs, clock)
    ensures forall t :: t in Without(ts, i) <==> t in ts && t.id != ts[i].id
    ensures forall k | 0 <= k < |ts| && ts[k].id == ts[i].id :: k == i
  {
    hide Tracks, Without, Ordered;
    WithoutOrdered(ts, i);
    forall t
      ensures t in Without(ts, i) <==> t in ts && t.id != ts[i].id
    {
      WithoutMember(ts, i, t);
    }
    Unique(ts, i);
  }

  lemma {:induction false} DueIdsConcat(ts: seq<Task>, us: seq<Task>, now: nat)
    requires forall t | t in ts + us :: t.last <= now
    ensures (forall t | t in ts :: t.last <= now) && (forall t | t in us :: t.last <= now)
    ensures DueIds(ts + us, now) == DueIds(ts, now) + DueIds(us, now)
  {
    hide Due;
    assert forall t | t in ts :: t in ts + us;
    assert forall t | t in us :: t in ts + us;
    if ts == [] {
      assert ts + us == us;
    } else {
      assert (ts + us)[1..] == ts[1..] + us;
      DueIdsConcat(ts[1..], us, now);
    }
  }

  /** A task with that id is on the list and its interval has passed. */
  ghost predicate Overdue(ts: seq<Task>, id: int, now: nat)
    requires forall t | t in ts :: t.last <= now
  {
    exists i :: 0 <= i < |ts| && ts[i].id == id && Elapsed(ts[i].last, now) >= ts[i].interval
  }

  lemma OverdueFirst(ts: seq<Task>, id: int, now: nat)
    requires ts != [] && forall t | t in ts :: t.last <= now
    ensures Overdue(ts, id, now) <==> (ts[0].id == id && Elapsed(ts[0].last, now) >= ts[0].interval) || Overdue(ts[1..], id, now)
  {
    hide Elapsed;
    if Overdue(ts, id, now) {
      var i :| 0 <= i < |ts| && ts[i].id == id && Elapsed(ts[i].last, now) >= ts[i].interval;
      assert i > 0 ==> ts[1..][i - 1] == ts[i];
    }
    if Overdue(ts[1..], id, now) {
      var i :| 0 <= i < |ts[1..]| && ts[1..][i].id == id && Elapsed(ts[1..][i].last, now) >= ts[1..][i].interval;
      assert ts[i + 1] == ts[1..][i];
    }
  }

  lemma NothingOverdue(now: nat)
    ensures forall id :: !Overdue([], id, now)
  {
  }

  lemma OverdueAfter(ts: seq<Task>, id: int, now: nat)
    requires ts != [] && Ordered(ts) && (forall t | t in ts :: t.last <= now) && Overdue(ts[1..], id, now)
    ensures ts[0].id < id
  {
    hide Elapsed;
    var i :| 0 <= i < |ts[1..]| && ts[1..][i].id == id;
    assert ts[1..][i] == ts[i + 1];
  }

  /** The calls of a tick: once each task whose interval has passed, and no other, in the order of the ids. */
  lemma {:induction false} DueIdsExact(ts: seq<Task>, now: nat)
    requires Ordered(ts) && forall t | t in ts :: t.last <= now
    ensures var r := DueIds(ts, now);
            && Increasing(r) && (forall id :: id in r <==> Overdue(ts, id, now))
  {
    hide Elapsed, Overdue, Increasing;
    if ts == [] {
      NothingOverdue(now);
      IncreasingNone();
    } else {
      assert forall i | 0 <= i < |ts[1..]| :: ts[1..][i] == ts[i + 1];
      DueIdsExact(ts[1..], now);
      var r := DueIds(ts[1..], now);
      forall id | id in r
        ensures ts[0].id < id
      {
        OverdueAfter(ts, id, now);
      }
      forall id
        ensures Overdue(ts, id, now)
                <==> (ts[0].id == id && Elapsed(ts[0].last, now) >= ts[0].interval) || Overdue(ts[1..], id, now)
      {
        OverdueFirst(ts, id, now);
      }
      if Due(ts[0], now) {
        SmallestFirst(ts[0].id, r);
      }
      assert DueIds(ts, now) == if Due(ts[0], now) then [ts[0].id] + r else r;
    }
  }

  predicate Increasing(r: seq<int>) {
    forall i, j | 0 <= i < j < |r| :: r[i] < r[j]
  }

  lemma IncreasingNone()
    ensures Increasing([])
  {
  }

  lemma SmallestFirst(id: int, r: seq<int>)
    requires Increasing(r) && forall i | i in r :: id < i
    ensures Increasing([id] + r) && forall i :: i in [id] + r <==> i == id || i in r
  {
    var all := [id] + r;
    forall i, j | 0 <= i < j < |all|
      ensures all[i] < all[j]
    {
      var y := r[j - 1];
      assert all[j] == y && y in r;
      if i > 0 {
        var x := r[i - 1];
        assert all[i] == x;
      }
    }
  }

  lemma DueIdsStep(ts: seq<Task>, i: nat, now: nat)
    requires i < |ts| && forall t | t in ts :: t.last <= now
    ensures At(DueIds(ts[..i + 1], now), now)
         == At(DueIds(ts[..i], now), now) + (if Due(ts[i], now) then [(ts[i].id, now)] else [])
  {
    hide Due;
    assert ts[..i + 1] == ts[..i] + [ts[i]];
    DueIdsConcat(ts[..i], [ts[i]], now);
    assert DueIds([ts[i]], now) == if Due(ts[i], now) then [ts[i].id] else [];
  }

  lemma AllBefore(ts: seq<Task>, hs: map<int, History>, clock: nat, now: nat)
    requires forall t | t in ts :: t.id in hs && Tracks(t, hs[t.id], clock)
    requires clock <= now
    ensures forall t | t in ts :: t.last <= now
  {
    forall t | t in ts
      ensures t.last <= now
    {
      var h := hs[t.id];
      FiringsWithin(t.interval, h.base, h.seen);
    }
  }

  lemma TracksTicked(t: Task, h: History, clock: nat, now: nat)
    requires Tracks(t, h, clock) && clock <= now && t.last <= now
    ensures Tracks(Ticked(t, now), Extended(h, t, now), now)
  {
    hide Firings, Monotone, Elapsed;
    SeenMore(h.base, h.seen, now);
    FiringsAppend(t.interval, h.base, h.seen, now);
  }

  /** A task has run at most floor(T / interval) times in the T milliseconds since it was added. */
  lemma RunsAtMost(s: TaskScheduler, t: Task)
    requires s.Valid() && t in s.tasks && t.interval > 0
    ensures var h := s.histories[t.id];
            |h.fired| <= ((s.clock - h.base) / NS_PER_MS) / t.interval
  {
    hide Firings;
    var h := s.histories[t.id];
    FiringsSpan(t.interval, h.base, h.seen);
    QuotientBound(|h.fired|, t.interval, s.clock - h.base);
  }

  /** If the scheduler ticks at most g ms apart, with interval + g <= 2^32, the task runs on time. */
  lemma RunsOnTime(s: TaskScheduler, t: Task, g: nat)
    requires s.Valid() && t in s.tasks && t.interval > 0 && t.interval + g <= TWO_32
    requires GapsAtMost(s.histories[t.id].base, s.histories[t.id].seen, g)
    ensures var h := s.histories[t.id];
            && Spaced(h.base, h.fired, t.interval * NS_PER_MS, (t.interval + g) * NS_PER_MS)
            && LastOf(h.base, h.seen) < t.last + t.interval * NS_PER_MS
  {
    hide Firings, Spaced, GapsAtMost;
    var h := s.histories[t.id];
    FiringsPunctual(t.interval, h.base, h.base, h.seen, g);
  }
}
