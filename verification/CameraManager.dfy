/**
 The V4L2 capture device and CameraManager: who owns each memory-mapped buffer, and which mappings
 and descriptors are still alive, whatever system call fails.
 */
module CameraManager {
  import opened Bytes

  const BUFFER_COUNT: nat := 4

  // ----- the device -----

  /** The kernel's answer to one call: success with a number and perhaps a frame, a failure, or a failure that takes a buffer. */
  datatype Answer = Done(value: nat, data: seq<byte>) | Fault | Lossy(index: nat)

  /**
   The driver's side: the buffers it owns (`queued`), those a failing VIDIOC_DQBUF took off the queue
   without naming them (`lost`, counted by `drops`), the calls that failed, and the answers to come.
   When the answers have run out every call fails.
   */
  datatype Device = Device(count: nat, capturing: bool, queued: set<nat>, lost: set<nat>,
                           drops: nat, faults: nat, answers: seq<Answer>)

  function Head(answers: seq<Answer>): Answer {
    if answers == [] then Fault else answers[0]
  }

  function Tail(answers: seq<Answer>): seq<Answer> {
    if answers == [] then [] else answers[1..]
  }

  /** One answer used up, and one failure counted unless the call succeeded. */
  function Used(d: Device, ok: bool): Device {
    d.(answers := Tail(d.answers), faults := d.faults + if ok then 0 else 1)
  }

  predicate Grants(d: Device) {
    Head(d.answers).Done?
  }

  /** VIDIOC_QBUF fails on a buffer that is out of range or already queued. */
  predicate Queues(d: Device, i: nat) {
    Grants(d) && i < d.count && i !in d.queued
  }

  function AfterQbuf(d: Device, i: nat): Device {
    if Queues(d, i) then Used(d, true).(queued := d.queued + {i}, lost := d.lost - {i}) else Used(d, false)
  }

  /** VIDIOC_DQBUF hands over a queued buffer of the driver's choice, while it is capturing. */
  predicate Delivers(d: Device) {
    Grants(d) && d.capturing && Head(d.answers).value in d.queued
  }

  /** When it fails (EIO) the driver may have taken a buffer off the queue without saying which. */
  predicate Drops(d: Device) {
    Head(d.answers).Lossy? && d.capturing && Head(d.answers).index in d.queued
  }

  function AfterDqbuf(d: Device): Device {
    if Delivers(d) then Used(d, true).(queued := d.queued - {Head(d.answers).value})
    else if Drops(d) then
      var i := Head(d.answers).index;
      Used(d, false).(queued := d.queued - {i}, lost := d.lost + {i}, drops := d.drops + 1)
    else Used(d, false)
  }

  function AfterStreamon(d: Device): Device {
    Used(d, Grants(d)).(capturing := d.capturing || Grants(d))
  }

  /** VIDIOC_STREAMOFF gives every buffer back to the application; if it fails nothing changes. */
  function AfterStreamoff(d: Device): Device {
    if Grants(d) then Used(d, true).(capturing := false, queued := {}, lost := {}) else Used(d, false)
  }

  // ----- the manager on values -----

  /** What grabFrame gave: nothing, or the bytes of a frame. */
  datatype Grab = Missed | Got(data: seq<byte>)

  /** The fields of the manager that the streaming calls work on, and the device behind them. */
  datatype View = View(streaming: bool, lastIndex: int, d: Device)

  /** The buffer the application holds, if any. */
  function HeldBy(lastIndex: int): set<nat> {
    if lastIndex >= 0 then {lastIndex as nat} else {}
  }

  /** Queueing buffers i to n - 1 until one fails: how far it gets, and the device. */
  function QueueAll(d: Device, i: nat, n: nat): (r: (nat, Device))
    requires i <= n
    ensures i <= r.0 <= n
    decreases n - i
  {
    if i == n then (n, d)
    else if Queues(d, i) then QueueAll(AfterQbuf(d, i), i + 1, n)
    else (i, AfterQbuf(d, i))
  }

  function StartView(v: View, n: nat): View {
    if v.streaming then v
    else
      var (k, d) := QueueAll(v.d, 0, n);
      if k < n then v.(d := d)
      else if Grants(d) then View(true, -1, AfterStreamon(d))
      else v.(d := AfterStreamon(d))
  }

  function StopView(v: View): View {
    if v.streaming then View(false, -1, AfterStreamoff(v.d)) else v
  }

  /** Waiting for a frame and dequeueing it. */
  function TakeView(v: View): (Grab, View) {
    var d := Used(v.d, Grants(v.d));
    if !Grants(v.d) then (Missed, v.(d := d))
    else if Delivers(d) then (Got(Head(d.answers).data), v.(lastIndex := Head(d.answers).value, d := AfterDqbuf(d)))
    else (Missed, v.(d := AfterDqbuf(d)))
  }

  function GrabView(v: View): (Grab, View) {
    if !v.streaming then (Missed, v)
    else if v.lastIndex < 0 then TakeView(v)
    else if Queues(v.d, v.lastIndex) then TakeView(View(true, -1, AfterQbuf(v.d, v.lastIndex)))
    else (Missed, v.(d := AfterQbuf(v.d, v.lastIndex)))
  }

  /** n grabs one after another. */
  function Grabs(v: View, n: nat): (r: (seq<Grab>, View))
    ensures |r.0| == n
  {
    if n == 0 then ([], v)
    else
      var (gs, w) := Grabs(v, n - 1);
      var (g, w') := GrabView(w);
      (gs + [g], w')
  }

  // ----- ownership -----

  /** Buffer numbers below n. */
  function Indices(n: nat): (r: set<nat>)
    ensures forall i: nat :: i in r <==> i < n
  {
    if n == 0 then {} else Indices(n - 1) + {n - 1}
  }

  lemma {:induction false} IndicesCount(n: nat)
    ensures |Indices(n)| == n
  {
    if n > 0 {
      IndicesCount(n - 1);
      assert n - 1 !in Indices(n - 1);
      assert Indices(n) == Indices(n - 1) + {n - 1};
    }
  }

  /** Driver-queued, application-held and driver-lost buffers partition all of them. */
  ghost predicate Partition(v: View) {
    && v.d.queued + HeldBy(v.lastIndex) + v.d.lost == Indices(v.d.count)
    && v.d.queued !! HeldBy(v.lastIndex) !! v.d.lost
  }

  /** Driver and application alone partition them. */
  ghost predicate TwoWay(v: View) {
    v.d.queued + HeldBy(v.lastIndex) == Indices(v.d.count) && v.d.queued !! HeldBy(v.lastIndex)
  }

  /** While streaming; `base` is the number of lossy dequeues before the stream began. */
  ghost predicate Streams(v: View, base: nat) {
    v.streaming && v.d.capturing && v.lastIndex >= -1 && Partition(v) && base <= v.d.drops && |v.d.lost| == v.d.drops - base
  }

  /** Between streams. */
  ghost predicate Idle(v: View) {
    !v.streaming && v.lastIndex == -1 && v.d.queued + v.d.lost <= Indices(v.d.count) && v.d.queued !! v.d.lost
  }

  /** The two-way partition holds exactly when no failed VIDIOC_DQBUF of this stream took a buffer. */
  lemma TwoWayExact(v: View, base: nat)
    requires Streams(v, base)
    ensures TwoWay(v) <==> v.d.drops == base
  {
    hide Indices;
    if TwoWay(v) {
      assert v.d.lost <= v.d.queued + HeldBy(v.lastIndex);
      assert v.d.lost == {};
    }
    if v.d.drops == base {
      assert v.d.lost == {};
    }
  }

  /** How many buffers the driver still has to deliver: all but the one held and one for each lossy dequeue. */
  lemma OwnerCounts(v: View, base: nat)
    requires Streams(v, base)
    ensures |v.d.queued| + (if v.lastIndex >= 0 then 1 else 0) + (v.d.drops - base) == v.d.count
  {
    hide Indices;
    IndicesCount(v.d.count);
    var held := HeldBy(v.lastIndex);
    assert |v.d.queued + held| == |v.d.queued| + |held|;
    assert |v.d.queued + held + v.d.lost| == |v.d.queued + held| + |v.d.lost|;
  }

  lemma RequeueKeeps(v: View, base: nat)
    requires Streams(v, base) && v.lastIndex >= 0
    ensures var d, ok := AfterQbuf(v.d, v.lastIndex), Queues(v.d, v.lastIndex);
            && Streams(if ok then View(true, -1, d) else v.(d := d), base)
            && d.queued == v.d.queued + (if ok then {v.lastIndex as nat} else {})
            && d.lost == v.d.lost && d.count == v.d.count && d.drops == v.d.drops
            && d.faults == v.d.faults + if ok then 0 else 1
  {
    hide Indices;
    assert v.d.lost - {v.lastIndex as nat} == v.d.lost;
  }

  lemma DeliverKeeps(v: View, base: nat)
    requires Streams(v, base) && v.lastIndex == -1 && Delivers(v.d)
    ensures Streams(v.(lastIndex := Head(v.d.answers).value, d := AfterDqbuf(v.d)), base)
  {
    hide Indices;
    var i := Head(v.d.answers).value;
    assert (v.d.queued - {i}) + {i} == v.d.queued;
  }

  lemma UsedKeeps(v: View, base: nat, ok: bool)
    requires Streams(v, base)
    ensures Streams(v.(d := Used(v.d, ok)), base)
  {
    hide Indices;
  }

  lemma DropKeeps(v: View, base: nat)
    requires Streams(v, base) && v.lastIndex == -1 && Drops(v.d)
    ensures Streams(v.(d := AfterDqbuf(v.d)), base)
  {
    hide Indices;
    var i := Head(v.d.answers).index;
    assert i !in v.d.lost;
    assert |v.d.lost + {i}| == |v.d.lost| + 1;
    assert (v.d.queued - {i}) + (v.d.lost + {i}) == v.d.queued + v.d.lost;
  }

  /** Waiting may fail without touching any buffer; only a failed VIDIOC_DQBUF can lose one. */
  lemma TakeKeeps(v: View, base: nat)
    requires Streams(v, base) && v.lastIndex == -1
    ensures var (g, w) := TakeView(v);
            && Streams(w, base) && w.d.count == v.d.count && v.d.lost <= w.d.lost && v.d.drops <= w.d.drops
            && (w.d.drops == v.d.drops ==> w.d.lost == v.d.lost)
            && (!Grants(v.d) ==> w == v.(d := Used(v.d, false)))
            && (g.Got? <==> w.d.faults == v.d.faults)
            && (g.Got? ==> w.lastIndex >= 0 && w.lastIndex in v.d.queued && w.d.queued == v.d.queued - {w.lastIndex as nat})
            && (g.Missed? ==> w.lastIndex == -1 && w.d.queued + w.d.lost == v.d.queued + v.d.lost)
  {
    hide Streams;
    var d := Used(v.d, Grants(v.d));
    UsedKeeps(v, base, Grants(v.d));
    if Grants(v.d) {
      if Delivers(d) {
        DeliverKeeps(v.(d := d), base);
      } else if Drops(d) {
        DropKeeps(v.(d := d), base);
        assert (d.queued - {Head(d.answers).index}) + (d.lost + {Head(d.answers).index}) == d.queued + d.lost;
      } else {
        UsedKeeps(v.(d := d), base, false);
      }
    }
  }

  /**
   After every grab of a stream the buffers are partitioned again; a frame is returned exactly when
   no call failed; its buffer came from the driver or was the one just given back, and is in no queue;
   and a buffer once lost is not seen again.
   */
  lemma GrabKeeps(v: View, base: nat)
    requires Streams(v, base)
    ensures var (g, w) := GrabView(v);
            && Streams(w, base) && w.d.count == v.d.count && v.d.lost <= w.d.lost && v.d.drops <= w.d.drops
            && (w.d.drops == v.d.drops ==> w.d.lost == v.d.lost)
            && (g.Got? <==> w.d.faults == v.d.faults)
            && (g.Got? ==>
                  && w.lastIndex >= 0 && w.lastIndex in v.d.queued + HeldBy(v.lastIndex) && w.lastIndex !in w.d.queued
                  && w.d.queued == v.d.queued + HeldBy(v.lastIndex) - {w.lastIndex as nat})
            && (g.Missed? ==> w.d.queued + HeldBy(w.lastIndex) + w.d.lost == v.d.queued + HeldBy(v.lastIndex) + v.d.lost)
            && (g.Missed? ==> w.lastIndex in {v.lastIndex, -1})
  {
    hide Indices, Streams, TakeView, AfterQbuf, Queues;
    StreamsHolds(v, base);
    if v.lastIndex < 0 {
      TakeKeeps(v, base);
    } else {
      RequeueKeeps(v, base);
      if Queues(v.d, v.lastIndex) {
        TakeKeeps(View(true, -1, AfterQbuf(v.d, v.lastIndex)), base);
      }
    }
  }

  /**
   A grab by the answers it meets, VIDIOC_QBUF's first if a buffer is held, then the wait's, then
   VIDIOC_DQBUF's: it succeeds exactly if all are good and the last names a buffer that the driver then
   has, and it gives that buffer and the bytes that came with it.
   */
  lemma GrabByAnswers(v: View, base: nat)
    requires Streams(v, base)
    ensures var (g, w) := GrabView(v);
            var a, held := v.d.answers, if v.lastIndex >= 0 then {v.lastIndex as nat} else {};
            var k := if v.lastIndex >= 0 then 2 else 1;
            && (g.Got? <==> k < |a| && (forall j | 0 <= j <= k :: a[j].Done?) && a[k].value in v.d.queued + held)
            && (g.Got? ==> g.data == a[k].data && w.lastIndex == a[k].value && w.d.answers == a[k + 1..])
  {
    hide Indices;
    if v.lastIndex >= 0 {
      HeldQueues(v, base);
    }
    var a := v.d.answers;
    if v.lastIndex >= 0 && |a| > 2 && a[0].Done? {
      assert a[1..][1..] == a[2..] && a[2..][1..] == a[3..];
    }
    if v.lastIndex < 0 && |a| > 1 {
      assert a[1..][1..] == a[2..];
    }
  }

  /** A grab that gives nothing has made its calls up to the first that failed; a buffer held was given back by the first. */
  lemma MissByAnswers(v: View, base: nat) returns (j: nat)
    requires Streams(v, base) && GrabView(v).0.Missed?
    ensures var w := GrabView(v).1;
            var a, k := v.d.answers, if v.lastIndex >= 0 then 2 else 1;
            && j <= k && (forall i | 0 <= i < j :: i < |a| && a[i].Done?)
            && (j < k ==> j >= |a| || !a[j].Done?)
            && w.d.answers == (if j < |a| then a[j + 1..] else [])
            && w.lastIndex == (if j == 0 then v.lastIndex else -1)
  {
    hide Indices, TakeView;
    StreamsHolds(v, base);
    var a := v.d.answers;
    if v.lastIndex < 0 {
      j := TakeMisses(v);
    } else {
      HeldQueues(v, base);
      if Queues(v.d, v.lastIndex) {
        j := TakeMisses(View(true, -1, AfterQbuf(v.d, v.lastIndex)));
        assert j + 1 < |a| ==> a[1..][j + 1..] == a[j + 2..];
        j := j + 1;
      } else {
        j := 0;
      }
    }
  }

  lemma TakeMisses(v: View) returns (j: nat)
    requires TakeView(v).0.Missed?
    ensures var a, w := v.d.answers, TakeView(v).1;
            && j <= 1 && (if j == 1 then a != [] && a[0].Done? else a == [] || !a[0].Done?)
            && w.d.answers == (if j < |a| then a[j + 1..] else []) && w.lastIndex == v.lastIndex
  {
    var a := v.d.answers;
    j := if a != [] && a[0].Done? then 1 else 0;
    assert |a| > 1 ==> a[1..][1..] == a[2..];
  }

  lemma HeldQueues(v: View, base: nat)
    requires Streams(v, base) && v.lastIndex >= 0
    ensures v.lastIndex < v.d.count && v.lastIndex as nat !in v.d.queued
  {
    hide Indices;
    assert v.lastIndex as nat in HeldBy(v.lastIndex);
    assert v.lastIndex as nat in v.d.queued + HeldBy(v.lastIndex) + v.d.lost;
  }

  lemma StreamsHolds(v: View, base: nat)
    requires Streams(v, base)
    ensures v.streaming && v.lastIndex >= -1
  {
  }

  /** Throughout a stream: after any number of grabs the same holds, and the loss only grows. */
  lemma {:induction false} GrabsKeep(v: View, base: nat, n: nat)
    requires Streams(v, base)
    ensures var w := Grabs(v, n).1;
            Streams(w, base) && w.d.count == v.d.count && v.d.lost <= w.d.lost && v.d.drops <= w.d.drops
  {
    hide Streams, GrabView;
    if n > 0 {
      GrabsKeep(v, base, n - 1);
      GrabKeeps(Grabs(v, n - 1).1, base);
    }
  }

  /** The first m of n grabs are m grabs. */
  lemma {:induction false} GrabsPrefix(v: View, m: nat, n: nat)
    requires m <= n
    ensures Grabs(v, n).0[..m] == Grabs(v, m).0
  {
    hide GrabView;
    if m < n {
      GrabsPrefix(v, m, n - 1);
      assert Grabs(v, n).0[..m] == Grabs(v, n - 1).0[..m];
    }
  }

  lemma {:induction false} GrabsCompose(v: View, m: nat, n: nat)
    ensures Grabs(v, m + n).1 == Grabs(Grabs(v, m).1, n).1
  {
    hide GrabView;
    if n > 0 {
      GrabsCompose(v, m, n - 1);
    }
  }

  /**
   Driver and application share the buffers between them after each of n grabs if and only if no
   failed VIDIOC_DQBUF among them took a buffer.
   */
  lemma StreamPartition(v: View, base: nat, n: nat)
    requires Streams(v, base) && v.d.drops == base
    ensures (forall k | 0 <= k <= n :: TwoWay(Grabs(v, k).1)) <==> Grabs(v, n).1.d.drops == base
  {
    hide Streams, Grabs, TwoWay;
    forall k | 0 <= k <= n
      ensures TwoWay(Grabs(v, k).1) <==> Grabs(v, k).1.d.drops == base
      ensures base <= Grabs(v, k).1.d.drops <= Grabs(v, n).1.d.drops
    {
      PartitionAfter(v, base, k, n);
    }
    assert 0 <= n <= n;
  }

  lemma PartitionAfter(v: View, base: nat, k: nat, n: nat)
    requires Streams(v, base) && v.d.drops == base && k <= n
    ensures TwoWay(Grabs(v, k).1) <==> Grabs(v, k).1.d.drops == base
    ensures base <= Grabs(v, k).1.d.drops <= Grabs(v, n).1.d.drops
  {
    hide Streams, Grabs, TwoWay;
    GrabsKeep(v, base, k);
    TwoWayExact(Grabs(v, k).1, base);
    GrabsKeep(Grabs(v, k).1, base, n - k);
    GrabsCompose(v, k, n - k);
  }

  // ----- starting -----

  /** The j-th answer to come lets its call succeed. */
  predicate Granted(answers: seq<Answer>, j: nat) {
    j < |answers| && answers[j].Done?
  }

  lemma TailGranted(answers: seq<Answer>, j: nat)
    ensures Granted(Tail(answers), j) == Granted(answers, j + 1)
  {
  }

  function Dropped(answers: seq<Answer>, m: nat): seq<Answer> {
    if m <= |answers| then answers[m..] else []
  }

  lemma DroppedTail(answers: seq<Answer>, m: nat)
    ensures Dropped(Tail(answers), m) == Dropped(answers, m + 1) && Dropped(answers, 0) == answers
    ensures Dropped(answers, 1) == Tail(answers)
  {
  }

  /** What queueing in order has done when it stops. */
  lemma {:induction false} QueueAllExact(d: Device, i: nat, n: nat)
    requires i <= n
    ensures var (k, e) := QueueAll(d, i, n);
            && (forall j: nat | i <= j < k :: j !in d.queued)
            && e.queued == d.queued + (Indices(k) - Indices(i)) && e.lost == d.lost - (Indices(k) - Indices(i))
            && e.drops == d.drops && e.capturing == d.capturing && e.count == d.count
            && e.faults == d.faults + (if k < n then 1 else 0)
    decreases n - i
  {
    hide Indices;
    if i < n && Queues(d, i) {
      var e := AfterQbuf(d, i);
      QueueAllExact(e, i + 1, n);
      var k := QueueAll(e, i + 1, n).0;
      assert Indices(k) - Indices(i) == {i} + (Indices(k) - Indices(i + 1));
    } else {
      assert Indices(i) - Indices(i) == {};
    }
  }

  /** Which answers it has used, and why it stopped. */
  lemma {:induction false} QueueAllAnswers(d: Device, i: nat, n: nat)
    requires i <= n <= d.count
    ensures var (k, e) := QueueAll(d, i, n);
            && (forall m: nat | m < k - i :: Granted(d.answers, m))
            && (k < n ==> k in d.queued || !Granted(d.answers, k - i))
            && e.answers == Dropped(d.answers, k - i + (if k < n then 1 else 0))
    decreases n - i
  {
    hide Granted, Dropped, Tail;
    DroppedTail(d.answers, 0);
    GrantedFirst(d.answers);
    if i < n && Queues(d, i) {
      var e := AfterQbuf(d, i);
      QueueAllAnswers(e, i + 1, n);
      var k := QueueAll(e, i + 1, n).0;
      DroppedTail(d.answers, k - (i + 1) + (if k < n then 1 else 0));
      TailGranted(d.answers, k - (i + 1));
      forall m: nat | m < k - i
        ensures Granted(d.answers, m)
      {
        if m > 0 {
          TailGranted(d.answers, m - 1);
        }
      }
    }
  }

  lemma GrantedFirst(answers: seq<Answer>)
    ensures Granted(answers, 0) == Head(answers).Done?
  {
  }

  /** Which call made a start fail: VIDIOC_QBUF of buffer k, or VIDIOC_STREAMON when k is the number of buffers. */
  function FailedAt(v: View, n: nat): (k: nat)
    ensures k <= n
  {
    QueueAll(v.d, 0, n).0
  }

  /** A start either succeeds with every buffer queued, or has queued exactly the buffers before the call that failed. */
  lemma StartExact(v: View)
    requires Idle(v)
    ensures var n := v.d.count;
            var w := StartView(v, n);
            var k := FailedAt(v, n);
            && v.d.queued !! Indices(k) && w.d.queued == v.d.queued + Indices(k)
            && w.d.count == n && w.d.drops == v.d.drops
            && (w.streaming <==> w.d.faults == v.d.faults)
            && (w.streaming ==>
                  && k == n && v.d.queued == w.d.lost == {} && w.d.queued == Indices(n) && w.lastIndex == -1
                  && Streams(w, w.d.drops))
            && (!w.streaming ==> Idle(w))
  {
    hide Indices, Streams, Idle;
    var n := v.d.count;
    QueueAllExact(v.d, 0, n);
    var (k, d) := QueueAll(v.d, 0, n);
    assert Indices(0) == {} && Indices(k) - Indices(0) == Indices(k);
    assert forall j | j in v.d.queued :: j !in Indices(k);
    IndicesWithin(k, n);
    IdleAfter(v, d, k);
    if k == n {
      AllQueued(v, d);
      if Grants(d) {
        FreshStreams(AfterStreamon(d));
      } else {
        IdleAfter(v, AfterStreamon(d), k);
      }
    }
  }

  /** Queueing more buffers between streams. */
  lemma IdleAfter(v: View, d: Device, k: nat)
    requires Idle(v) && k <= v.d.count == d.count
    requires d.queued == v.d.queued + Indices(k) && d.lost == v.d.lost - Indices(k)
    ensures Idle(v.(d := d)) && !v.streaming
  {
    hide Indices;
    IndicesWithin(k, v.d.count);
  }

  lemma AllQueued(v: View, d: Device)
    requires Idle(v) && v.d.queued !! Indices(v.d.count)
    requires d.queued == v.d.queued + Indices(v.d.count) && d.lost == v.d.lost - Indices(v.d.count)
    ensures v.d.queued == d.lost == {} && d.queued == Indices(v.d.count)
  {
    hide Indices;
    assert v.d.queued <= v.d.queued + v.d.lost;
    assert v.d.queued == v.d.queued * Indices(v.d.count);
  }

  lemma FreshStreams(d: Device)
    requires d.capturing && d.queued == Indices(d.count) && d.lost == {}
    ensures Streams(View(true, -1, d), d.drops)
  {
    hide Indices;
  }

  /** The call that failed, and conversely when none does: the driver holds nothing and the next n + 1 answers are good. */
  lemma StartSucceeds(v: View)
    requires Idle(v)
    ensures var n := v.d.count;
            var w := StartView(v, n);
            var k := FailedAt(v, n);
            && (w.streaming <==> v.d.queued == {} && forall j | 0 <= j <= n :: Granted(v.d.answers, j))
            && (!w.streaming && k < n ==> k in v.d.queued || !Granted(v.d.answers, k))
            && (!w.streaming && k == n ==> !Granted(v.d.answers, n))
  {
    hide Indices, Idle, Streams, Granted;
    var n := v.d.count;
    StartExact(v);
    QueueAllAnswers(v.d, 0, n);
    var (k, d) := QueueAll(v.d, 0, n);
    IdleStopped(v);
    if k == n {
      GrantedAfter(v.d.answers, n);
    }
  }

  lemma IdleStopped(v: View)
    requires Idle(v)
    ensures !v.streaming
  {
  }

  lemma GrantedAfter(answers: seq<Answer>, n: nat)
    ensures Head(Dropped(answers, n)).Done? == Granted(answers, n)
  {
  }

  lemma IndicesWithin(k: nat, n: nat)
    requires k <= n
    ensures Indices(k) <= Indices(n)
  {
  }

  // ----- mappings -----

  /** MappedBuffer; `start` 0 is nullptr. */
  datatype Buffer = Buffer(start: nat, length: nat)

  const UNMAPPED := Buffer(0, 0)

  predicate AllMapped(bs: seq<Buffer>) {
    forall i | 0 <= i < |bs| :: bs[i].start > 0
  }

  /** The mappings a buffer table still holds. */
  ghost function Mapped(bs: seq<Buffer>): multiset<Buffer> {
    multiset(bs)[UNMAPPED := 0]
  }

  /**
   The kernel's side. Every call may fail for reasons of its own; what it must not do is fixed by
   the V4L2 specification, "Streaming I/O (Memory Mapping)".
   */
  class Kernel {
    var fds: set<nat>
    var d: Device
    ghost var mmaps: multiset<Buffer>
    ghost var munmaps: multiset<Buffer>

    constructor (answers: seq<Answer>)
      ensures fds == {} && d == Device(0, false, {}, {}, 0, 0, answers) && mmaps == munmaps == multiset{}
    {
      fds, d := {}, Device(0, false, {}, {}, 0, 0, answers);
      mmaps, munmaps := multiset{}, multiset{};
    }

    method Open() returns (fd: int)
      modifies this`fds, this`d
      ensures fd < 0 ==> fds == old(fds) && d == Used(old(d), false)
      ensures fd >= 0 ==> fd !in old(fds) && fds == old(fds) + {fd} && d == Used(old(d), true)
      ensures fd >= 0 ==> Grants(old(d)) && fd == old(d).answers[0].value
    {
      var a := Head(d.answers);
      if a.Done? && a.value !in fds {
        fd := a.value;
        fds := fds + {fd};
      } else {
        fd := -1;
      }
      d := Used(d, fd >= 0);
    }

    /** Closing the descriptor that owns the buffers ends streaming and empties the queue. */
    method Close(fd: nat)
      requires fd in fds
      modifies this`fds, this`d
      ensures fds == old(fds) - {fd}
      ensures d == old(d).(count := 0, capturing := false, queued := {}, lost := {})
    {
      fds := fds - {fd};
      d := d.(count := 0, capturing := false, queued := {}, lost := {});
    }

    /** A call without effect on ownership: VIDIOC_QUERYCAP and what it reports, VIDIOC_S_FMT, VIDIOC_QUERYBUF, select. */
    method Ask() returns (ok: bool, value: nat)
      modifies this`d
      ensures ok == Grants(old(d)) && d == Used(old(d), ok) && (ok ==> value == old(d).answers[0].value)
    {
      ok := Grants(d);
      value := if ok then d.answers[0].value else 0;
      d := Used(d, ok);
    }

    /** The driver may allocate any number of buffers, whatever was asked for; fewer than two are a fault. */
    method Reqbufs(wanted: nat) returns (ok: bool)
      requires d.queued == {} && !d.capturing
      modifies this`d
      ensures ok == Grants(old(d))
      ensures d == Used(old(d), ok && d.count >= 2).(count := d.count)
      ensures d.count == if ok then old(d).answers[0].value else old(d).count
    {
      ok := Grants(d);
      var count := if ok then d.answers[0].value else d.count;
      d := Used(d, ok && count >= 2).(count := count);
    }

    method Mmap(length: nat) returns (b: Buffer)
      modifies this`mmaps, this`d
      ensures d == Used(old(d), b != UNMAPPED)
      ensures b == UNMAPPED ==> mmaps == old(mmaps)
      ensures b != UNMAPPED ==> b.start > 0 && b.length == length && mmaps == old(mmaps) + multiset{b}
      ensures b != UNMAPPED ==> Grants(old(d)) && b.start == old(d).answers[0].value
    {
      b := UNMAPPED;
      if Grants(d) && d.answers[0].value > 0 {
        b := Buffer(d.answers[0].value, length);
        mmaps := mmaps + multiset{b};
      }
      d := Used(d, b != UNMAPPED);
    }

    /** Only a mapping that is still alive may be removed. */
    method Munmap(b: Buffer)
      requires munmaps[b] < mmaps[b]
      modifies this`munmaps
      ensures munmaps == old(munmaps) + multiset{b}
    {
      munmaps := munmaps + multiset{b};
    }

    method Qbuf(i: nat) returns (ok: bool)
      modifies this`d
      ensures ok == Queues(old(d), i) && d == AfterQbuf(old(d), i)
    {
      ok := Queues(d, i);
      d := AfterQbuf(d, i);
    }

    method Dqbuf() returns (ok: bool, index: nat, data: seq<byte>)
      modifies this`d
      ensures ok == Delivers(old(d)) && d == AfterDqbuf(old(d))
      ensures ok ==> index == Head(old(d).answers).value && data == Head(old(d).answers).data
    {
      ok := Delivers(d);
      index, data := 0, [];
      if ok {
        index, data := d.answers[0].value, d.answers[0].data;
      }
      d := AfterDqbuf(d);
    }

    method Streamon() returns (ok: bool)
      modifies this`d
      ensures ok == Grants(old(d)) && d == AfterStreamon(old(d))
    {
      ok := Grants(d);
      d := AfterStreamon(d);
    }

    method Streamoff() returns (ok: bool)
      modifies this`d
      ensures ok == Grants(old(d)) && d == AfterStreamoff(old(d))
    {
      ok := Grants(d);
      d := AfterStreamoff(d);
    }
  }

  class CameraManager {
    const dev: Kernel
    var fd: int
    var streaming: bool
    var lastIndex: int
    var buffers: seq<Buffer>
    ghost var base: nat  // lossy dequeues before the current stream

    /** Descriptors and mappings alive are exactly those the object remembers. */
    ghost predicate Conserved()
      reads this, dev
    {
      && dev.fds == (if fd >= 0 then {fd as nat} else {})
      && dev.mmaps == dev.munmaps + Mapped(buffers)
      && -1 <= fd && (fd < 0 ==> buffers == [] && dev.d.count == 0 && dev.d.queued == dev.d.lost == {} && !dev.d.capturing)
    }

    ghost function Now(): View
      reads this, dev
    {
      View(streaming, lastIndex, dev.d)
    }

    /** Between calls. */
    ghost predicate Valid()
      reads this, dev
    {
      && Conserved()
      && |buffers| == dev.d.count && (fd >= 0 ==> |buffers| >= 2) && AllMapped(buffers)
      && (if streaming then fd >= 0 && Streams(Now(), base) else Idle(Now()))
    }

    /**
     In every reachable state of a stream: driver and application share all buffers between them if and
     only if no failed VIDIOC_DQBUF since the start took one, and the driver has as many as that leaves it.
     */
    lemma Ownership()
      requires Valid() && streaming
      ensures var held := if lastIndex >= 0 then {lastIndex as nat} else {};
              && dev.d.queued !! held && dev.d.queued + held + dev.d.lost == Indices(|buffers|)
              && (dev.d.queued + held == Indices(|buffers|) <==> dev.d.drops == base)
              && |dev.d.queued| + |held| + (dev.d.drops - base) == |buffers|
    {
      hide Indices;
      TwoWayExact(Now(), base);
      OwnerCounts(Now(), base);
    }

    constructor (dev: Kernel)
      requires dev.fds == {} && dev.d.queued == dev.d.lost == {} && dev.d.count == 0 && !dev.d.capturing
      requires dev.mmaps == dev.munmaps
      ensures Valid() && this.dev == dev && fd == -1
    {
      this.dev := dev;
      fd, streaming, lastIndex, buffers, base := -1, false, -1, [], 0;
    }

    method Requeue(index: nat) returns (ok: bool)
      modifies dev`d
      ensures ok == Queues(old(dev.d), index) && dev.d == AfterQbuf(old(dev.d), index)
    {
      ok := dev.Qbuf(index);
    }

    /**
     Succeeds exactly when no call fails, and only if the driver held nothing before; then it holds
     everything. A failure leaves exactly the buffers before the failing call queued, with streaming off.
     */
    method StartStreaming() returns (ok: bool)
      requires Valid()
      modifies this`streaming, this`lastIndex, this`base, dev`d
      ensures Valid() && ok == streaming
      ensures ok <==> fd >= 0 && StartView(old(Now()), |buffers|).streaming
      ensures fd < 0 || old(streaming) ==> ok == old(streaming) && Now() == old(Now()) && base == old(base)
      ensures fd >= 0 ==> Now() == StartView(old(Now()), |buffers|) && (ok <==> dev.d.faults == old(dev.d).faults)
      ensures old(dev.d).queued <= dev.d.queued
      ensures fd >= 0 && !old(streaming) ==>
                var k := FailedAt(old(Now()), |buffers|);
                && old(dev.d).queued !! Indices(k) && dev.d.queued == old(dev.d).queued + Indices(k)
                && (ok ==> old(dev.d).queued == dev.d.lost == {} && dev.d.queued == Indices(|buffers|) && lastIndex == -1)
                && (ok ==> base == dev.d.drops)
    {
      hide Mapped, Indices, Streams, Idle, QueueAll;
      if fd < 0 || streaming {
        return streaming;
      }
      StartExact(Now());
      QueueAllStep(dev.d, 0, |buffers|);
      var i := 0;
      while i < |buffers|
        modifies dev`d
        invariant 0 <= i <= |buffers|
        invariant QueueAll(dev.d, i, |buffers|) == QueueAll(old(dev.d), 0, |buffers|)
      {
        QueueAllStep(dev.d, i, |buffers|);
        var queued := Requeue(i);
        if !queued {
          return false;
        }
        i := i + 1;
      }
      QueueAllStep(dev.d, i, |buffers|);
      var on := dev.Streamon();
      if !on {
        return false;
      }
      streaming := true;
      lastIndex := -1;
      base := dev.d.drops;
      return true;
    }

    /**
     While the driver still holds a buffer of an earlier start, nothing but closing the descriptor helps:
     no start, stop or grab changes that, and no start succeeds.
     */
    method RetryStart(calls: seq<Call>) returns (started: bool)
      requires Valid() && !streaming && dev.d.queued != {}
      requires forall c | c in calls :: c in {Start, Stop, Grabbing}
      modifies this`streaming, this`lastIndex, this`base, dev`d
      ensures Valid() && !started && !streaming && dev.d.queued != {}
    {
      hide *;
      started := false;
      for i := 0 to |calls|
        invariant Valid() && !started && !streaming && dev.d.queued != {}
      {
        ValidIsOpen();
        match calls[i] {
          case Start => started := StartStreaming();
          case Stop => StopStreaming();
          case Grabbing => var ok, data, frame := GrabFrame();
          case _ =>
        }
      }
    }

    lemma ValidIsOpen()
      requires Valid() && dev.d.queued != {}
      ensures fd >= 0
    {
    }

    /** A start that fails after its first VIDIOC_QBUF makes every later start fail until the camera is closed. */
    method FailedStartSticks(calls: seq<Call>) returns (first: bool, later: bool)
      requires Valid() && fd >= 0 && !streaming
      requires forall c | c in calls :: c in {Start, Stop, Grabbing}
      modifies this`streaming, this`lastIndex, this`base, dev`d
      ensures Valid()
      ensures !first && FailedAt(old(Now()), |buffers|) > 0 ==> !later && !streaming && dev.d.queued != {}
    {
      hide *;
      first := StartStreaming();
      later := first;
      if !first && dev.d.queued != {} {
        later := RetryStart(calls);
      }
      FirstQueued(FailedAt(old(Now()), |buffers|));
    }

    /**
     Gives the previous buffer back, waits, and takes the next. The buffer returned is the
     application's until the next call: it is in no queue.
     */
    method GrabFrame() returns (ok: bool, data: nat, frame: seq<byte>)
      requires Valid()
      modifies this`lastIndex, dev`d
      ensures Valid() && (if ok then Got(frame) else Missed, Now()) == GrabView(old(Now()))
      ensures ok <==> old(streaming) && dev.d.faults == old(dev.d).faults
      ensures old(streaming) ==>
                var a, k := old(dev.d).answers, if old(lastIndex) >= 0 then 2 else 1;
                var held := if old(lastIndex) >= 0 then {old(lastIndex) as nat} else {};
                && (ok <==> k < |a| && (forall j | 0 <= j <= k :: a[j].Done?) && a[k].value in old(dev.d).queued + held)
                && (ok ==> a[k].Done? && frame == a[k].data && lastIndex == a[k].value && dev.d.answers == a[k + 1..])
      ensures !old(streaming) ==> dev.d == old(dev.d)
      ensures ok ==> 0 <= lastIndex < |buffers| && data == buffers[lastIndex].start > 0 && lastIndex !in dev.d.queued
      ensures dev.d.drops == old(dev.d).drops ==> dev.d.lost == old(dev.d).lost
      ensures old(dev.d).lost <= dev.d.lost
    {
      hide Mapped, Indices, Streams, TakeView, Idle;
      data, frame := 0, [];
      if fd < 0 || !streaming {
        return false, data, frame;
      }
      GrabKeeps(Now(), base);
      GrabByAnswers(Now(), base);
      HeldIsLast();
      if lastIndex >= 0 {
        RequeueKeeps(Now(), base);
        var returned := Requeue(lastIndex);
        if !returned {
          return false, data, frame;
        }
        lastIndex := -1;
      }
      ok, data, frame := Take();
    }

    lemma HeldIsLast()
      requires Valid()
      ensures -1 <= lastIndex
    {
    }

    /** The second half of grabFrame: wait for a frame and dequeue it. */
    method Take() returns (ok: bool, data: nat, frame: seq<byte>)
      requires Valid() && streaming && lastIndex == -1
      modifies this`lastIndex, dev`d
      ensures Valid() && (if ok then Got(frame) else Missed, Now()) == TakeView(old(Now()))
      ensures ok ==> 0 <= lastIndex < |buffers| && data == buffers[lastIndex].start > 0
      ensures ok ==>
                var a := old(dev.d).answers;
                |a| > 1 && a[1].Done? && frame == a[1].data && lastIndex == a[1].value && dev.d.answers == a[2..]
    {
      hide Mapped, Indices, Streams, Idle;
      TakeKeeps(Now(), base);
      GrabByAnswers(Now(), base);
      GrabIsTake(Now());
      QueuedInRange(Now(), base);
      data, frame := 0, [];
      var ready, unused := dev.Ask();
      if !ready {
        return false, data, frame;
      }
      var taken, index, bytes := dev.Dqbuf();
      if !taken {
        return false, data, frame;
      }
      lastIndex := index;
      return true, buffers[index].start, bytes;
    }

    method UnmapBuffers()
      requires dev.mmaps == dev.munmaps + Mapped(buffers)
      modifies this`buffers, dev`munmaps
      ensures buffers == [] && dev.mmaps == dev.munmaps
    {
      hide Mapped;
      var i := 0;
      MappedNone();
      while i < |buffers|
        modifies dev`munmaps
        invariant 0 <= i <= |buffers|
        invariant dev.munmaps == old(dev.munmaps) + Mapped(buffers[..i])
      {
        MappedStep(buffers, i);
        if buffers[i] != UNMAPPED {
          dev.Munmap(buffers[i]);
        }
        i := i + 1;
      }
      assert buffers[..i] == buffers;
      buffers := [];
    }

    /** One VIDIOC_STREAMOFF, whose result is ignored. */
    method StopStreaming()
      requires Valid()
      modifies this`streaming, this`lastIndex, dev`d
      ensures Valid() && Now() == StopView(old(Now())) && (!old(streaming) ==> dev.d == old(dev.d))
      ensures !streaming && (dev.d.queued == {} || dev.d.queued == old(dev.d).queued)
      ensures old(streaming) ==>
                var a := old(dev.d).answers;
                && lastIndex == -1 && dev.d.answers == (if a == [] then [] else a[1..])
                && (if a != [] && a[0].Done? then dev.d.queued == {} && !dev.d.capturing
                    else dev.d.queued == old(dev.d).queued && dev.d.capturing)
    {
      hide Mapped, Indices;
      if fd < 0 || !streaming {
        return;
      }
      var ignored := dev.Streamoff();
      streaming := false;
      lastIndex := -1;
    }

    /** Whatever state the object is in, also half open: afterwards nothing is open, mapped or queued. */
    method Close()
      requires Conserved() && (streaming ==> Valid())
      modifies this, dev
      ensures Valid() && fd == -1 && !streaming && buffers == []
      ensures dev.fds == {} && dev.mmaps == dev.munmaps && dev.d.queued == {}
      ensures dev.d.answers == StopView(old(Now())).d.answers && dev.d.faults == StopView(old(Now())).d.faults
    {
      hide Mapped, Streams;
      if streaming {
        StopStreaming();
      }
      UnmapBuffers();
      MappedNone();
      if fd >= 0 {
        dev.Close(fd);
        fd := -1;
      }
      lastIndex := -1;
    }

    /** Succeeds exactly when no call after the closing of the old descriptor fails. */
    method Open() returns (ok: bool)
      requires Valid()
      modifies this, dev
      ensures Valid() && !streaming
      ensures ok <==> dev.d.faults == StopView(old(Now())).d.faults
      ensures ok <==> fd >= 0
      ensures ok ==> dev.d.queued == {}
      ensures ok ==>
                var a := StopView(old(Now())).d.answers;
                && |a| >= 6 && (forall j | 0 <= j < 6 :: a[j].Done?)
                && fd == a[0].value && |buffers| == a[5].value && TableOf(buffers, a, 6)
      ensures !ok ==> buffers == [] && dev.fds == {} && dev.mmaps == dev.munmaps
    {
      hide Mapped, Indices, Streams, StopView, TableOf;
      Close();
      ghost var a := dev.d.answers;
      fd := dev.Open();
      if fd < 0 {
        fd := -1;
        return false;
      }
      ok := Prepare();
      if ok {
        TableShift(buffers, a, 1, 5);
      }
      if !ok {
        StoppedKeepsFaults(Now());
        Close();
      }
    }

    lemma StoppedKeepsFaults(v: View)
      ensures !v.streaming ==> StopView(v) == v
    {
    }

    /** Everything open() asks of the device; its caller closes it again on any failure. */
    method Prepare() returns (ok: bool)
      requires Conserved() && fd >= 0 && buffers == [] && dev.d.queued == {} && !dev.d.capturing
      modifies this`buffers, dev`d, dev`mmaps
      ensures Conserved() && (ok <==> dev.d.faults == old(dev.d).faults) && old(dev.d).faults <= dev.d.faults
      ensures ok ==> |buffers| == dev.d.count >= 2 && AllMapped(buffers)
      ensures ok ==>
                var a := old(dev.d).answers;
                && |a| >= 5 && (forall j | 0 <= j < 5 :: a[j].Done?) && |buffers| == a[4].value && TableOf(buffers, a, 5)
      ensures dev.d.queued == {} && dev.d.lost == old(dev.d).lost && !dev.d.capturing
    {
      hide Mapped, TableOf;
      ghost var a := dev.d.answers;
      TailOfRest(a);
      var querycap, caps := dev.Ask();
      if !querycap {
        return false;
      }
      var capture, unused0 := dev.Ask();
      if !capture {
        return false;
      }
      var canStream, unused1 := dev.Ask();
      if !canStream {
        return false;
      }
      var format, unused2 := dev.Ask();
      if !format {
        return false;
      }
      var requested := dev.Reqbufs(BUFFER_COUNT);
      if !requested || dev.d.count < 2 {
        return false;
      }
      assert dev.d.answers == a[5..];
      ok := MapAll();
      if ok {
        TableShift(buffers, a, 5, 0);
      }
    }

    /** One turn of the mapping loop: VIDIOC_QUERYBUF for the length, mmap for the address. */
    method MapOne() returns (p: Buffer)
      modifies dev`d, dev`mmaps
      ensures p == UNMAPPED ==>
                dev.mmaps == old(dev.mmaps) && dev.d == old(dev.d).(answers := dev.d.answers, faults := old(dev.d).faults + 1)
      ensures p != UNMAPPED ==>
                var a := old(dev.d).answers;
                && |a| >= 2 && a[0].Done? && a[1].Done? && p == Buffer(a[1].value, a[0].value) && p.start > 0
                && dev.mmaps == old(dev.mmaps) + multiset{p} && dev.d == old(dev.d).(answers := a[2..])
    {
      var found, length := dev.Ask();
      if !found {
        return UNMAPPED;
      }
      p := dev.Mmap(length);
    }

    /** The mapping loop of open(). */
    method MapAll() returns (ok: bool)
      requires Conserved() && fd >= 0 && buffers == []
      modifies this`buffers, dev`d, dev`mmaps
      ensures Conserved() && (ok <==> dev.d.faults == old(dev.d).faults) && old(dev.d).faults <= dev.d.faults
      ensures ok ==> |buffers| == dev.d.count && AllMapped(buffers) && TableOf(buffers, old(dev.d).answers, 0)
      ensures dev.d == old(dev.d).(answers := dev.d.answers, faults := dev.d.faults)
    {
      hide Mapped, TableOf;
      var n := dev.d.count;
      buffers := Unmapped(n);
      NothingMapped(n);
      MappedNone();
      TableNone(dev.d.answers);
      ghost var a := dev.d.answers;
      var i := 0;
      while i < n
        invariant 0 <= i <= n == |buffers| && dev.mmaps == dev.munmaps + Mapped(buffers)
        invariant 2 * i <= |a| && dev.d == old(dev.d).(answers := a[2 * i..])
        invariant TableOf(buffers[..i], a, 0)
        invariant forall j | 0 <= j < i :: buffers[j].start > 0
        invariant forall j | i <= j < n :: buffers[j] == UNMAPPED
      {
        var p := MapOne();
        if p == UNMAPPED {
          return false;
        }
        MappedSet(buffers, i, p, dev.munmaps);
        TableNext(buffers[..i], a, p);
        buffers := buffers[i := p];
        assert buffers[..i + 1] == buffers[..i] + [p];
        i := i + 1;
      }
      assert buffers[..i] == buffers;
      return true;
    }
  }

  /** The buffer that answer q, to VIDIOC_QUERYBUF, gives its length and answer q + 1, to mmap, its address. */
  predicate EntryOf(b: Buffer, answers: seq<Answer>, q: nat) {
    q + 1 < |answers| && answers[q].Done? && answers[q + 1].Done? && b == Buffer(answers[q + 1].value, answers[q].value)
  }

  /** The buffers in order, two calls a buffer from the given answer on. */
  predicate TableOf(bs: seq<Buffer>, answers: seq<Answer>, first: nat) {
    forall i: nat | i < |bs| :: EntryOf(bs[i], answers, first + 2 * i)
  }

  lemma TableShift(bs: seq<Buffer>, a: seq<Answer>, k: nat, first: nat)
    requires k <= |a| && TableOf(bs, a[k..], first)
    ensures TableOf(bs, a, k + first)
  {
    forall i: nat | i < |bs|
      ensures EntryOf(bs[i], a, k + first + 2 * i)
    {
      assert EntryOf(bs[i], a[k..], first + 2 * i);
    }
  }

  lemma TailOfRest(a: seq<Answer>)
    ensures forall k: nat | k < |a| :: a[k..][0] == a[k] && Tail(a[k..]) == a[k + 1..]
    ensures a[0..] == a
  {
  }

  lemma TableNone(a: seq<Answer>)
    ensures forall bs: seq<Buffer> | bs == [] :: TableOf(bs, a, 0)
  {
  }

  /** One more buffer, mapped by the next two answers, which leave the rest behind them. */
  lemma TableNext(bs: seq<Buffer>, a: seq<Answer>, p: Buffer)
    requires TableOf(bs, a, 0) && 2 * |bs| <= |a|
    requires var rest := a[2 * |bs|..];
             |rest| >= 2 && rest[0].Done? && rest[1].Done? && p == Buffer(rest[1].value, rest[0].value)
    ensures TableOf(bs + [p], a, 0) && 2 * |bs| + 2 <= |a| && a[2 * |bs|..][2..] == a[2 * |bs| + 2..]
  {
  }

  lemma GrabIsTake(v: View)
    requires v.streaming && v.lastIndex < 0
    ensures GrabView(v) == TakeView(v)
  {
  }

  lemma QueuedInRange(v: View, base: nat)
    requires Streams(v, base)
    ensures forall i | i in v.d.queued :: i < v.d.count
  {
    hide Indices;
  }

  lemma FirstQueued(k: nat)
    ensures k > 0 ==> 0 in Indices(k)
  {
  }

  lemma QueueAllStep(d: Device, i: nat, n: nat)
    requires i <= n
    ensures QueueAll(d, i, n) ==
            if i == n then (n, d) else if Queues(d, i) then QueueAll(AfterQbuf(d, i), i + 1, n) else (i, AfterQbuf(d, i))
  {
  }

  lemma MappedNone()
    ensures Mapped([]) == multiset{}
  {
  }

  lemma MappedStep(bs: seq<Buffer>, i: nat)
    requires i < |bs|
    ensures Mapped(bs[..i + 1]) == Mapped(bs[..i]) + (if bs[i] == UNMAPPED then multiset{} else multiset{bs[i]})
    ensures bs[i] != UNMAPPED ==> Mapped(bs[..i])[bs[i]] < Mapped(bs)[bs[i]]
  {
    assert bs[..i + 1] == bs[..i] + [bs[i]];
    assert bs == bs[..i] + ([bs[i]] + bs[i + 1..]);
    assert multiset(bs) == multiset(bs[..i]) + multiset([bs[i]] + bs[i + 1..]);
  }

  function Unmapped(n: nat): (r: seq<Buffer>)
    ensures |r| == n && forall b | b in r :: b == UNMAPPED
  {
    seq(n, i => UNMAPPED)
  }

  lemma NothingMapped(n: nat)
    ensures Mapped(Unmapped(n)) == multiset{}
  {
  }

  lemma MappedSet(bs: seq<Buffer>, i: nat, p: Buffer, gone: multiset<Buffer>)
    requires i < |bs| && bs[i] == UNMAPPED && p != UNMAPPED
    ensures gone + Mapped(bs[i := p]) == gone + Mapped(bs) + multiset{p}
  {
  }

  datatype Call = OpenIt | CloseIt | Start | Stop | Grabbing

  /**
   Any run of calls over any behaviour of the kernel, ended by the destructor: nothing is left open
   and every successful mmap has been matched by exactly one munmap.
   */
  method Run(answers: seq<Answer>, calls: seq<Call>)
    returns (fds: set<nat>, ghost mmaps: multiset<Buffer>, ghost munmaps: multiset<Buffer>)
    ensures fds == {} && mmaps == munmaps
  {
    hide Mapped;
    MappedNone();
    var dev := new Kernel(answers);
    var camera := new CameraManager(dev);
    for i := 0 to |calls|
      invariant fresh(dev) && fresh(camera) && camera.dev == dev && camera.Valid()
    {
      Step(camera, calls[i]);
    }
    camera.Close();
    return dev.fds, dev.mmaps, dev.munmaps;
  }

  method Step(camera: CameraManager, call: Call)
    requires camera.Valid()
    modifies camera, camera.dev
    ensures camera.Valid()
  {
    hide *;
    match call {
      case OpenIt =>
        var ok := camera.Open();
      case CloseIt =>
        ClosedToo(camera);
        camera.Close();
      case Start =>
        var ok := camera.StartStreaming();
      case Stop =>
        camera.StopStreaming();
      case Grabbing =>
        var ok, data, frame := camera.GrabFrame();
    }
  }

  lemma ClosedToo(camera: CameraManager)
    requires camera.Valid()
    ensures camera.Conserved()
  {
  }
}
