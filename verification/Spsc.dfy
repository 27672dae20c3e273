/** The lock-free ring buffer under concurrency: one producer and one consumer, each a sequence
    of single atomic loads, stores and plain slot accesses, interleaved in any order.

    A load of the index owned by the other side may return any value of that index's
    modification order that is not older than the last one this side has seen (the coherence
    rule for acquire loads in section 1.10 of ISO/IEC 14882:2011). Every release store records
    how many slot accesses its thread had made before it: that is what a thread which acquires
    the stored value is synchronised with. */
module Spsc {
  import Arith
  import opened Queue

  /** A release store of an index: its value, the number of elements it stands for, and the
      number of slot accesses the storing thread had made by then. */
  datatype Pub = Pub(index: nat, count: nat, clock: nat)

  /** A plain access to a buffer slot, on behalf of the item-th element ever queued. */
  datatype Access = Access(slot: nat, item: nat)

  /** push(x) is the one-element case of pushs(data, count): both load the write index, load the
      read index, copy, and store the write index. "w" and "r" are the locals write_index and
      read_index. */
  datatype Producer<T> =
    | ProducerIdle
    | LoadRead(data: seq<T>, w: nat)
    | Copy(data: seq<T>, i: nat, w: nat, r: nat)

  /** pop(): "w" and "r" are the locals write_index and read_index. */
  datatype Consumer<T> =
    | ConsumerIdle
    | LoadOwn(w: nat)
    | ReadSlot(r: nat)
    | Publish(r: nat, value: T)

  datatype State<T> = State(
    buf: seq<T>,
    writeOrder: seq<Pub>,     // modification order of atomic_write_index
    readOrder: seq<Pub>,      // modification order of atomic_read_index
    seenRead: nat,            // position in readOrder of the producer's last load
    seenWrite: nat,           // position in writeOrder of the consumer's last load
    producer: Producer<T>,
    consumer: Consumer<T>,
    pushed: seq<T>,           // data of all calls that returned true, in order
    popped: seq<T>,           // results of all pops that returned true, in order
    writeLog: seq<Access>,
    readLog: seq<Access>
  )

  datatype Step<T> =
    | CallPush(data: seq<T>)
    | ProducerLoad(pos: nat)
    | ProducerCopy
    | ProducerPublish
    | CallPop(pos: nat)
    | ConsumerLoad
    | ConsumerRead
    | ConsumerPublish

  function Last<X>(s: seq<X>): X
    requires s != []
  {
    s[|s| - 1]
  }

  /** Whether the copy loop finds the buffer full at its current element. */
  predicate CopyBlocked<T>(s: State<T>)
    requires s.producer.Copy?
  {
    Increment(s.producer.w, |s.buf|) == s.producer.r
  }

  predicate Enabled<T>(s: State<T>, step: Step<T>) {
    match step
    case CallPush(_) => s.producer.ProducerIdle? && s.writeOrder != []
    case ProducerLoad(pos) => s.producer.LoadRead? && s.seenRead <= pos < |s.readOrder|
    case ProducerCopy =>
      && s.producer.Copy? && s.producer.i < |s.producer.data|
      && (CopyBlocked(s) || s.producer.w < |s.buf|)
    case ProducerPublish => s.producer.Copy? && s.producer.i == |s.producer.data|
    case CallPop(pos) => s.consumer.ConsumerIdle? && s.seenWrite <= pos < |s.writeOrder|
    case ConsumerLoad => s.consumer.LoadOwn? && s.readOrder != []
    case ConsumerRead => s.consumer.ReadSlot? && s.consumer.r < |s.buf|
    case ConsumerPublish => s.consumer.Publish?
  }

  function Apply<T>(s: State<T>, step: Step<T>): State<T>
    requires Enabled(s, step)
  {
    match step
    case CallPush(data) => s.(producer := LoadRead(data, Last(s.writeOrder).index))
    case ProducerLoad(pos) =>
      s.(producer := Copy(s.producer.data, 0, s.producer.w, s.readOrder[pos].index), seenRead := pos)
    case ProducerCopy =>
      var Copy(data, i, w, r) := s.producer;
      if CopyBlocked(s) then s.(producer := ProducerIdle)
      else s.(buf := s.buf[w := data[i]],
              writeLog := s.writeLog + [Access(w, |s.pushed| + i)],
              producer := Copy(data, i + 1, Increment(w, |s.buf|), r))
    case ProducerPublish =>
      var Copy(data, i, w, r) := s.producer;
      s.(writeOrder := s.writeOrder + [Pub(w, |s.pushed| + |data|, |s.writeLog|)],
         pushed := s.pushed + data,
         producer := ProducerIdle)
    case CallPop(pos) => s.(consumer := LoadOwn(s.writeOrder[pos].index), seenWrite := pos)
    case ConsumerLoad =>
      var r := Last(s.readOrder).index;
      s.(consumer := if r == s.consumer.w then ConsumerIdle else ReadSlot(r))
    case ConsumerRead =>
      var r := s.consumer.r;
      s.(readLog := s.readLog + [Access(r, |s.popped|)], consumer := Publish(r, s.buf[r]))
    case ConsumerPublish =>
      var Publish(r, value) := s.consumer;
      s.(readOrder := s.readOrder + [Pub(Increment(r, |s.buf|), |s.popped| + 1, |s.readLog|)],
         popped := s.popped + [value],
         consumer := ConsumerIdle)
  }

  /** The state after reset(), whatever the buffer slots hold. */
  predicate Init<T(==)>(s: State<T>) {
    && 0 < |s.buf|
    && s == State(s.buf, [Pub(0, 0, 0)], [Pub(0, 0, 0)], 0, 0, ProducerIdle, ConsumerIdle, [], [], [], [])
  }

  /** A run: the states visited and the steps taken between them. */
  ghost predicate IsRun<T(!new)>(states: seq<State<T>>, steps: seq<Step<T>>) {
    && |states| == |steps| + 1
    && Init(states[0])
    && forall k :: 0 <= k < |steps| ==> StepAt(states, steps, k)
  }

  ghost predicate StepAt<T(!new)>(states: seq<State<T>>, steps: seq<Step<T>>, k: nat)
    requires |states| == |steps| + 1 && k < |steps|
  {
    Enabled(states[k], steps[k]) && states[k + 1] == Apply(states[k], steps[k])
  }

  // ---------- what is claimed ----------

  /** The elements pushed and not yet popped. */
  function Contents<T>(s: State<T>): seq<T> {
    if |s.popped| <= |s.pushed| then s.pushed[|s.popped|..] else []
  }

  predicate AboutToWrite<T>(s: State<T>) {
    s.producer.Copy? && s.producer.i < |s.producer.data| && !CopyBlocked(s)
  }

  /** FIFO safety: what was popped is a prefix of what was pushed, occupancy is bounded. */
  ghost predicate Safe<T>(s: State<T>) {
    && s.popped <= s.pushed
    && |s.pushed| - |s.popped| < |s.buf|
  }

  /** No data race. A slot about to be written has no read by the consumer, past or pending,
      that the producer has not synchronised with; and the other way round. */
  ghost predicate RaceFree<T>(s: State<T>) {
    && s.seenRead < |s.readOrder| && s.seenWrite < |s.writeOrder|
    && (AboutToWrite(s) ==>
          && s.producer.w < |s.buf|
          && (forall j :: s.readOrder[s.seenRead].clock <= j < |s.readLog| ==> s.readLog[j].slot != s.producer.w)
          && (s.consumer.ReadSlot? ==> s.consumer.r != s.producer.w))
    && (s.consumer.ReadSlot? ==>
          && s.consumer.r < |s.buf|
          && (forall j :: s.writeOrder[s.seenWrite].clock <= j < |s.writeLog| ==> s.writeLog[j].slot != s.consumer.r))
  }

  // ---------- the inductive invariant ----------

  /** How many pops the producer knows of, and how many pushes the consumer knows of. */
  function KnownPops<T>(s: State<T>): nat
    requires s.seenRead < |s.readOrder|
  {
    s.readOrder[s.seenRead].count
  }

  function KnownPushes<T>(s: State<T>): nat
    requires s.seenWrite < |s.writeOrder|
  {
    s.writeOrder[s.seenWrite].count
  }

  ghost predicate OrderInv(order: seq<Pub>, size: nat, total: nat)
    requires 0 < size
  {
    && order != []
    && Last(order).count == total
    && (forall p :: 0 <= p < |order| ==> order[p].index == Slot(order[p].count, size))
    && (forall p, q :: 0 <= p <= q < |order| ==> order[p].count <= order[q].count)
  }

  ghost predicate CountsInv<T>(s: State<T>) {
    && 0 < |s.buf|
    && OrderInv(s.writeOrder, |s.buf|, |s.pushed|)
    && OrderInv(s.readOrder, |s.buf|, |s.popped|)
    && s.seenRead < |s.readOrder| && s.seenWrite < |s.writeOrder|
    && KnownPops(s) <= |s.popped| <= KnownPushes(s) <= |s.pushed| < KnownPops(s) + |s.buf|
  }

  ghost predicate LiveInv<T>(s: State<T>)
    requires 0 < |s.buf|
  {
    && s.popped <= s.pushed
    && forall k :: |s.popped| <= k < |s.pushed| ==> s.buf[Slot(k, |s.buf|)] == s.pushed[k]
  }

  ghost predicate ProducerInv<T>(s: State<T>)
    requires CountsInv(s)
  {
    match s.producer
    case ProducerIdle => true
    case LoadRead(_, w) => w == Slot(|s.pushed|, |s.buf|)
    case Copy(data, i, w, r) =>
      && i <= |data|
      && w == Slot(|s.pushed| + i, |s.buf|)
      && r == Slot(KnownPops(s), |s.buf|)
      && |s.pushed| + i < KnownPops(s) + |s.buf|
      && forall t :: 0 <= t < i ==> s.buf[Slot(|s.pushed| + t, |s.buf|)] == data[t]
  }

  ghost predicate ConsumerInv<T>(s: State<T>)
    requires CountsInv(s)
  {
    match s.consumer
    case ConsumerIdle => true
    case LoadOwn(w) => w == Slot(KnownPushes(s), |s.buf|)
    case ReadSlot(r) => |s.popped| < KnownPushes(s) && r == Slot(|s.popped|, |s.buf|)
    case Publish(r, value) =>
      |s.popped| < KnownPushes(s) && r == Slot(|s.popped|, |s.buf|) && value == s.pushed[|s.popped|]
  }

  /** Every slot write so far was for an element less than a buffer length past the known pops;
      those a published write index does not cover are for later elements. */
  ghost predicate WritesInv<T>(s: State<T>)
    requires CountsInv(s)
  {
    && (forall j :: 0 <= j < |s.writeLog| ==>
          && s.writeLog[j].slot == Slot(s.writeLog[j].item, |s.buf|)
          && s.writeLog[j].item < KnownPops(s) + |s.buf|)
    && (forall p :: 0 <= p < |s.writeOrder| ==> s.writeOrder[p].clock <= |s.writeLog|)
    && (forall p, j :: 0 <= p < |s.writeOrder| && s.writeOrder[p].clock <= j < |s.writeLog| ==>
          s.writeLog[j].item >= s.writeOrder[p].count)
  }

  ghost predicate ReadsInv<T>(s: State<T>)
    requires CountsInv(s)
  {
    && |s.readLog| == |s.popped| + (if s.consumer.Publish? then 1 else 0)
    && (forall j :: 0 <= j < |s.readLog| ==> s.readLog[j].item == j && s.readLog[j].slot == Slot(j, |s.buf|))
    && (forall p :: 0 <= p < |s.readOrder| ==> s.readOrder[p].clock == s.readOrder[p].count)
  }

  ghost predicate Inv<T>(s: State<T>) {
    && CountsInv(s) && LiveInv(s) && ProducerInv(s) && ConsumerInv(s) && WritesInv(s) && ReadsInv(s)
  }

  lemma InitInv<T>(s: State<T>)
    requires Init(s)
    ensures Inv(s)
  {
  }

  /** What a user of the queue needs to know of the invariant. */
  lemma InvBounds<T>(s: State<T>)
    requires Inv(s)
    ensures s.popped <= s.pushed && |s.pushed| - |s.popped| < |s.buf|
    ensures s.seenWrite < |s.writeOrder| && Last(s.writeOrder).count == |s.pushed|
  {
  }

  /** The consumer's steps are never stuck. */
  lemma LoadEnabled<T>(s: State<T>)
    requires Inv(s) && s.consumer.LoadOwn?
    ensures Enabled(s, ConsumerLoad)
  {
  }

  lemma ReadEnabled<T>(s: State<T>)
    requires Inv(s) && s.consumer.ReadSlot?
    ensures Enabled(s, ConsumerRead)
  {
  }

  /** The copy loop is blocked exactly when the next element would not fit. */
  lemma BlockedMeansFull<T>(s: State<T>)
    requires Inv(s) && s.producer.Copy?
    ensures CopyBlocked(s) <==> |s.pushed| + s.producer.i + 1 == KnownPops(s) + |s.buf|
  {
    var n, k := |s.buf|, |s.pushed| + s.producer.i;
    IncrementIsNextSlot(k, n);
    if k + 1 == KnownPops(s) + n {
      SlotWraps(KnownPops(s), n);
    } else {
      SlotsDiffer(KnownPops(s), k + 1, n);
    }
  }

  lemma SlotWraps(k: nat, size: nat)
    requires 0 < size
    ensures Slot(k + size, size) == Slot(k, size)
  {
    Arith.ModPeriodic(k, 1, size);
  }

  lemma CopyKeepsInv<T>(s: State<T>)
    requires Inv(s) && Enabled(s, ProducerCopy)
    ensures Inv(Apply(s, ProducerCopy))
  {
    hide Slot, Increment, LiveInv, WritesInv;
    CopyKeepsBuffer(s);
    CopyKeepsLogs(s);
  }

  lemma CopyKeepsBuffer<T>(s: State<T>)
    requires Inv(s) && Enabled(s, ProducerCopy)
    ensures var s' := Apply(s, ProducerCopy); CountsInv(s') && LiveInv(s') && ProducerInv(s')
  {
    hide Slot, Increment, WritesInv, ReadsInv, ConsumerInv;
    var n := |s.buf|;
    var Copy(data, i, w, r) := s.producer;
    var item := |s.pushed| + i;
    BlockedMeansFull(s);
    if !CopyBlocked(s) {
      IncrementIsNextSlot(item, n);
      forall k | |s.popped| <= k < item ensures Slot(k, n) != w {
        SlotsDiffer(k, item, n);
      }
    }
  }

  lemma CopyKeepsLogs<T>(s: State<T>)
    requires Inv(s) && Enabled(s, ProducerCopy) && CountsInv(Apply(s, ProducerCopy))
    ensures WritesInv(Apply(s, ProducerCopy))
  {
    hide Slot, Increment, LiveInv, ReadsInv, ConsumerInv;
  }

  lemma ProducerPublishKeepsInv<T>(s: State<T>)
    requires Inv(s) && Enabled(s, ProducerPublish)
    ensures Inv(Apply(s, ProducerPublish))
  {
    hide Slot, Increment, LiveInv, WritesInv, ReadsInv;
    PublishKeepsCounts(s);
    PublishKeepsLive(s);
    PublishKeepsLogs(s);
  }

  lemma PublishKeepsCounts<T>(s: State<T>)
    requires Inv(s) && Enabled(s, ProducerPublish)
    ensures CountsInv(Apply(s, ProducerPublish))
  {
    hide Slot, Increment, LiveInv, WritesInv, ReadsInv, ConsumerInv;
  }

  lemma PublishKeepsLive<T>(s: State<T>)
    requires Inv(s) && Enabled(s, ProducerPublish)
    ensures LiveInv(Apply(s, ProducerPublish))
  {
    hide Slot, Increment, OrderInv, WritesInv, ReadsInv, ConsumerInv;
    var s', data := Apply(s, ProducerPublish), s.producer.data;
    forall k | |s'.popped| <= k < |s'.pushed| ensures s'.buf[Slot(k, |s.buf|)] == s'.pushed[k] {
      if |s.pushed| <= k {
        var t := k - |s.pushed|;
        assert s.buf[Slot(|s.pushed| + t, |s.buf|)] == data[t];
      }
    }
  }

  lemma PublishKeepsLogs<T>(s: State<T>)
    requires Inv(s) && Enabled(s, ProducerPublish) && CountsInv(Apply(s, ProducerPublish))
    ensures WritesInv(Apply(s, ProducerPublish)) && ReadsInv(Apply(s, ProducerPublish))
  {
    hide Slot, Increment, OrderInv, LiveInv, ConsumerInv;
  }

  lemma LoadStepKeepsInv<T>(s: State<T>, step: Step<T>)
    requires Inv(s) && Enabled(s, step) && (step.CallPush? || step.ProducerLoad? || step.CallPop?)
    ensures Inv(Apply(s, step))
  {
    hide Slot, Increment;
  }

  lemma ConsumerLoadKeepsInv<T>(s: State<T>)
    requires Inv(s) && Enabled(s, ConsumerLoad)
    ensures Inv(Apply(s, ConsumerLoad))
  {
    hide Slot, Increment;
    if |s.popped| < KnownPushes(s) {
      SlotsDiffer(|s.popped|, KnownPushes(s), |s.buf|);
    }
  }

  lemma ConsumerReadKeepsInv<T>(s: State<T>)
    requires Inv(s) && Enabled(s, ConsumerRead)
    ensures Inv(Apply(s, ConsumerRead))
  {
    hide Slot, Increment;
  }

  lemma ConsumerPublishKeepsInv<T>(s: State<T>)
    requires Inv(s) && Enabled(s, ConsumerPublish)
    ensures Inv(Apply(s, ConsumerPublish))
  {
    hide Slot, Increment;
    IncrementIsNextSlot(|s.popped|, |s.buf|);
  }

  /** Every step of either side keeps the invariant. */
  lemma StepKeepsInv<T>(s: State<T>, step: Step<T>)
    requires Inv(s) && Enabled(s, step)
    ensures Inv(Apply(s, step))
  {
    hide Inv, Apply;
    match step
    case ProducerCopy => CopyKeepsInv(s);
    case ProducerPublish => ProducerPublishKeepsInv(s);
    case ConsumerLoad => ConsumerLoadKeepsInv(s);
    case ConsumerRead => ConsumerReadKeepsInv(s);
    case ConsumerPublish => ConsumerPublishKeepsInv(s);
    case CallPush(_) => LoadStepKeepsInv(s, step);
    case ProducerLoad(_) => LoadStepKeepsInv(s, step);
    case CallPop(_) => LoadStepKeepsInv(s, step);
  }

  lemma {:induction false} RunInv<T(!new)>(states: seq<State<T>>, steps: seq<Step<T>>, k: nat)
    requires IsRun(states, steps) && k < |states|
    ensures Inv(states[k])
  {
    if k == 0 {
      InitInv(states[0]);
    } else {
      RunInv(states, steps, k - 1);
      assert StepAt(states, steps, k - 1);
      StepKeepsInv(states[k - 1], steps[k - 1]);
    }
  }

  lemma WriterIsSynchronised<T>(s: State<T>, j: nat)
    requires Inv(s) && AboutToWrite(s) && s.readOrder[s.seenRead].clock <= j
    requires j < |s.readLog| || (j == |s.popped| && s.consumer.ReadSlot?)
    ensures Slot(j, |s.buf|) != s.producer.w
  {
    BlockedMeansFull(s);
    SlotsDiffer(j, |s.pushed| + s.producer.i, |s.buf|);
  }

  lemma ReaderIsSynchronised<T>(s: State<T>, j: nat)
    requires Inv(s) && s.consumer.ReadSlot?
    requires s.writeOrder[s.seenWrite].clock <= j < |s.writeLog|
    ensures s.writeLog[j].slot != s.consumer.r
  {
    assert s.writeLog[j].item >= KnownPushes(s);
    SlotsDiffer(|s.popped|, s.writeLog[j].item, |s.buf|);
  }

  lemma InvRaceFree<T>(s: State<T>)
    requires Inv(s)
    ensures RaceFree(s)
  {
    if AboutToWrite(s) {
      forall j | s.readOrder[s.seenRead].clock <= j < |s.readLog| ensures s.readLog[j].slot != s.producer.w {
        WriterIsSynchronised(s, j);
      }
      if s.consumer.ReadSlot? {
        WriterIsSynchronised(s, |s.popped|);
      }
    }
    if s.consumer.ReadSlot? {
      forall j | s.writeOrder[s.seenWrite].clock <= j < |s.writeLog| ensures s.writeLog[j].slot != s.consumer.r {
        ReaderIsSynchronised(s, j);
      }
    }
  }

  /** Main result: over every run, at every moment, FIFO safety and freedom from data races. */
  lemma RunSafety<T(!new)>(states: seq<State<T>>, steps: seq<Step<T>>, k: nat)
    requires IsRun(states, steps) && k < |states|
    ensures Safe(states[k]) && RaceFree(states[k])
  {
    RunInv(states, steps, k);
    InvRaceFree(states[k]);
  }

  // ---------- progress ----------

  predicate IsProducerStep<T>(step: Step<T>) {
    step.CallPush? || step.ProducerLoad? || step.ProducerCopy? || step.ProducerPublish?
  }

  /** How many steps the running call of a side still takes at most. */
  function ProducerBound<T>(s: State<T>): nat {
    match s.producer
    case ProducerIdle => 0
    case LoadRead(data, _) => |data| + 2
    case Copy(data, i, _, _) => if i <= |data| then |data| - i + 1 else 0
  }

  function ConsumerBound<T>(s: State<T>): nat {
    match s.consumer
    case ConsumerIdle => 0
    case LoadOwn(_) => 3
    case ReadSlot(_) => 2
    case Publish(_, _) => 1
  }

  /** Any value not older than the last one seen may be loaded, the latest among them, and the steps
      that lead on are enabled. */
  lemma CallsAreNeverStuck<T>(s: State<T>)
    requires Inv(s)
    ensures match s.producer
            case ProducerIdle => forall data :: Enabled(s, CallPush(data))
            case LoadRead(_, _) =>
              && Enabled(s, ProducerLoad(|s.readOrder| - 1))
              && forall pos :: s.seenRead <= pos < |s.readOrder| ==> Enabled(s, ProducerLoad(pos))
            case Copy(_, _, _, _) => Enabled(s, ProducerCopy) || Enabled(s, ProducerPublish)
    ensures match s.consumer
            case ConsumerIdle =>
              && Enabled(s, CallPop(|s.writeOrder| - 1))
              && forall pos :: s.seenWrite <= pos < |s.writeOrder| ==> Enabled(s, CallPop(pos))
            case LoadOwn(_) => Enabled(s, ConsumerLoad)
            case ReadSlot(_) => Enabled(s, ConsumerRead)
            case Publish(_, _) => Enabled(s, ConsumerPublish)
  {
  }

  /** A side's own steps count its bound down, and the steps of the other side leave it alone. */
  lemma StepLowersBound<T>(s: State<T>, step: Step<T>)
    requires Inv(s) && Enabled(s, step)
    ensures var s' := Apply(s, step);
            && (!IsProducerStep(step) ==> ProducerBound(s') == ProducerBound(s))
            && (IsProducerStep(step) && !step.CallPush? ==> ProducerBound(s') < ProducerBound(s))
            && (IsProducerStep(step) ==> ConsumerBound(s') == ConsumerBound(s))
            && (!IsProducerStep(step) && !step.CallPop? ==> ConsumerBound(s') < ConsumerBound(s))
  {
    hide CountsInv, LiveInv, ConsumerInv, WritesInv, ReadsInv, Slot, Increment;
  }

  /** How many of the steps are the producer's, or the consumer's. */
  function CountSteps<T>(steps: seq<Step<T>>, producers: bool): nat {
    if steps == [] then 0
    else CountSteps(steps[..|steps| - 1], producers) + (if IsProducerStep(Last(steps)) == producers then 1 else 0)
  }

  lemma {:induction false} StepsLowerBounds<T(!new)>(states: seq<State<T>>, steps: seq<Step<T>>, a: nat, b: nat)
    requires IsRun(states, steps) && a <= b < |states|
    ensures (forall k :: a <= k < b ==> !steps[k].CallPush?) ==>
              CountSteps(steps[a..b], true) + ProducerBound(states[b]) <= ProducerBound(states[a])
    ensures (forall k :: a <= k < b ==> !steps[k].CallPop?) ==>
              CountSteps(steps[a..b], false) + ConsumerBound(states[b]) <= ConsumerBound(states[a])
  {
    hide ProducerBound, ConsumerBound, Apply, Enabled, Inv;
    if a < b {
      StepsLowerBounds(states, steps, a, b - 1);
      RunInv(states, steps, b - 1);
      assert StepAt(states, steps, b - 1);
      StepLowersBound(states[b - 1], steps[b - 1]);
      assert steps[a..b][..b - a - 1] == steps[a..b - 1] && Last(steps[a..b]) == steps[b - 1];
    }
  }

  /** Wait freedom: within any stretch of a run, however the two sides interleave, a push call that
      has begun makes at most |data| + 2 further steps of its own, and has ended if it makes that
      many; a pop call at most three. */
  lemma CallsAreWaitFree<T(!new)>(states: seq<State<T>>, steps: seq<Step<T>>, a: nat, b: nat)
    requires IsRun(states, steps) && a <= b < |states|
    ensures states[a].producer.LoadRead? && (forall k :: a <= k < b ==> !steps[k].CallPush?) ==>
              var own := CountSteps(steps[a..b], true);
              && own <= |states[a].producer.data| + 2
              && (own == |states[a].producer.data| + 2 ==> states[b].producer.ProducerIdle?)
    ensures states[a].consumer.LoadOwn? && (forall k :: a <= k < b ==> !steps[k].CallPop?) ==>
              var own := CountSteps(steps[a..b], false);
              own <= 3 && (own == 3 ==> states[b].consumer.ConsumerIdle?)
  {
    hide IsRun, Inv, CountSteps;
    StepsLowerBounds(states, steps, a, b);
    RunInv(states, steps, b);
    BoundIsZeroWhenIdle(states[b]);
  }

  lemma BoundIsZeroWhenIdle<T>(s: State<T>)
    requires Inv(s)
    ensures ProducerBound(s) == 0 <==> s.producer.ProducerIdle?
    ensures ConsumerBound(s) == 0 <==> s.consumer.ConsumerIdle?
  {
    hide CountsInv, LiveInv, ConsumerInv, WritesInv, ReadsInv, Slot;
  }

  // ---------- what each call does ----------

  /** Linearisation: seen from outside, a step leaves the queue alone, appends one whole block
      that fits, or hands the oldest element to the consumer. The block is the argument of the call,
      and the loads are of the positions they name. */
  lemma StepRefinesQueue<T>(s: State<T>, step: Step<T>)
    requires Inv(s) && Enabled(s, step)
    ensures var s' := Apply(s, step);
            match step
            case ProducerPublish => (true, Contents(s')) == Offer(Contents(s), s.producer.data, |s.buf| - 1)
            case ConsumerPublish => Contents(s) == [s.consumer.value] + Contents(s')
            case CallPush(data) => Contents(s') == Contents(s) && s'.producer.LoadRead? && s'.producer.data == data
            case ProducerLoad(pos) =>
              && Contents(s') == Contents(s) && s'.producer.Copy? && s'.producer.data == s.producer.data
              && KnownPops(s') == s.readOrder[pos].count
            case CallPop(pos) =>
              Contents(s') == Contents(s) && s'.consumer.LoadOwn? && KnownPushes(s') == s.writeOrder[pos].count
            case _ => Contents(s') == Contents(s)
  {
    hide CountsInv, LiveInv, ProducerInv, ConsumerInv, WritesInv, ReadsInv;
    match step
    case ProducerPublish => PushRefinesQueue(s);
    case ConsumerPublish => PopRefinesQueue(s);
    case ProducerCopy => OtherStepKeepsQueue(s, step);
    case _ => OtherStepKeepsQueue(s, step);
  }

  lemma PushRefinesQueue<T>(s: State<T>)
    requires Inv(s) && Enabled(s, ProducerPublish)
    ensures (true, Contents(Apply(s, ProducerPublish))) == Offer(Contents(s), s.producer.data, |s.buf| - 1)
  {
    SuffixOfAppend(s.pushed, s.producer.data, |s.popped|);
  }

  lemma SuffixOfAppend<T>(a: seq<T>, b: seq<T>, n: nat)
    requires n <= |a|
    ensures (a + b)[n..] == a[n..] + b
  {
  }

  lemma PopRefinesQueue<T>(s: State<T>)
    requires Inv(s) && s.consumer.Publish?
    ensures Contents(s) == [s.consumer.value] + Contents(Apply(s, ConsumerPublish))
  {
    hide WritesInv, ReadsInv, ProducerInv, OrderInv, Slot, Increment;
    assert |s.popped| < |s.pushed| && s.consumer.value == s.pushed[|s.popped|];
    SuffixCons(s.pushed, |s.popped|);
  }

  lemma SuffixCons<T>(a: seq<T>, n: nat)
    requires n < |a|
    ensures a[n..] == [a[n]] + a[n + 1..]
  {
  }

  lemma OtherStepKeepsQueue<T>(s: State<T>, step: Step<T>)
    requires Enabled(s, step) && !step.ProducerPublish? && !step.ConsumerPublish?
    ensures var s' := Apply(s, step);
            s'.pushed == s.pushed && s'.popped == s.popped && s'.writeOrder == s.writeOrder
  {
  }

  /** The logs are complete: a slot changes only by a logged write, a value is taken only by a logged
      read, and a store of an index records the accesses its side has made. */
  lemma StepIsLogged<T>(s: State<T>, step: Step<T>)
    requires Inv(s) && Enabled(s, step)
    ensures var s' := Apply(s, step);
            && s.writeLog <= s'.writeLog && s.readLog <= s'.readLog
            && |s'.buf| == |s.buf|
            && (forall k :: 0 <= k < |s.buf| && s'.buf[k] != s.buf[k] ==>
                  |s'.writeLog| == |s.writeLog| + 1 && Last(s'.writeLog).slot == k)
            && (s'.consumer != s.consumer && s'.consumer.Publish? ==>
                  && |s'.readLog| == |s.readLog| + 1 && Last(s'.readLog).slot < |s.buf|
                  && s'.consumer.value == s.buf[Last(s'.readLog).slot])
            && (s'.writeOrder != s.writeOrder ==> Last(s'.writeOrder).clock == |s.writeLog|)
            && (s'.readOrder != s.readOrder ==> Last(s'.readOrder).clock == |s.readLog|)
  {
    hide CountsInv, LiveInv, WritesInv, ReadsInv, Slot;
  }

  // ---------- what is passed to the calls ----------

  /** The argument of the last push call among the steps. */
  function LastCall<T>(steps: seq<Step<T>>): seq<T> {
    if steps == [] then []
    else if Last(steps).CallPush? then Last(steps).data
    else LastCall(steps[..|steps| - 1])
  }

  /** The arguments of the push calls that have returned true, one after the other. */
  function Published<T>(steps: seq<Step<T>>): seq<T> {
    if steps == [] then []
    else
      var init := steps[..|steps| - 1];
      Published(init) + (if Last(steps).ProducerPublish? then LastCall(init) else [])
  }

  /** The running call, if any, is one with this argument. */
  predicate WorksOn<T(==)>(s: State<T>, data: seq<T>) {
    s.producer.ProducerIdle? || s.producer.data == data
  }

  lemma StepKeepsArgument<T>(s: State<T>, step: Step<T>, data: seq<T>)
    requires Enabled(s, step) && WorksOn(s, data)
    ensures WorksOn(Apply(s, step), if step.CallPush? then step.data else data)
    ensures Apply(s, step).pushed == s.pushed + (if step.ProducerPublish? then data else [])
  {
  }

  /** Over every run, what was pushed is the concatenation of the arguments of the calls that have
      returned true. */
  lemma {:induction false} PushedIsWhatWasPassed<T(!new)>(states: seq<State<T>>, steps: seq<Step<T>>, k: nat)
    requires IsRun(states, steps) && k < |states|
    ensures states[k].pushed == Published(steps[..k])
    ensures WorksOn(states[k], LastCall(steps[..k]))
  {
    hide Enabled, Apply, WorksOn;
    if k == 0 {
      NothingPassed(states[0]);
    } else {
      PushedIsWhatWasPassed(states, steps, k - 1);
      assert StepAt(states, steps, k - 1);
      StepKeepsArgument(states[k - 1], steps[k - 1], LastCall(steps[..k - 1]));
      assert steps[..k][..k - 1] == steps[..k - 1];
    }
  }

  lemma NothingPassed<T>(s: State<T>)
    requires Init(s)
    ensures s.pushed == [] && WorksOn(s, [])
  {
  }

  /** What a call publishes is what it was called with. */
  lemma CallPublishesItsArgument<T(!new)>(states: seq<State<T>>, steps: seq<Step<T>>, a: nat, b: nat)
    requires IsRun(states, steps) && a < b < |steps| && steps[a].CallPush? && steps[b].ProducerPublish?
    requires forall k :: a < k < b ==> !steps[k].CallPush?
    ensures states[b + 1].pushed == states[b].pushed + steps[a].data
  {
    hide Enabled, Apply, WorksOn;
    PushedIsWhatWasPassed(states, steps, b);
    PushedIsWhatWasPassed(states, steps, b + 1);
    assert steps[..b + 1][..b] == steps[..b];
    LastCallIs(steps, a, b);
  }

  lemma {:induction false} LastCallIs<T>(steps: seq<Step<T>>, a: nat, b: nat)
    requires a < b <= |steps| && steps[a].CallPush? && forall k :: a < k < b ==> !steps[k].CallPush?
    ensures LastCall(steps[..b]) == steps[a].data
  {
    assert steps[..b][..b - 1] == steps[..b - 1];
    if a < b - 1 {
      LastCallIs(steps, a, b - 1);
    }
  }

  /** The steps of the producer among the steps of both sides. */
  function ProducerSteps<T>(steps: seq<Step<T>>): seq<Step<T>> {
    if steps == [] then []
    else ProducerSteps(steps[..|steps| - 1]) + (if IsProducerStep(Last(steps)) then [Last(steps)] else [])
  }

  lemma {:induction false} PublishedByProducer<T>(steps: seq<Step<T>>)
    ensures LastCall(ProducerSteps(steps)) == LastCall(steps)
    ensures Published(ProducerSteps(steps)) == Published(steps)
  {
    if steps != [] {
      var init := steps[..|steps| - 1];
      PublishedByProducer(init);
      assert steps == init + [Last(steps)] && ProducerSteps(init) + [] == ProducerSteps(init);
      OneMoreStep(ProducerSteps(init), Last(steps));
    }
  }

  lemma OneMoreStep<T>(steps: seq<Step<T>>, step: Step<T>)
    ensures LastCall(steps + [step]) == if step.CallPush? then step.data else LastCall(steps)
    ensures Published(steps + [step]) == Published(steps) + (if step.ProducerPublish? then LastCall(steps) else [])
  {
    assert (steps + [step])[..|steps|] == steps;
  }

  lemma RunGrows<T(!new)>(states: seq<State<T>>, steps: seq<Step<T>>, step: Step<T>)
    requires IsRun(states, steps) && Enabled(Last(states), step)
    ensures IsRun(states + [Apply(Last(states), step)], steps + [step])
  {
    var states', steps' := states + [Apply(Last(states), step)], steps + [step];
    forall k | 0 <= k < |steps'| ensures StepAt(states', steps', k) {
      assert k < |steps| ==> StepAt(states, steps, k);
    }
  }

  /** Whether the whole block of the running call fits beside the elements that were unread at
      the read index the call has loaded. */
  predicate FitsAtLoad<T>(s: State<T>)
    requires s.producer.Copy? && s.seenRead < |s.readOrder|
  {
    |s.pushed| + |s.producer.data| < KnownPops(s) + |s.buf|
  }

  /** A push or pushs call returns true exactly when its block fits at the read index it loaded:
      it publishes only if it fits, gives up only if it does not, and this is settled at the load
      (no later step of either side changes the answer). Where the loaded read index was the
      latest, this is how a queue decides that is used by one side at a time. */
  lemma CallSucceedsIffBlockFits<T>(s: State<T>, step: Step<T>)
    requires Inv(s) && s.producer.Copy? && Enabled(s, step)
    ensures step.ProducerPublish? ==> FitsAtLoad(s)
    ensures step.ProducerCopy? && CopyBlocked(s) ==> !FitsAtLoad(s)
    ensures var s' := Apply(s, step);
            s'.producer.Copy? && s'.seenRead < |s'.readOrder| ==> FitsAtLoad(s') == FitsAtLoad(s)
    ensures KnownPops(s) == |s.popped| ==>
              FitsAtLoad(s) == Offer(Contents(s), s.producer.data, |s.buf| - 1).0
  {
    BlockedMeansFull(s);
  }

  /** pop() returns false exactly when everything pushed at the write index it loaded is popped. */
  lemma PopFailsIffEmpty<T>(s: State<T>)
    requires Inv(s) && Enabled(s, ConsumerLoad)
    ensures Apply(s, ConsumerLoad).consumer.ConsumerIdle? <==> |s.popped| == KnownPushes(s)
  {
    if |s.popped| < KnownPushes(s) {
      SlotsDiffer(|s.popped|, KnownPushes(s), |s.buf|);
    }
  }

  /** All or nothing: whatever else happens meanwhile, as long as no call publishes (so: during a
      call that fails, however many slots it overwrote) the consumer can only see the queue
      shrink by its own pops. */
  lemma {:induction false} UnpublishedCopyIsInvisible<T(!new)>(states: seq<State<T>>, steps: seq<Step<T>>, a: nat, b: nat)
    requires IsRun(states, steps) && a <= b < |states|
    requires forall k :: a <= k < b ==> !steps[k].ProducerPublish?
    ensures states[b].writeOrder == states[a].writeOrder && states[b].pushed == states[a].pushed
    ensures states[a].popped <= states[b].popped
    ensures Contents(states[a]) == states[b].popped[|states[a].popped|..] + Contents(states[b])
  {
    RunSafety(states, steps, a);
    hide Inv;
    if a < b {
      UnpublishedCopyIsInvisible(states, steps, a, b - 1);
      RunInv(states, steps, b - 1);
      assert StepAt(states, steps, b - 1);
      QueueOnlyShrinks(states[a], states[b - 1], steps[b - 1]);
    } else {
      assert states[b].popped[|states[a].popped|..] == [];
    }
  }

  lemma QueueOnlyShrinks<T>(s0: State<T>, s: State<T>, step: Step<T>)
    requires Inv(s) && Enabled(s, step) && !step.ProducerPublish?
    requires s0.popped <= s.popped && Contents(s0) == s.popped[|s0.popped|..] + Contents(s)
    ensures var s' := Apply(s, step);
            && s'.writeOrder == s.writeOrder && s'.pushed == s.pushed && s0.popped <= s'.popped
            && Contents(s0) == s'.popped[|s0.popped|..] + Contents(s')
  {
    hide Inv;
    if step.ConsumerPublish? {
      PopRefinesQueue(s);
      SuffixOfAppend(s.popped, [s.consumer.value], |s0.popped|);
    } else {
      OtherStepKeepsQueue(s, step);
    }
  }

  // ---------- what a failed call leaves behind ----------

  /** A call in progress has written one slot for each element copied. */
  ghost predicate HasWritten<T>(s0: State<T>, s: State<T>)
    requires s0.producer.LoadRead?
  {
    match s.producer
    case ProducerIdle => true
    case LoadRead(_, _) => s.producer == s0.producer && |s.writeLog| == |s0.writeLog|
    case Copy(data, i, _, _) => data == s0.producer.data && |s.writeLog| == |s0.writeLog| + i
  }

  lemma {:induction false} CallHasWritten<T(!new)>(states: seq<State<T>>, steps: seq<Step<T>>, a: nat, b: nat)
    requires IsRun(states, steps) && a <= b < |states| && states[a].producer.LoadRead?
    requires forall k :: a <= k < b ==> !steps[k].CallPush?
    ensures HasWritten(states[a], states[b])
  {
    if a < b {
      CallHasWritten(states, steps, a, b - 1);
      assert StepAt(states, steps, b - 1);
      StepHasWritten(states[a], states[b - 1], steps[b - 1]);
    }
  }

  lemma StepHasWritten<T>(s0: State<T>, s: State<T>, step: Step<T>)
    requires s0.producer.LoadRead? && HasWritten(s0, s) && Enabled(s, step) && !step.CallPush?
    ensures HasWritten(s0, Apply(s, step))
  {
  }

  /** A call that finds the buffer full in its copy loop has by then overwritten as many slots as
      were free at the read index it loaded. It wrote nothing exactly when the queue looked full. */
  lemma FailedCallOverwrites<T(!new)>(states: seq<State<T>>, steps: seq<Step<T>>, a: nat, b: nat)
    requires IsRun(states, steps) && a <= b < |steps| && states[a].producer.LoadRead?
    requires forall k :: a <= k < b ==> !steps[k].CallPush?
    requires steps[b].ProducerCopy? && states[b].producer.Copy? && CopyBlocked(states[b])
    requires states[b].seenRead < |states[b].readOrder|
    ensures var s := states[b];
            var free := KnownPops(s) + |s.buf| - 1 - |s.pushed|;
            && states[b + 1].producer.ProducerIdle?
            && |states[b + 1].writeLog| == |states[a].writeLog| + free
            && 0 <= free < |states[a].producer.data|
            && (|states[b + 1].writeLog| == |states[a].writeLog| <==> |s.pushed| - KnownPops(s) == |s.buf| - 1)
            && (states[b + 1].writeLog == s.writeLog && s.pushed == states[b + 1].pushed)
  {
    CallHasWritten(states, steps, a, b);
    RunInv(states, steps, b);
    assert StepAt(states, steps, b);
    BlockedMeansFull(states[b]);
  }

  /** A failing call that overwrites a slot: pushing two characters into a buffer of two slots. */
  lemma FailedCallExample() returns (states: seq<State<char>>, steps: seq<Step<char>>)
    ensures IsRun(states, steps) && |steps| == 4
    ensures states[0].buf == ['-', '-'] && states[4].buf == ['a', '-']
    ensures states[4] == states[0].(buf := ['a', '-'], writeLog := [Access(0, 0)])
  {
    var s0 := State(['-', '-'], [Pub(0, 0, 0)], [Pub(0, 0, 0)], 0, 0, ProducerIdle, ConsumerIdle, [], [], [], []);
    steps := [CallPush(['a', 'b']), ProducerLoad(0), ProducerCopy, ProducerCopy];
    var s1 := Apply(s0, steps[0]);
    var s2 := Apply(s1, steps[1]);
    var s3 := Apply(s2, steps[2]);
    states := [s0, s1, s2, s3, Apply(s3, steps[3])];
  }
}
