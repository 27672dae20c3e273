/** The transmit side of usart_irq_stream under preemption: the main program pushes into the
    tx queue in single atomic steps and calls flush(); the interrupt routine may run to
    completion between any two of these steps. */
module UsartLine {
  import opened Queue
  import Spsc

  datatype Line = Line(
    tx: Spsc.State<char>,
    txeie: bool,        // TX-empty interrupt enable bit of CR1
    owes: bool,         // main has published data since its last flush()
    sent: seq<char>     // what send() has written to the data register, in order
  )

  /** Main(step): one step of a push or pushs call of the main program.
      Flush: main calls flush(), between such calls.
      TxBranch(pos): the interrupt routine finds TXE set and runs its transmit branch, the load of
      the write index returning position pos of its modification order. The routine may get here
      with TXEIE clear, on an RXNE interrupt. */
  datatype Event = Main(step: Spsc.Step<char>) | Flush | TxBranch(pos: nat)

  /** The states of the consumer while it executes pop() without interruption. */
  predicate PopRuns(s: Spsc.State<char>, pos: nat) {
    && Spsc.Enabled(s, Spsc.CallPop(pos))
    && var s1 := Spsc.Apply(s, Spsc.CallPop(pos));
    && Spsc.Enabled(s1, Spsc.ConsumerLoad)
    && var s2 := Spsc.Apply(s1, Spsc.ConsumerLoad);
    && (s2.consumer.ReadSlot? ==>
          && Spsc.Enabled(s2, Spsc.ConsumerRead)
          && Spsc.Enabled(Spsc.Apply(s2, Spsc.ConsumerRead), Spsc.ConsumerPublish))
  }

  /** pop() run to completion: the characters it yields (one or none) and the queue it leaves. */
  function PopRun(s: Spsc.State<char>, pos: nat): (seq<char>, Spsc.State<char>)
    requires PopRuns(s, pos)
  {
    var s2 := Spsc.Apply(Spsc.Apply(s, Spsc.CallPop(pos)), Spsc.ConsumerLoad);
    if s2.consumer.ReadSlot? then
      var s3 := Spsc.Apply(s2, Spsc.ConsumerRead);
      ([s3.consumer.value], Spsc.Apply(s3, Spsc.ConsumerPublish))
    else ([], s2)
  }

  predicate Enabled(l: Line, e: Event) {
    match e
    case Main(step) =>
      Spsc.IsProducerStep(step) && Spsc.Enabled(l.tx, step)
    case Flush => l.tx.producer.ProducerIdle?
    case TxBranch(pos) => PopRuns(l.tx, pos)
  }

  function Apply(l: Line, e: Event): Line
    requires Enabled(l, e)
  {
    match e
    case Main(step) =>
      l.(tx := Spsc.Apply(l.tx, step),
         owes := l.owes || (step.ProducerPublish? && l.tx.producer.data != []))
    case Flush => l.(txeie := true, owes := false)
    case TxBranch(pos) =>
      var (c, tx) := PopRun(l.tx, pos);
      if c != [] then l.(tx := tx, sent := l.sent + c) else l.(tx := tx, txeie := false)
  }

  /** The stream just opened, its interrupt enable bit in either state. */
  ghost predicate Init(l: Line) {
    Spsc.Init(l.tx) && !l.owes && l.sent == []
  }

  /** On one core the interrupt routine sees every earlier store of the program it preempts. */
  predicate SeesLatest(l: Line, e: Event) {
    e.TxBranch? ==> e.pos == |l.tx.writeOrder| - 1
  }

  ghost predicate EventAt(lines: seq<Line>, events: seq<Event>, k: nat)
    requires |lines| == |events| + 1 && k < |events|
  {
    Enabled(lines[k], events[k]) && SeesLatest(lines[k], events[k]) && lines[k + 1] == Apply(lines[k], events[k])
  }

  ghost predicate IsRun(lines: seq<Line>, events: seq<Event>) {
    && |lines| == |events| + 1
    && Init(lines[0])
    && forall k :: 0 <= k < |events| ==> EventAt(lines, events, k)
  }

  /** A waiting character has an enabled interrupt, or a flush() still to come, to send it. */
  predicate NoLostWakeup(l: Line) {
    Spsc.Contents(l.tx) != [] ==> l.txeie || l.owes
  }

  /** Everything accepted was sent, in order, or is still waiting. */
  ghost predicate Conserved(l: Line) {
    l.tx.pushed == l.sent + Spsc.Contents(l.tx)
  }

  ghost predicate Inv(l: Line) {
    Spsc.Inv(l.tx) && l.tx.consumer.ConsumerIdle? && l.sent == l.tx.popped && NoLostWakeup(l)
  }

  /** A completed pop() takes the oldest element unless the write index it loaded shows nothing. */
  lemma PopRunIsPop(s: Spsc.State<char>, pos: nat)
    requires Spsc.Inv(s) && s.consumer.ConsumerIdle? && s.seenWrite <= pos < |s.writeOrder|
    ensures PopRuns(s, pos)
    ensures var (c, s') := PopRun(s, pos);
            && Spsc.Inv(s') && s'.consumer.ConsumerIdle? && s'.producer == s.producer
            && s'.writeOrder == s.writeOrder && s'.pushed == s.pushed && s'.popped == s.popped + c
            && |c| == (if s.writeOrder[pos].count == |s.popped| then 0 else 1)
            && Spsc.Contents(s) == c + Spsc.Contents(s')
  {
    hide Spsc.Inv, Spsc.Contents;
    Spsc.InvBounds(s);
    var s1 := Spsc.Apply(s, Spsc.CallPop(pos));
    Spsc.StepKeepsInv(s, Spsc.CallPop(pos));
    Spsc.LoadEnabled(s1);
    Spsc.StepKeepsInv(s1, Spsc.ConsumerLoad);
    Spsc.PopFailsIffEmpty(s1);
    var s2 := Spsc.Apply(s1, Spsc.ConsumerLoad);
    assert Spsc.Contents(s2) == Spsc.Contents(s) by { SameContents(s, s2); }
    if s2.consumer.ReadSlot? {
      Spsc.ReadEnabled(s2);
      Spsc.StepKeepsInv(s2, Spsc.ConsumerRead);
      var s3 := Spsc.Apply(s2, Spsc.ConsumerRead);
      Spsc.StepKeepsInv(s3, Spsc.ConsumerPublish);
      Spsc.PopRefinesQueue(s3);
      SameContents(s, s3);
    }
  }

  lemma SameContents(s: Spsc.State<char>, s': Spsc.State<char>)
    requires s'.pushed == s.pushed && s'.popped == s.popped
    ensures Spsc.Contents(s') == Spsc.Contents(s)
  {
  }

  /** The routine seeing the latest index sends the oldest waiting character, or disables the
      interrupt when there is none. */
  lemma TxBranchKeepsInv(l: Line)
    requires Inv(l)
    ensures |l.tx.writeOrder| > 0 && Enabled(l, TxBranch(|l.tx.writeOrder| - 1))
    ensures var l', q := Apply(l, TxBranch(|l.tx.writeOrder| - 1)), Spsc.Contents(l.tx);
            && Inv(l')
            && (q == [] ==> !l'.txeie && l'.sent == l.sent && Spsc.Contents(l'.tx) == [])
            && (q != [] ==> l'.txeie == l.txeie && l'.sent == l.sent + [q[0]] && Spsc.Contents(l'.tx) == q[1..])
  {
    hide Spsc.Inv, PopRuns, PopRun;
    Spsc.InvBounds(l.tx);
    PopRunIsPop(l.tx, |l.tx.writeOrder| - 1);
  }

  lemma MainKeepsInv(l: Line, step: Spsc.Step<char>)
    requires Inv(l) && Spsc.IsProducerStep(step) && Spsc.Enabled(l.tx, step)
    ensures Enabled(l, Main(step))
    ensures Inv(Apply(l, Main(step)))
  {
    Spsc.StepKeepsInv(l.tx, step);
    Spsc.StepRefinesQueue(l.tx, step);
  }

  /** flush() leaves TXEIE set, nothing owed, and the queue alone. */
  lemma FlushEnables(l: Line)
    requires Inv(l) && l.tx.producer.ProducerIdle?
    ensures Enabled(l, Flush)
    ensures var l' := Apply(l, Flush); Inv(l') && l'.txeie && !l'.owes && l'.tx == l.tx && l'.sent == l.sent
  {
  }

  lemma InitIsQuiet(l: Line)
    requires Init(l)
    ensures l.tx.consumer.ConsumerIdle? && l.sent == l.tx.popped && Spsc.Contents(l.tx) == []
  {
  }

  lemma {:induction false} RunInv(lines: seq<Line>, events: seq<Event>, k: nat)
    requires IsRun(lines, events) && k < |lines|
    ensures Inv(lines[k])
  {
    hide Spsc.Inv, Spsc.Init, Spsc.Apply, PopRuns, PopRun;
    if k == 0 {
      Spsc.InitInv(lines[0].tx);
      InitIsQuiet(lines[0]);
    } else {
      RunInv(lines, events, k - 1);
      var l, e := lines[k - 1], events[k - 1];
      assert EventAt(lines, events, k - 1);
      match e
      case Main(step) => MainKeepsInv(l, step);
      case Flush => FlushEnables(l);
      case TxBranch(_) => TxBranchKeepsInv(l);
    }
  }

  /** Main result: at every moment of every run no wakeup is lost and no character is lost,
      duplicated or reordered. */
  lemma RunSafety(lines: seq<Line>, events: seq<Event>, k: nat)
    requires IsRun(lines, events) && k < |lines|
    ensures NoLostWakeup(lines[k]) && Conserved(lines[k])
  {
    RunInv(lines, events, k);
  }

  // ---------- what the main program did ----------

  /** The steps of push and pushs calls among the events. */
  function MainSteps(events: seq<Event>): seq<Spsc.Step<char>> {
    if events == [] then []
    else
      var e := events[|events| - 1];
      MainSteps(events[..|events| - 1]) + (if e.Main? then [e.step] else [])
  }

  lemma MainStepsOfOneMore(events: seq<Event>, e: Event)
    ensures MainSteps(events + [e]) == MainSteps(events) + (if e.Main? then [e.step] else [])
  {
    assert (events + [e])[..|events|] == events;
  }

  lemma QueueStep(states: seq<Spsc.State<char>>, steps: seq<Spsc.Step<char>>, step: Spsc.Step<char>)
      returns (states': seq<Spsc.State<char>>, steps': seq<Spsc.Step<char>>)
    requires Spsc.IsRun(states, steps) && Spsc.Enabled(Spsc.Last(states), step)
    ensures Spsc.IsRun(states', steps') && states' != [] && Spsc.Last(states') == Spsc.Apply(Spsc.Last(states), step)
    ensures Spsc.ProducerSteps(steps') == Spsc.ProducerSteps(steps) + (if Spsc.IsProducerStep(step) then [step] else [])
  {
    hide Spsc.IsRun, Spsc.Enabled, Spsc.Apply;
    Spsc.RunGrows(states, steps, step);
    states', steps' := states + [Spsc.Apply(Spsc.Last(states), step)], steps + [step];
    assert steps'[..|steps|] == steps;
  }

  /** A completed pop() is a stretch of a run of the queue. */
  lemma QueuePop(states: seq<Spsc.State<char>>, steps: seq<Spsc.Step<char>>, pos: nat)
      returns (states': seq<Spsc.State<char>>, steps': seq<Spsc.Step<char>>)
    requires Spsc.IsRun(states, steps) && PopRuns(Spsc.Last(states), pos)
    ensures Spsc.IsRun(states', steps') && Spsc.Last(states') == PopRun(Spsc.Last(states), pos).1
    ensures Spsc.ProducerSteps(steps') == Spsc.ProducerSteps(steps)
  {
    hide Spsc.IsRun, Spsc.ProducerSteps, Spsc.Enabled, Spsc.Apply, Spsc.Last;
    states', steps' := QueueStep(states, steps, Spsc.CallPop(pos));
    states', steps' := QueueStep(states', steps', Spsc.ConsumerLoad);
    if Spsc.Last(states').consumer.ReadSlot? {
      states', steps' := QueueStep(states', steps', Spsc.ConsumerRead);
      states', steps' := QueueStep(states', steps', Spsc.ConsumerPublish);
    }
  }

  /** Every run of the line is a run of the concurrent queue, with the main program's steps as the
      producer's: all that is proved about the queue holds of tx. */
  lemma {:induction false} LineRunIsQueueRun(lines: seq<Line>, events: seq<Event>, k: nat)
      returns (states: seq<Spsc.State<char>>, steps: seq<Spsc.Step<char>>)
    requires IsRun(lines, events) && k < |lines|
    ensures Spsc.IsRun(states, steps) && Spsc.Last(states) == lines[k].tx
    ensures Spsc.ProducerSteps(steps) == MainSteps(events[..k])
  {
    hide Spsc.IsRun, Spsc.Init, Spsc.Enabled, Spsc.Apply, Spsc.Last, PopRuns, PopRun, Spsc.ProducerSteps, MainSteps;
    if k == 0 {
      states, steps := QueueStart(lines[0].tx);
    } else {
      states, steps := LineRunIsQueueRun(lines, events, k - 1);
      var e := events[k - 1];
      assert EventAt(lines, events, k - 1);
      assert events[..k] == events[..k - 1] + [e];
      MainStepsOfOneMore(events[..k - 1], e);
      match e
      case Main(step) => states, steps := QueueStep(states, steps, step);
      case Flush =>
      case TxBranch(pos) => states, steps := QueuePop(states, steps, pos);
    }
  }

  lemma QueueStart(s: Spsc.State<char>) returns (states: seq<Spsc.State<char>>, steps: seq<Spsc.Step<char>>)
    requires Spsc.Init(s)
    ensures Spsc.IsRun(states, steps) && Spsc.Last(states) == s
    ensures Spsc.ProducerSteps(steps) == MainSteps([])
  {
    states, steps := [s], [];
  }

  /** What was sent or waits to be sent is what the main program passed to the push calls that
      returned true. */
  lemma SentIsWhatWasPassed(lines: seq<Line>, events: seq<Event>, k: nat)
    requires IsRun(lines, events) && k < |lines|
    ensures lines[k].sent + Spsc.Contents(lines[k].tx) == lines[k].tx.pushed == Spsc.Published(MainSteps(events[..k]))
  {
    hide IsRun, Spsc.IsRun, Spsc.Contents, MainSteps, Spsc.ProducerSteps, Spsc.Published, Spsc.LastCall, Spsc.WorksOn;
    RunSafety(lines, events, k);
    var states, steps := LineRunIsQueueRun(lines, events, k);
    RunLength(states, steps);
    Spsc.PushedIsWhatWasPassed(states, steps, |steps|);
    assert steps[..|steps|] == steps;
    Spsc.PublishedByProducer(steps);
  }

  lemma RunLength(states: seq<Spsc.State<char>>, steps: seq<Spsc.Step<char>>)
    requires Spsc.IsRun(states, steps)
    ensures |states| == |steps| + 1
  {
  }

  /** A push call has published at least one character at this event. */
  predicate PublishesAt(events: seq<Event>, j: nat)
    requires j < |events|
  {
    events[j].Main? && events[j].step.ProducerPublish? && Spsc.LastCall(MainSteps(events[..j])) != []
  }

  /** A flush() is owed exactly when none came after the last such call. */
  lemma {:induction false} OwesIff(lines: seq<Line>, events: seq<Event>, k: nat)
    requires IsRun(lines, events) && k < |lines|
    ensures lines[k].owes <==> exists j :: 0 <= j < k && PublishesAt(events, j) && forall i :: j < i < k ==> !events[i].Flush?
  {
    hide Spsc.Apply, PopRuns, PopRun, Spsc.Init, PublishesAt, Spsc.Inv;
    if k > 0 {
      OwesIff(lines, events, k - 1);
      assert EventAt(lines, events, k - 1);
      OwesStep(lines, events, k - 1);
      var l := lines[k - 1];
      if l.owes && !events[k - 1].Flush? {
        var j :| 0 <= j < k - 1 && PublishesAt(events, j) && forall i :: j < i < k - 1 ==> !events[i].Flush?;
        assert forall i :: j < i < k ==> !events[i].Flush?;
      }
      if PublishesAt(events, k - 1) {
        assert lines[k].owes;
      }
    }
  }

  lemma OwesStep(lines: seq<Line>, events: seq<Event>, k: nat)
    requires IsRun(lines, events) && k < |events|
    ensures lines[k + 1].owes <==> (lines[k].owes && !events[k].Flush?) || PublishesAt(events, k)
  {
    hide IsRun, Spsc.IsRun, Spsc.Apply, Spsc.Last, PopRuns, PopRun, MainSteps, Spsc.ProducerSteps, Spsc.Published, Spsc.LastCall;
    EventOfRun(lines, events, k);
    var states, steps := LineRunIsQueueRun(lines, events, k);
    RunLength(states, steps);
    Spsc.PushedIsWhatWasPassed(states, steps, |steps|);
    assert steps[..|steps|] == steps;
    LastIs(states);
    Spsc.PublishedByProducer(steps);
  }

  lemma EventOfRun(lines: seq<Line>, events: seq<Event>, k: nat)
    requires IsRun(lines, events) && k < |events|
    ensures |lines| == |events| + 1 && EventAt(lines, events, k)
  {
  }

  lemma LastIs(states: seq<Spsc.State<char>>)
    requires states != []
    ensures Spsc.Last(states) == states[|states| - 1]
  {
  }

  // ---------- draining ----------

  /** The line after k TX-empty conditions with the main program not running. The routine is entered
      while TXEIE is set; afterwards nothing happens. */
  ghost function Interrupted(l: Line, k: nat): Line
    requires Inv(l)
    ensures Inv(Interrupted(l, k))
  {
    if k == 0 then l
    else
      var before := Interrupted(l, k - 1);
      TxBranchKeepsInv(before);
      if before.txeie then Apply(before, TxBranch(|before.tx.writeOrder| - 1)) else before
  }

  lemma {:induction false} DrainPrefix(l: Line, k: nat)
    requires Inv(l) && l.txeie && k <= |Spsc.Contents(l.tx)|
    ensures var l' := Interrupted(l, k);
            && l'.txeie
            && l'.sent == l.sent + Spsc.Contents(l.tx)[..k]
            && Spsc.Contents(l'.tx) == Spsc.Contents(l.tx)[k..]
  {
    hide Spsc.Inv, Spsc.Contents, Apply, Enabled;
    if k > 0 {
      DrainPrefix(l, k - 1);
      TailOfTail(Spsc.Contents(l.tx), k);
      TxBranchKeepsInv(Interrupted(l, k - 1));
    }
  }

  lemma TailOfTail(q: seq<char>, k: nat)
    requires 0 < k <= |q|
    ensures q[k - 1..][1..] == q[k..] && q[..k] == q[..k - 1] + [q[k - 1..][0]]
  {
  }

  /** Once enabled, the interrupt stays enabled for exactly |queue| + 1 interrupts: the first
      |queue| send one character each, in order, and the last one disables it. */
  lemma DrainsInExactlyLengthPlusOne(l: Line, k: nat)
    requires Inv(l) && l.txeie
    ensures k <= |Spsc.Contents(l.tx)| ==>
              Interrupted(l, k).txeie && Interrupted(l, k).sent == l.sent + Spsc.Contents(l.tx)[..k]
    ensures k == |Spsc.Contents(l.tx)| + 1 ==>
              && !Interrupted(l, k).txeie
              && Interrupted(l, k).sent == l.sent + Spsc.Contents(l.tx)
              && Spsc.Contents(Interrupted(l, k).tx) == []
  {
    hide Spsc.Inv, Apply;
    if k <= |Spsc.Contents(l.tx)| {
      DrainPrefix(l, k);
    } else if k == |Spsc.Contents(l.tx)| + 1 {
      DrainPrefix(l, k - 1);
      TxBranchKeepsInv(Interrupted(l, k - 1));
    }
  }

  /** Liveness: at any moment of any run, flush() (if still owed) and then |queue| + 1 interrupts, all
      taken with TXEIE set, transmit everything that was passed to a successful push call. */
  lemma EverythingPushedGetsSent(lines: seq<Line>, events: seq<Event>, k: nat)
    requires IsRun(lines, events) && k < |lines| && lines[k].tx.producer.ProducerIdle?
    ensures var passed := Spsc.Published(MainSteps(events[..k]));
            var l := if lines[k].owes then Apply(lines[k], Flush) else lines[k];
            && Inv(l) && !l.owes && Spsc.Contents(l.tx) == Spsc.Contents(lines[k].tx)
            && (Spsc.Contents(l.tx) == [] ==> l.sent == passed)
            && (Spsc.Contents(l.tx) != [] ==>
                  && (forall n :: 0 <= n <= |Spsc.Contents(l.tx)| ==> Interrupted(l, n).txeie)
                  && var last := Interrupted(l, |Spsc.Contents(l.tx)| + 1);
                     last.sent == passed && !last.txeie)
  {
    hide Spsc.Inv, PopRuns, PopRun, Interrupted, IsRun, MainSteps, Spsc.Published;
    RunInv(lines, events, k);
    Spsc.InvBounds(lines[k].tx);
    SentIsWhatWasPassed(lines, events, k);
    FlushEnables(lines[k]);
    var l := if lines[k].owes then Apply(lines[k], Flush) else lines[k];
    var q := Spsc.Contents(l.tx);
    if q != [] {
      forall n | 0 <= n <= |q| ensures Interrupted(l, n).txeie {
        DrainsInExactlyLengthPlusOne(l, n);
      }
      DrainsInExactlyLengthPlusOne(l, |q| + 1);
    }
  }

  // ---------- why the routine must see the latest index ----------

  /** With loads that may be stale (the queue alone allows them), the transmit branch keeps the
      wakeup property exactly when it does not mistake a filled queue for an empty one while
      nothing is owed. */
  lemma StaleLoadLosesWakeupIff(l: Line, pos: nat)
    requires Inv(l) && l.tx.seenWrite <= pos < |l.tx.writeOrder|
    ensures Enabled(l, TxBranch(pos))
    ensures NoLostWakeup(Apply(l, TxBranch(pos))) <==>
            !(l.tx.writeOrder[pos].count == |l.tx.popped| < |l.tx.pushed| && !l.owes)
  {
    Spsc.InvBounds(l.tx);
    PopRunIsPop(l.tx, pos);
  }

  /** Such a loss can be reached: push one character, flush, and let the routine load the write
      index of before the push. */
  lemma StaleLoadExample() returns (lines: seq<Line>, events: seq<Event>)
    ensures IsRun(lines, events)
    ensures var l := lines[|events|]; Enabled(l, TxBranch(0)) && !NoLostWakeup(Apply(l, TxBranch(0)))
  {
    hide Spsc.Inv, Inv;
    var s0 := Spsc.State(['-', '-'], [Spsc.Pub(0, 0, 0)], [Spsc.Pub(0, 0, 0)], 0, 0,
                         Spsc.ProducerIdle, Spsc.ConsumerIdle, [], [], [], []);
    var s1 := Spsc.Apply(s0, Spsc.CallPush(['a']));
    var s2 := Spsc.Apply(s1, Spsc.ProducerLoad(0));
    var s3 := Spsc.Apply(s2, Spsc.ProducerCopy);
    var s4 := Spsc.Apply(s3, Spsc.ProducerPublish);
    var l0 := Line(s0, false, false, []);
    var l1, l2, l3 := l0.(tx := s1), l0.(tx := s2), l0.(tx := s3);
    var l4 := l0.(tx := s4, owes := true);
    var l := Apply(l4, Flush);
    lines := [l0, l1, l2, l3, l4, l];
    events := [Main(Spsc.CallPush(['a'])), Main(Spsc.ProducerLoad(0)), Main(Spsc.ProducerCopy),
               Main(Spsc.ProducerPublish), Flush];
    RunInv(lines, events, 5);
    StaleLoadLosesWakeupIff(l, 0);
  }
}
