/** `BufferedFdQueue`: the ring with a flag and an event counter on which the consumer sleeps. */
module BufferedFdQueues {
  import opened RingBuffer

  datatype FdProducer<V> =
    | PIdle
    | PCheck(v: V, flush: bool)
    | PLoad(v: V, flush: bool)
    | PStore(v: V, flush: bool)
    | PPublish
    | PTestFlag
    | PSignal
    | PFailed

  /** `get` (and `wait_reader`, which leaves the item in place). */
  datatype FdConsumer =
    | CIdle
    | CCheck(take: bool)
    | CBackoff(take: bool)
    | CSetFlag(take: bool)
    | CSleepLoad(take: bool)
    | CBlock(take: bool)
    | CClearFlag(take: bool)
    | CTake
    | CRelease

  datatype FdMachine<V> = FdMachine(r: Ring<V>, waitFlag: bool, counter: nat, p: FdProducer<V>, c: FdConsumer)

  ghost predicate Init<V>(m: FdMachine<V>) {
    |m.r.q| == CAPACITY && m == FdMachine(EmptyRing(m.r.q), false, 0, PIdle, CIdle)
  }

  /** `put`, `put_noflush`, `flush_writer`: after publishing, the producer tests the flag and may signal. */
  ghost predicate ProducerStep<V>(m: FdMachine<V>, m': FdMachine<V>)
    requires |m.r.q| == CAPACITY
  {
    match m.p
    case PIdle => (m'.p.PCheck? && m' == m.(p := m'.p)) || m' == m.(p := PPublish)
    case PCheck(v, flush) => m' == m.(p := if !m.r.WriterEmpty() then PStore(v, flush) else PLoad(v, flush))
    case PLoad(v, flush) =>
      var r := m.r.LoadReader();
      m' == m.(r := r, p := if r.WriterReady() == 0 then PFailed else PStore(v, flush))
    case PStore(v, flush) => m' == m.(r := m.r.Store(v), p := if flush then PPublish else PIdle)
    case PPublish => m' == m.(r := m.r.Publish(), p := PTestFlag)
    case PTestFlag => m' == m.(p := if m.waitFlag then PSignal else PIdle)
    case PSignal => m' == m.(counter := m.counter + 1, p := PIdle)
    case PFailed => false
  }

  /** The consumer polls, then raises the flag and blocks while the ring stays empty. */
  ghost predicate ConsumerStep<V>(m: FdMachine<V>, m': FdMachine<V>)
    requires |m.r.q| == CAPACITY
  {
    match m.c
    case CIdle =>
      || m' == m.(c := CCheck(true)) || m' == m.(c := CBackoff(false)) || m' == m.(c := CRelease)
      || (!m.r.ReaderEmpty() && m' == m.(r := m.r.Take()))
    case CCheck(take) => m' == m.(c := if !m.r.ReaderEmpty() then CTake else CBackoff(take))
    case CBackoff(take) =>
      var r := m.r.LoadWriter();
      || m' == m.(r := r, c := if r.ReaderReady() != 0 then (if take then CTake else CIdle) else CBackoff(take))
      || m' == m.(c := CSetFlag(take))
    case CSetFlag(take) => m' == m.(waitFlag := true, c := CSleepLoad(take))
    case CSleepLoad(take) =>
      var r := m.r.LoadWriter();
      m' == m.(r := r, c := if r.ReaderReady() != 0 then CClearFlag(take) else CBlock(take))
    case CBlock(take) => m.counter > 0 && m' == m.(counter := 0, c := CSleepLoad(take))
    case CClearFlag(take) => m' == m.(waitFlag := false, c := if take then CTake else CIdle)
    case CTake => m' == m.(r := m.r.Take(), c := CRelease)
    case CRelease => m' == m.(r := m.r.Release(), c := CIdle)
  }

  ghost predicate Next<V>(m: FdMachine<V>, m': FdMachine<V>) {
    |m.r.q| == CAPACITY && (ProducerStep(m, m') || ConsumerStep(m, m'))
  }

  ghost predicate IsRun<V>(run: seq<FdMachine<V>>) {
    |run| > 0 && Init(run[0]) && forall k :: 0 <= k < |run| - 1 ==> Next(run[k], run[k + 1])
  }

  /** The consumer waits for the event counter, which is zero. */
  predicate Asleep<V>(m: FdMachine<V>) {
    m.c.CBlock? && m.counter == 0
  }

  /** The producer has published but not yet tested the flag, or not yet signalled. */
  predicate AboutToSignal<V>(m: FdMachine<V>) {
    m.p.PTestFlag? || m.p.PSignal?
  }

  ghost predicate Inv<V>(m: FdMachine<V>) {
    && m.r.Inv()
    && (m.p.PStore? ==> !m.r.WriterEmpty())
    && (m.c.CTake? || (m.c.CClearFlag? && m.c.take) ==> !m.r.ReaderEmpty())
    && (m.waitFlag <==> m.c.CSleepLoad? || m.c.CBlock? || m.c.CClearFlag?)
    && (m.c.CBlock? ==> m.counter > 0 || m.r.published == |m.r.gets| || AboutToSignal(m))
  }

  lemma StepInv<V>(m: FdMachine<V>, m': FdMachine<V>)
    requires Inv(m) && Next(m, m')
    ensures Inv(m')
    ensures m.r.puts <= m'.r.puts && m.r.gets <= m'.r.gets && m'.r.gets <= m'.r.puts
  {
    if ProducerStep(m, m') {
      ProducerStepInv(m, m');
    } else {
      ConsumerStepInv(m, m');
    }
  }

  lemma ProducerStepInv<V>(m: FdMachine<V>, m': FdMachine<V>)
    requires Inv(m) && |m.r.q| == CAPACITY && ProducerStep(m, m')
    ensures Inv(m')
    ensures m.r.puts <= m'.r.puts && m.r.gets <= m'.r.gets && m'.r.gets <= m'.r.puts
  {
    hide Ring.Inv, Ring.WriterEmpty, Ring.ReaderEmpty, Ring.WriterReady, Ring.ReaderReady, Slot, Wrap;
    OtherAccessesInv(m.r);
    Facts(m.r);
    if m.p.PStore? { StoreInv(m.r, m.p.v); }
    Facts(m'.r);
  }

  lemma ConsumerStepInv<V>(m: FdMachine<V>, m': FdMachine<V>)
    requires Inv(m) && |m.r.q| == CAPACITY && ConsumerStep(m, m')
    ensures Inv(m')
    ensures m.r.puts <= m'.r.puts && m.r.gets <= m'.r.gets && m'.r.gets <= m'.r.puts
  {
    hide Ring.Inv, Ring.WriterEmpty, Ring.ReaderEmpty, Ring.WriterReady, Ring.ReaderReady, Slot, Wrap;
    OtherAccessesInv(m.r);
    Facts(m.r);
    if !m.r.ReaderEmpty() { TakeInv(m.r); }
    Facts(m'.r);
  }

  lemma {:induction false} RunInv<V>(run: seq<FdMachine<V>>, k: nat)
    requires IsRun(run) && k < |run|
    ensures Inv(run[k])
  {
    hide Inv, Next;
    if k == 0 {
      assert Inv(run[0]) by { InitInv(run[0]); }
    } else {
      RunInv(run, k - 1);
      assert Next(run[k - 1], run[k - 1 + 1]);
      StepInv(run[k - 1], run[k]);
    }
  }

  lemma InitInv<V>(m: FdMachine<V>)
    requires Init(m)
    ensures Inv(m)
  {
    EmptyRingInv(m.r.q);
  }

  /** The values got are the first of the values put and published, whatever the threads do. */
  lemma AlwaysFifo<V>(run: seq<FdMachine<V>>, k: nat)
    requires IsRun(run) && k < |run|
    ensures run[k].r.published <= |run[k].r.puts| && run[k].r.gets <= run[k].r.puts[..run[k].r.published]
  {
    RunInv(run, k);
    Facts(run[k].r);
  }

  /** A sleeping consumer has got all published items, unless the producer is just about to wake it. */
  lemma NoLostWakeUp<V>(run: seq<FdMachine<V>>, k: nat)
    requires IsRun(run) && k < |run| && Asleep(run[k])
    ensures |run[k].r.gets| == run[k].r.published || AboutToSignal(run[k])
  {
    RunInv(run, k);
  }

  /** If an item is published while the consumer sleeps, the next two steps of the producer wake it. */
  lemma ProducerWakes<V>(run: seq<FdMachine<V>>, k: nat, m1: FdMachine<V>, m2: FdMachine<V>)
    requires IsRun(run) && k < |run| && Asleep(run[k]) && |run[k].r.gets| < run[k].r.published
    requires Next(run[k], m1) && Next(m1, m2)
    ensures m1.counter > 0 || (m1.p.PSignal? && m1.c == run[k].c && m2.counter > 0)
  {
    RunInv(run, k);
    StepInv(run[k], m1);
  }

  /** If the producer has stopped and the consumer sleeps, nothing published is left behind. */
  lemma NothingLeftBehind<V>(run: seq<FdMachine<V>>, k: nat)
    requires IsRun(run) && k < |run| && run[k].p.PIdle? && Asleep(run[k])
    ensures run[k].r.published <= |run[k].r.puts| && run[k].r.gets == run[k].r.puts[..run[k].r.published]
  {
    NoLostWakeUp(run, k);
    AlwaysFifo(run, k);
    RunInv(run, k);
    Facts(run[k].r);
  }

  // ----- a blocked consumer gets on, whatever the producer does in between

  /** consumer[k] says whether step k of the run is one of the consumer's. */
  ghost predicate IsSchedule<V>(run: seq<FdMachine<V>>, consumer: seq<bool>) {
    && |run| == |consumer| + 1 && Init(run[0])
    && forall k :: 0 <= k < |consumer| ==> StepOf(run[k], consumer[k], run[k + 1])
  }

  ghost predicate StepOf<V>(m: FdMachine<V>, consumer: bool, m': FdMachine<V>) {
    |m.r.q| == CAPACITY && if consumer then ConsumerStep(m, m') else ProducerStep(m, m')
  }

  lemma ScheduleIsRun<V>(run: seq<FdMachine<V>>, consumer: seq<bool>)
    requires IsSchedule(run, consumer)
    ensures IsRun(run)
  {
    hide ConsumerStep, ProducerStep, Init;
    forall k | 0 <= k < |run| - 1 ensures Next(run[k], run[k + 1]) {
      assert StepOf(run[k], consumer[k], run[k + 1]);
    }
  }

  function ConsumerSteps(consumer: seq<bool>, i: nat, j: nat): (n: nat)
    requires i <= j <= |consumer|
    decreases j - i
  {
    if i == j then 0 else (if consumer[i] then 1 else 0) + ConsumerSteps(consumer, i + 1, j)
  }

  /** The consumer has got these items, the next one is x and published, and it is n of its own steps past blocking. */
  ghost predicate Stage<V>(m: FdMachine<V>, gets: seq<V>, x: V, take: bool, n: nat) {
    && (n < 4 ==> m.r.gets == gets && |gets| < m.r.published <= |m.r.puts| && m.r.puts[|gets|] == x)
    && (n == 0 ==> m.c == CBlock(take))
    && (n == 1 ==> m.c == CSleepLoad(take))
    && (n == 2 ==> m.c == CClearFlag(take) && |gets| < m.r.seenPublished)
    && (n == 3 ==> m.c == (if take then CTake else CIdle) && |gets| < m.r.seenPublished)
    && (n == 4 ==> m.c == CRelease && m.r.gets == gets + [x])
  }

  /** The consumer's last step: it has the item if it takes one, else it stands before an item it has seen. */
  function LastStage(take: bool): nat {
    if take then 4 else 3
  }

  lemma ProducerKeepsConsumer<V>(m: FdMachine<V>, m': FdMachine<V>)
    requires Inv(m) && |m.r.q| == CAPACITY && ProducerStep(m, m')
    ensures m'.c == m.c && m'.r.gets == m.r.gets && m.r.puts <= m'.r.puts
    ensures m'.r.seenPublished == m.r.seenPublished && m'.r.released == m.r.released
    ensures m.r.published <= m'.r.published <= |m'.r.puts| && m.counter <= m'.counter
  {
    hide Ring.Inv, Ring.WriterEmpty, Ring.ReaderEmpty, Ring.WriterReady, Ring.ReaderReady, Slot, Wrap;
    ProducerStepInv(m, m');
    Facts(m.r);
    Facts(m'.r);
  }

  lemma ProducerKeepsStage<V>(m: FdMachine<V>, m': FdMachine<V>, gets: seq<V>, x: V, take: bool, n: nat)
    requires Inv(m) && StepOf(m, false, m') && Stage(m, gets, x, take, n)
    ensures Stage(m', gets, x, take, n)
  {
    ProducerKeepsConsumer(m, m');
  }

  lemma ConsumerNextStage<V>(m: FdMachine<V>, m': FdMachine<V>, gets: seq<V>, x: V, take: bool, n: nat)
    requires Inv(m) && StepOf(m, true, m') && Stage(m, gets, x, take, n) && n < LastStage(take)
    ensures Stage(m', gets, x, take, n + 1)
  {
    hide Ring.Inv, Ring.WriterEmpty, Ring.ReaderEmpty, Ring.WriterReady, Ring.ReaderReady, Slot, Wrap;
    Facts(m.r);
    OtherAccessesInv(m.r);
    if n == 1 { Facts(m.r.LoadWriter()); }
    if n == 3 { TakeInv(m.r); }
  }

  lemma {:induction false} StagesPass<V>(run: seq<FdMachine<V>>, consumer: seq<bool>, i: nat, j: nat,
                                         gets: seq<V>, x: V, take: bool, n: nat)
    requires IsSchedule(run, consumer) && i <= j < |run| && Stage(run[i], gets, x, take, n)
    requires n + ConsumerSteps(consumer, i, j) <= LastStage(take)
    ensures Stage(run[j], gets, x, take, n + ConsumerSteps(consumer, i, j))
    decreases j - i
  {
    hide Inv, Stage, Init, ConsumerStep, ProducerStep;
    if i < j {
      ScheduleIsRun(run, consumer);
      RunInv(run, i);
      assert StepOf(run[i], consumer[i], run[i + 1]);
      if consumer[i] {
        ConsumerNextStage(run[i], run[i + 1], gets, x, take, n);
        StagesPass(run, consumer, i + 1, j, gets, x, take, n + 1);
      } else {
        ProducerKeepsStage(run[i], run[i + 1], gets, x, take, n);
        StagesPass(run, consumer, i + 1, j, gets, x, take, n);
      }
    }
  }

  /** A consumer blocked before a published item gets just that item by the fourth of its own steps. */
  lemma BlockedConsumerGets<V>(run: seq<FdMachine<V>>, consumer: seq<bool>, i: nat, j: nat)
    requires IsSchedule(run, consumer) && i <= j < |run|
    requires run[i].c == CBlock(true) && |run[i].r.gets| < run[i].r.published
    requires ConsumerSteps(consumer, i, j) == 4
    ensures |run[i].r.gets| < |run[i].r.puts|
    ensures run[j].r.gets == run[i].r.gets + [run[i].r.puts[|run[i].r.gets|]]
  {
    PublishedWasPut(run, consumer, i);
    StagesPass(run, consumer, i, j, run[i].r.gets, run[i].r.puts[|run[i].r.gets|], true, 0);
  }

  /** A consumer that only waits, blocked before a published item, sees it by the third of its own steps. */
  lemma BlockedWaiterSees<V>(run: seq<FdMachine<V>>, consumer: seq<bool>, i: nat, j: nat)
    requires IsSchedule(run, consumer) && i <= j < |run|
    requires run[i].c == CBlock(false) && |run[i].r.gets| < run[i].r.published
    requires ConsumerSteps(consumer, i, j) == 3
    ensures run[j].c == CIdle && run[j].r.gets == run[i].r.gets && !run[j].r.ReaderEmpty()
  {
    PublishedWasPut(run, consumer, i);
    StagesPass(run, consumer, i, j, run[i].r.gets, run[i].r.puts[|run[i].r.gets|], false, 0);
    ScheduleIsRun(run, consumer);
    RunInv(run, j);
    Facts(run[j].r);
  }

  lemma PublishedWasPut<V>(run: seq<FdMachine<V>>, consumer: seq<bool>, i: nat)
    requires IsSchedule(run, consumer) && i < |run|
    ensures run[i].r.published <= |run[i].r.puts|
  {
    ScheduleIsRun(run, consumer);
    RunInv(run, i);
    Facts(run[i].r);
  }
}
