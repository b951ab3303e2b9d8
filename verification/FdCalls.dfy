/** What whole calls of `BufferedFdQueue` do, with any accesses of the other thread between their own. */
module FdCalls {
  import opened RingBuffer
  import opened BufferedFdQueues

  lemma ScheduleInv<V>(run: seq<FdMachine<V>>, consumer: seq<bool>, k: nat)
    requires IsSchedule(run, consumer) && k < |run|
    ensures Inv(run[k])
  {
    ScheduleIsRun(run, consumer);
    RunInv(run, k);
  }

  function ProducerSteps(consumer: seq<bool>, i: nat, j: nat): (n: nat)
    requires i <= j <= |consumer|
    decreases j - i
  {
    if i == j then 0 else (if consumer[i] then 0 else 1) + ProducerSteps(consumer, i + 1, j)
  }

  // ----- no call is kept from starting or from going on

  lemma CallsCanStart<V>(m: FdMachine<V>, v: V, flush: bool)
    requires |m.r.q| == CAPACITY
    ensures m.p.PIdle? ==> StepOf(m, false, m.(p := PCheck(v, flush))) && StepOf(m, false, m.(p := PPublish))
    ensures m.c.CIdle? ==> StepOf(m, true, m.(c := CCheck(true))) && StepOf(m, true, m.(c := CBackoff(false)))
  {
  }

  /** Both threads can always move, but for a producer whose put has failed and a consumer that is asleep. */
  lemma NeverStuck<V>(m: FdMachine<V>) returns (p: FdMachine<V>, c: FdMachine<V>)
    requires |m.r.q| == CAPACITY
    ensures !m.p.PFailed? ==> StepOf(m, false, p)
    ensures !Asleep(m) ==> StepOf(m, true, c)
  {
    var r := m.r.LoadReader();
    p := match m.p
      case PIdle => m.(p := PPublish)
      case PCheck(v, flush) => m.(p := if !m.r.WriterEmpty() then PStore(v, flush) else PLoad(v, flush))
      case PLoad(v, flush) => m.(r := r, p := if r.WriterReady() == 0 then PFailed else PStore(v, flush))
      case PStore(v, flush) => m.(r := m.r.Store(v), p := if flush then PPublish else PIdle)
      case PPublish => m.(r := m.r.Publish(), p := PTestFlag)
      case PTestFlag => m.(p := if m.waitFlag then PSignal else PIdle)
      case PSignal => m.(counter := m.counter + 1, p := PIdle)
      case PFailed => m;
    var w := m.r.LoadWriter();
    c := match m.c
      case CIdle => m.(c := CRelease)
      case CCheck(take) => m.(c := if !m.r.ReaderEmpty() then CTake else CBackoff(take))
      case CBackoff(take) => m.(c := CSetFlag(take))
      case CSetFlag(take) => m.(waitFlag := true, c := CSleepLoad(take))
      case CSleepLoad(take) => m.(r := w, c := if w.ReaderReady() != 0 then CClearFlag(take) else CBlock(take))
      case CBlock(take) => m.(counter := 0, c := CSleepLoad(take))
      case CClearFlag(take) => m.(waitFlag := false, c := if take then CTake else CIdle)
      case CTake => m.(r := m.r.Take(), c := CRelease)
      case CRelease => m.(r := m.r.Release(), c := CIdle);
  }

  // ----- put

  /** How many accesses a put has left. */
  function PutRank<V>(p: FdProducer<V>): nat {
    match p
    case PCheck(_, _) => 6
    case PLoad(_, _) => 5
    case PStore(_, _) => 4
    case PPublish => 3
    case PTestFlag => 2
    case PSignal => 1
    case PIdle => 0
    case PFailed => 0
  }

  /** A put of v after these items is under way, or has just returned. */
  ghost predicate Putting<V>(m: FdMachine<V>, puts: seq<V>, v: V, flush: bool) {
    match m.p
    case PCheck(w, f) => w == v && f == flush && m.r.puts == puts
    case PLoad(w, f) => w == v && f == flush && m.r.puts == puts
    case PStore(w, f) => w == v && f == flush && m.r.puts == puts
    case PPublish => flush && m.r.puts == puts + [v]
    case PTestFlag => flush && m.r.puts == puts + [v] && m.r.published == |m.r.puts|
    case PSignal => flush && m.r.puts == puts + [v] && m.r.published == |m.r.puts|
    case PIdle => m.r.puts == puts + [v] && (flush ==> m.r.published == |m.r.puts|)
    case PFailed => m.r.puts == puts
  }

  lemma PutStep<V>(m: FdMachine<V>, m': FdMachine<V>, puts: seq<V>, v: V, flush: bool)
    requires Inv(m) && StepOf(m, false, m') && Putting(m, puts, v, flush) && PutRank(m.p) > 0
    ensures Putting(m', puts, v, flush) && PutRank(m'.p) < PutRank(m.p)
  {
    hide Ring.Inv, Ring.WriterEmpty, Ring.ReaderEmpty, Ring.WriterReady, Ring.ReaderReady, Slot, Wrap;
  }

  lemma ConsumerKeepsPut<V>(m: FdMachine<V>, m': FdMachine<V>, puts: seq<V>, v: V, flush: bool)
    requires Inv(m) && StepOf(m, true, m') && Putting(m, puts, v, flush)
    ensures Putting(m', puts, v, flush) && m'.p == m.p
  {
    hide Ring.Inv, Ring.WriterEmpty, Ring.ReaderEmpty, Ring.WriterReady, Ring.ReaderReady, Slot, Wrap;
  }

  /** Within six accesses of its own a put has appended its value, and published everything if it flushes; or it has
    failed and appended nothing. */
  lemma {:induction false} PutReturns<V>(run: seq<FdMachine<V>>, consumer: seq<bool>, i: nat, j: nat,
                                         puts: seq<V>, v: V, flush: bool) returns (k: nat)
    requires IsSchedule(run, consumer) && i <= j < |run| && Putting(run[i], puts, v, flush)
    requires ProducerSteps(consumer, i, j) >= PutRank(run[i].p)
    ensures i <= k <= j && Putting(run[k], puts, v, flush) && (run[k].p.PIdle? || run[k].p.PFailed?)
    decreases j - i
  {
    hide Inv, Putting, Init, ConsumerStep, ProducerStep;
    if PutRank(run[i].p) == 0 {
      return i;
    }
    ScheduleInv(run, consumer, i);
    assert StepOf(run[i], consumer[i], run[i + 1]);
    if consumer[i] {
      ConsumerKeepsPut(run[i], run[i + 1], puts, v, flush);
    } else {
      PutStep(run[i], run[i + 1], puts, v, flush);
    }
    k := PutReturns(run, consumer, i + 1, j, puts, v, flush);
  }

  lemma PutFailsOnlyWhenFull<V>(run: seq<FdMachine<V>>, k: nat, m': FdMachine<V>)
    requires IsRun(run) && k < |run| && run[k].p.PLoad? && |run[k].r.q| == CAPACITY && ProducerStep(run[k], m')
    ensures m'.p.PFailed? <==> |run[k].r.puts| == run[k].r.released + CAPACITY
  {
    RunInv(run, k);
    OtherAccessesInv(run[k].r);
    Facts(run[k].r.LoadReader());
  }

  // ----- get and wait_reader

  /** How many accesses a call of the consumer has left when an item is published. */
  function GetRank(c: FdConsumer): nat {
    match c
    case CCheck(_) => 7
    case CBackoff(_) => 6
    case CSetFlag(_) => 5
    case CBlock(_) => 5
    case CSleepLoad(_) => 4
    case CClearFlag(_) => 3
    case CTake => 2
    case CRelease => 1
    case CIdle => 0
  }

  /** A call that takes an item, or only waits for one, after these items, with x published next, is under way or has
    just returned. */
  ghost predicate Getting<V>(m: FdMachine<V>, gets: seq<V>, x: V, take: bool) {
    && |gets| < m.r.published <= |m.r.puts| && m.r.puts[|gets|] == x
    && match m.c
       case CTake => take && m.r.gets == gets
       case CRelease => take && m.r.gets == gets + [x]
       case CIdle => if take then m.r.gets == gets + [x] && m.r.released == |m.r.gets|
                     else m.r.gets == gets && m.r.seenPublished > |gets|
       case CCheck(t) => t && take && m.r.gets == gets
       case CBackoff(t) => t == take && m.r.gets == gets
       case CSetFlag(t) => t == take && m.r.gets == gets
       case CSleepLoad(t) => t == take && m.r.gets == gets
       case CBlock(t) => t == take && m.r.gets == gets
       case CClearFlag(t) => t == take && m.r.gets == gets && m.r.seenPublished > |gets|
  }

  lemma GetStep<V>(m: FdMachine<V>, m': FdMachine<V>, gets: seq<V>, x: V, take: bool)
    requires Inv(m) && StepOf(m, true, m') && Getting(m, gets, x, take) && GetRank(m.c) > 0
    ensures Getting(m', gets, x, take) && GetRank(m'.c) < GetRank(m.c)
  {
    hide Ring.Inv, Ring.WriterEmpty, Ring.ReaderEmpty, Ring.WriterReady, Ring.ReaderReady, Slot, Wrap;
    OtherAccessesInv(m.r);
    Facts(m.r.LoadWriter());
    if m.c.CTake? { TakeInv(m.r); }
  }

  lemma ProducerKeepsGet<V>(m: FdMachine<V>, m': FdMachine<V>, gets: seq<V>, x: V, take: bool)
    requires Inv(m) && StepOf(m, false, m') && Getting(m, gets, x, take)
    ensures Getting(m', gets, x, take) && m'.c == m.c
  {
    ProducerKeepsConsumer(m, m');
  }

  /** From anywhere in the call: within seven accesses of its own a `get` that finds an item published has got it and
    released its slot, and a `wait_reader` has seen it. */
  lemma {:induction false} GetReturns<V>(run: seq<FdMachine<V>>, consumer: seq<bool>, i: nat, j: nat,
                                         gets: seq<V>, x: V, take: bool) returns (k: nat)
    requires IsSchedule(run, consumer) && i <= j < |run| && Getting(run[i], gets, x, take)
    requires ConsumerSteps(consumer, i, j) >= GetRank(run[i].c)
    ensures i <= k <= j && Getting(run[k], gets, x, take) && run[k].c.CIdle?
    decreases j - i
  {
    hide Inv, Getting, Init, ConsumerStep, ProducerStep;
    if GetRank(run[i].c) == 0 {
      return i;
    }
    ScheduleInv(run, consumer, i);
    assert StepOf(run[i], consumer[i], run[i + 1]);
    if consumer[i] {
      GetStep(run[i], run[i + 1], gets, x, take);
    } else {
      ProducerKeepsGet(run[i], run[i + 1], gets, x, take);
    }
    k := GetReturns(run, consumer, i + 1, j, gets, x, take);
  }

  // ----- runs of put and get alone

  ghost predicate PublishesAlways<V>(run: seq<FdMachine<V>>) {
    forall k :: 0 <= k < |run| && run[k].p.PCheck? ==> run[k].p.flush
  }

  ghost predicate Published<V>(m: FdMachine<V>) {
    && (m.p.PLoad? || m.p.PStore? ==> m.p.flush)
    && (!m.p.PPublish? ==> m.r.published == |m.r.puts|)
  }

  /** When every put flushes, an idle producer has published everything. */
  lemma {:induction false} IdleMeansPublished<V>(run: seq<FdMachine<V>>, k: nat)
    requires IsRun(run) && k < |run| && PublishesAlways(run)
    ensures Published(run[k])
    ensures run[k].p.PIdle? ==> run[k].r.published == |run[k].r.puts|
  {
    hide Ring.Inv, Ring.WriterEmpty, Ring.ReaderEmpty, Ring.WriterReady, Ring.ReaderReady, Slot, Wrap;
    if k > 0 {
      IdleMeansPublished(run, k - 1);
      assert Next(run[k - 1], run[k - 1 + 1]);
    }
  }

  /** Then a consumer asleep while the producer is idle has got everything that was put. */
  lemma AsleepMeansAllGot<V>(run: seq<FdMachine<V>>, k: nat)
    requires IsRun(run) && k < |run| && PublishesAlways(run) && run[k].p.PIdle? && Asleep(run[k])
    ensures run[k].r.gets == run[k].r.puts
  {
    IdleMeansPublished(run, k);
    NothingLeftBehind(run, k);
  }

  /** When items are got by `get` only, a consumer that is not about to release has released everything it got. */
  lemma {:induction false} IdleMeansReleased<V>(run: seq<FdMachine<V>>, k: nat)
    requires IsRun(run) && k < |run|
    requires forall i :: 0 <= i < |run| - 1 && run[i].c.CIdle? ==> run[i + 1].r.gets == run[i].r.gets
    ensures !run[k].c.CRelease? ==> run[k].r.released == |run[k].r.gets|
  {
    hide Ring.Inv, Ring.WriterEmpty, Ring.ReaderEmpty, Ring.WriterReady, Ring.ReaderReady, Slot, Wrap;
    if k > 0 {
      IdleMeansReleased(run, k - 1);
      assert Next(run[k - 1], run[k - 1 + 1]);
      assert run[k - 1].c.CIdle? ==> run[k - 1 + 1].r.gets == run[k - 1].r.gets;
    }
  }

  // ----- signals

  /** No signal is made, or about to be made, unless the consumer had raised its flag. */
  lemma {:induction false} SignalsOnlyWhenAsked<V>(run: seq<FdMachine<V>>, k: nat)
    requires IsRun(run) && k < |run| && forall i :: 0 <= i <= k ==> !run[i].waitFlag
    ensures run[k].counter == 0 && !run[k].p.PSignal?
  {
    hide Ring.Inv, Ring.WriterEmpty, Ring.ReaderEmpty, Ring.WriterReady, Ring.ReaderReady, Slot, Wrap;
    if k > 0 {
      SignalsOnlyWhenAsked(run, k - 1);
      assert Next(run[k - 1], run[k - 1 + 1]);
    }
  }
}
