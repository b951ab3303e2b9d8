/** What whole calls of `BufferQueue` do, with any accesses of the other thread between their own. */
module BufferCalls {
  import opened RingBuffer
  import opened BufferQueues

  // ----- runs that say which thread moves

  ghost predicate StepOf<V>(m: Machine<V>, consumer: bool, m': Machine<V>) {
    |m.r.q| == CAPACITY && if consumer then ConsumerStep(m, m') else ProducerStep(m, m')
  }

  /** consumer[k] says whether step k of the run is one of the consumer's. */
  ghost predicate IsSchedule<V>(run: seq<Machine<V>>, consumer: seq<bool>) {
    && |run| == |consumer| + 1 && Init(run[0])
    && forall k :: 0 <= k < |consumer| ==> StepOf(run[k], consumer[k], run[k + 1])
  }

  lemma ScheduleIsRun<V>(run: seq<Machine<V>>, consumer: seq<bool>)
    requires IsSchedule(run, consumer)
    ensures IsRun(run)
  {
    hide ConsumerStep, ProducerStep, Init;
    forall k | 0 <= k < |run| - 1 ensures Next(run[k], run[k + 1]) {
      assert StepOf(run[k], consumer[k], run[k + 1]);
    }
  }

  lemma ScheduleInv<V>(run: seq<Machine<V>>, consumer: seq<bool>, k: nat)
    requires IsSchedule(run, consumer) && k < |run|
    ensures Inv(run[k])
  {
    ScheduleIsRun(run, consumer);
    RunInv(run, k);
  }

  /** How many of the steps from i to j are those of one of the threads. */
  function Steps(consumer: seq<bool>, who: bool, i: nat, j: nat): (n: nat)
    requires i <= j <= |consumer|
    decreases j - i
  {
    if i == j then 0 else (if consumer[i] == who then 1 else 0) + Steps(consumer, who, i + 1, j)
  }

  // ----- no call is kept from starting or from going on

  lemma CallsCanStart<V>(m: Machine<V>, v: V, flush: bool)
    requires |m.r.q| == CAPACITY
    ensures m.p.PIdle? ==> StepOf(m, false, m.(p := PCheck(v, flush))) && StepOf(m, false, m.(p := PFlush))
    ensures m.c.CIdle? ==> StepOf(m, true, m.(c := CCheck(flush))) && StepOf(m, true, m.(c := CFlush))
  {
  }

  /** Both threads can always move, but for a producer whose put has failed. */
  lemma NeverStuck<V>(m: Machine<V>) returns (p: Machine<V>, c: Machine<V>)
    requires |m.r.q| == CAPACITY
    ensures !m.p.PFailed? ==> StepOf(m, false, p)
    ensures StepOf(m, true, c)
  {
    var r := m.r.LoadReader();
    p := match m.p
      case PIdle => m.(p := PFlush)
      case PCheck(v, flush) => m.(p := if !m.r.WriterEmpty() then PStore(v, flush) else PLoad(v, flush))
      case PLoad(v, flush) => m.(r := r, p := if r.WriterReady() == 0 then PFailed else PStore(v, flush))
      case PStore(v, flush) => m.(r := m.r.Store(v), p := if flush then PFlush else PIdle)
      case PFlush => m.(r := m.r.Publish(), p := PIdle)
      case PFailed => m;
    var w := m.r.LoadWriter();
    c := match m.c
      case CIdle => m.(c := CFlush)
      case CCheck(flush) => m.(c := if !m.r.ReaderEmpty() then CTake(flush) else CLoad(flush))
      case CLoad(flush) => m.(r := w, c := if w.ReaderReady() != 0 then CTake(flush) else CLoad(flush))
      case CTake(flush) => m.(r := m.r.Take(), c := if flush then CFlush else CIdle)
      case CFlush => m.(r := m.r.Release(), c := CIdle);
  }

  // ----- put

  /** How many accesses a put has left. */
  function PutRank<V>(p: Producer<V>): nat {
    match p
    case PCheck(_, _) => 4
    case PLoad(_, _) => 3
    case PStore(_, _) => 2
    case PFlush => 1
    case PIdle => 0
    case PFailed => 0
  }

  /** A put of v after these items is under way, or has just returned. */
  ghost predicate Putting<V>(m: Machine<V>, puts: seq<V>, v: V, flush: bool) {
    match m.p
    case PCheck(w, f) => w == v && f == flush && m.r.puts == puts
    case PLoad(w, f) => w == v && f == flush && m.r.puts == puts
    case PStore(w, f) => w == v && f == flush && m.r.puts == puts
    case PFlush => flush && m.r.puts == puts + [v]
    case PIdle => m.r.puts == puts + [v] && (flush ==> m.r.published == |m.r.puts|)
    case PFailed => m.r.puts == puts
  }

  lemma PutStep<V>(m: Machine<V>, m': Machine<V>, puts: seq<V>, v: V, flush: bool)
    requires Inv(m) && StepOf(m, false, m') && Putting(m, puts, v, flush) && PutRank(m.p) > 0
    ensures Putting(m', puts, v, flush) && PutRank(m'.p) < PutRank(m.p)
  {
    hide Ring.Inv, Ring.WriterEmpty, Ring.ReaderEmpty, Ring.WriterReady, Ring.ReaderReady, Slot, Wrap;
  }

  lemma ConsumerKeepsPut<V>(m: Machine<V>, m': Machine<V>, puts: seq<V>, v: V, flush: bool)
    requires Inv(m) && StepOf(m, true, m') && Putting(m, puts, v, flush)
    ensures Putting(m', puts, v, flush) && m'.p == m.p
  {
    hide Ring.Inv, Ring.WriterEmpty, Ring.ReaderEmpty, Ring.WriterReady, Ring.ReaderReady, Slot, Wrap;
  }

  /** Within four accesses of its own a put has appended its value, and published everything if it flushes; or it
    has failed and appended nothing. */
  lemma {:induction false} PutReturns<V>(run: seq<Machine<V>>, consumer: seq<bool>, i: nat, j: nat,
                                         puts: seq<V>, v: V, flush: bool) returns (k: nat)
    requires IsSchedule(run, consumer) && i <= j < |run| && Putting(run[i], puts, v, flush)
    requires Steps(consumer, false, i, j) >= PutRank(run[i].p)
    ensures i <= k <= j && Putting(run[k], puts, v, flush) && (run[k].p.PIdle? || run[k].p.PFailed?)
    decreases j - i
  {
    hide Inv, Putting, Init, ConsumerStep, ProducerStep;
    if PutRank(run[i].p) == 0 {
      return i;
    }
    ScheduleInv(run, consumer, i);
    assert StepOf(run[i], consumer[i], run[i + 1]);
    if consumer[i] {
      ConsumerKeepsPut(run[i], run[i + 1], puts, v, flush);
    } else {
      PutStep(run[i], run[i + 1], puts, v, flush);
    }
    k := PutReturns(run, consumer, i + 1, j, puts, v, flush);
  }

  // ----- get

  function GetRank(c: Consumer): nat {
    match c
    case CCheck(_) => 4
    case CLoad(_) => 3
    case CTake(_) => 2
    case CFlush => 1
    case CIdle => 0
  }

  /** A get after these items, with x published next, is under way, or has just returned. */
  ghost predicate Getting<V>(m: Machine<V>, gets: seq<V>, x: V, flush: bool) {
    && |gets| < m.r.published <= |m.r.puts| && m.r.puts[|gets|] == x
    && match m.c
       case CCheck(f) => f == flush && m.r.gets == gets
       case CLoad(f) => f == flush && m.r.gets == gets
       case CTake(f) => f == flush && m.r.gets == gets
       case CFlush => flush && m.r.gets == gets + [x]
       case CIdle => m.r.gets == gets + [x] && (flush ==> m.r.released == |m.r.gets|)
  }

  lemma GetStep<V>(m: Machine<V>, m': Machine<V>, gets: seq<V>, x: V, flush: bool)
    requires Inv(m) && StepOf(m, true, m') && Getting(m, gets, x, flush) && GetRank(m.c) > 0
    ensures Getting(m', gets, x, flush) && GetRank(m'.c) < GetRank(m.c)
  {
    hide Ring.Inv, Ring.WriterEmpty, Ring.ReaderEmpty, Ring.WriterReady, Ring.ReaderReady, Slot, Wrap;
    OtherAccessesInv(m.r);
    Facts(m.r.LoadWriter());
    if m.c.CTake? { TakeInv(m.r); }
  }

  lemma ProducerKeepsGet<V>(m: Machine<V>, m': Machine<V>, gets: seq<V>, x: V, flush: bool)
    requires Inv(m) && StepOf(m, false, m') && Getting(m, gets, x, flush)
    ensures Getting(m', gets, x, flush) && m'.c == m.c
  {
    hide Ring.Inv, Ring.WriterEmpty, Ring.ReaderEmpty, Ring.WriterReady, Ring.ReaderReady, Slot, Wrap;
    StepInv(m, m');
    Facts(m'.r);
  }

  /** Within four accesses of its own a get that finds an item published has got it, and released its slot if it
    flushes. */
  lemma {:induction false} GetReturns<V>(run: seq<Machine<V>>, consumer: seq<bool>, i: nat, j: nat,
                                         gets: seq<V>, x: V, flush: bool) returns (k: nat)
    requires IsSchedule(run, consumer) && i <= j < |run| && Getting(run[i], gets, x, flush)
    requires Steps(consumer, true, i, j) >= GetRank(run[i].c)
    ensures i <= k <= j && Getting(run[k], gets, x, flush) && run[k].c.CIdle?
    decreases j - i
  {
    hide Inv, Getting, Init, ConsumerStep, ProducerStep;
    if GetRank(run[i].c) == 0 {
      return i;
    }
    ScheduleInv(run, consumer, i);
    assert StepOf(run[i], consumer[i], run[i + 1]);
    if consumer[i] {
      GetStep(run[i], run[i + 1], gets, x, flush);
    } else {
      ProducerKeepsGet(run[i], run[i + 1], gets, x, flush);
    }
    k := GetReturns(run, consumer, i + 1, j, gets, x, flush);
  }

  // ----- runs of put and get alone

  /** The calls that start are `put` and `get`, which flush. */
  predicate AlwaysFlushes<V>(m: Machine<V>) {
    (m.p.PCheck? ==> m.p.flush) && (m.c.CCheck? ==> m.c.flush)
  }

  /** Nothing is put and not published, or got and not released, but by a call about to flush. */
  ghost predicate Flushed<V>(m: Machine<V>) {
    && (m.p.PLoad? || m.p.PStore? ==> m.p.flush) && (m.c.CLoad? || m.c.CTake? ==> m.c.flush)
    && (!m.p.PFlush? ==> m.r.published == |m.r.puts|)
    && (!m.c.CFlush? ==> m.r.released == |m.r.gets|)
  }

  /** When all calls are `put` and `get`, an idle producer has published everything and an idle consumer released
    everything. */
  lemma {:induction false} IdleMeansFlushed<V>(run: seq<Machine<V>>, k: nat)
    requires IsRun(run) && k < |run| && forall i :: 0 <= i < |run| ==> AlwaysFlushes(run[i])
    ensures Flushed(run[k])
    ensures run[k].p.PIdle? ==> run[k].r.published == |run[k].r.puts|
    ensures run[k].c.CIdle? ==> run[k].r.released == |run[k].r.gets|
  {
    if k > 0 {
      IdleMeansFlushed(run, k - 1);
      assert AlwaysFlushes(run[k - 1]) && AlwaysFlushes(run[k]);
      assert Next(run[k - 1], run[k - 1 + 1]);
      hide Init;
      FlushedStep(run[k - 1], run[k]);
    }
  }

  lemma FlushedStep<V>(m: Machine<V>, m': Machine<V>)
    requires Flushed(m) && AlwaysFlushes(m) && Next(m, m')
    ensures Flushed(m')
  {
    hide Ring.Inv, Ring.WriterEmpty, Ring.ReaderEmpty, Ring.WriterReady, Ring.ReaderReady, Slot, Wrap;
  }
}
