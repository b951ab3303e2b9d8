/** Calls of memprof's hash table end: how many accesses of its own a call of `get_ht_pos` needs until it returns. */
module ProbeProgress {
  import opened ProbeTable

  // ----- runs that say which thread moves

  ghost predicate StepBy(s: State, t: nat, s': State) {
    Shape(s) && InTable(s, t) && ThreadStep(s, t, s')
  }

  /** who[k] is the thread that leads from state k to state k + 1. */
  ghost predicate IsSchedule(run: seq<State>, who: seq<nat>) {
    && |run| == |who| + 1 && Init(run[0])
    && forall k :: 0 <= k < |who| ==> StepBy(run[k], who[k], run[k + 1])
  }

  lemma ScheduleIsRun(run: seq<State>, who: seq<nat>)
    requires IsSchedule(run, who)
    ensures IsRun(run)
  {
    hide Init, InTable, ThreadStep, Shape;
    forall k | 0 <= k < |run| - 1 ensures Next(run[k], run[k + 1]) {
      StepIsNext(run[k], who[k], run[k + 1]);
    }
  }

  lemma StepIsNext(s: State, t: nat, s': State)
    requires StepBy(s, t, s')
    ensures Next(s, s')
  {
  }

  /** How many of the steps from i to j are those of thread t. */
  function OwnSteps(who: seq<nat>, t: nat, i: nat, j: nat): (n: nat)
    requires i <= j <= |who|
    ensures n <= j - i
    decreases j - i
  {
    if i == j then 0 else (if who[i] == t then 1 else 0) + OwnSteps(who, t, i + 1, j)
  }

  // ----- the measure

  predicate InCall(th: Thread) {
    !th.Idle? && !th.Aborted?
  }

  /** Moves along the table still to make, counted six accesses each, and a second lap if the call may be forced. */
  function Laps(m: nat, c: Call): int {
    6 * (m - c.steps) + (if c.force then 0 else 6 * m + 6)
  }

  predicate FreeSlot(ht: seq<nat>, c: Call) {
    c.pos < |ht| && ht[c.pos] == 0
  }

  /** An upper bound on the accesses the call still makes. */
  function Measure(ht: seq<nat>, th: Thread): int {
    match th
    case Idle => 0
    case Aborted => 0
    case LoadSlot(c) => Laps(|ht|, c) + (if FreeSlot(ht, c) then 5 else 1)
    case TestSize(c) => Laps(|ht|, c) + 4
    case TestForced(c) => Laps(|ht|, c) + 3
    case Cas(c) => Laps(|ht|, c) + 2
    case Count(c) => 1
  }

  /** In every state that a run with few threads reaches. */
  ghost predicate Healthy(s: State) {
    Inv(s) && RoomInv(s) && FewThreads(s) && NoneAborted(s)
  }

  lemma HasRoom(s: State)
    requires Healthy(s)
    ensures Occupied(s.ht) < |s.ht|
  {
    ThreadCountsBound(s.threads);
  }

  /** A call that is still looking has not gone beyond one lap. */
  lemma MovesLeft(s: State, t: nat)
    requires Healthy(s) && t < |s.threads| && InCall(s.threads[t]) && !s.threads[t].Count?
    ensures s.threads[t].call.steps < |s.ht| && s.threads[t].call.pos < |s.ht|
  {
    hide Passed, AllReachable, RoomInv, Home;
    HasRoom(s);
    assert ThreadOk(s, s.threads[t]);
    OneLap(s, s.threads[t].call);
  }

  lemma MeasureBounds(s: State, t: nat)
    requires Healthy(s) && t < |s.threads|
    ensures 0 <= Measure(s.ht, s.threads[t]) <= 12 * |s.ht| + 11
    ensures InCall(s.threads[t]) ==> Measure(s.ht, s.threads[t]) > 0
  {
    var th := s.threads[t];
    if InCall(th) && !th.Count? {
      MovesLeft(s, t);
    }
    HasRoom(s);
  }

  /** What the thread was asked for, and whether what it looks for is that or the unknown hash. */
  ghost predicate Honest(s: State, t: nat) {
    t < |s.threads| && (InCall(s.threads[t]) ==>
      var c := s.threads[t].call; c.hash == c.asked || c.hash == s.unknown)
  }

  /** The step of thread t from s to s' is the return of its call. */
  ghost predicate Returns(s: State, t: nat, s': State) {
    && t < |s.threads| == |s'.threads| && InCall(s.threads[t]) && s'.threads[t] == Idle
    && exists r :: IsReturn(r, s, t, s')
  }

  ghost predicate IsReturn(r: Return, s: State, t: nat, s': State)
    requires t < |s.threads| && InCall(s.threads[t])
  {
    && s'.log == s.log + {r} && r.asked == s.threads[t].call.asked && (r.hash == r.asked || r.hash == s.unknown)
    && r.pos < |s'.ht| && s'.ht[r.pos] == r.hash
  }

  /** The thread is still in the same call, and its measure has fallen. */
  ghost predicate Advances(s: State, t: nat, s': State) {
    && t < |s.threads| == |s'.threads| && InCall(s.threads[t]) && InCall(s'.threads[t])
    && s'.threads[t].call.asked == s.threads[t].call.asked
    && Measure(s'.ht, s'.threads[t]) < Measure(s.ht, s.threads[t])
  }

  /** Every access of a call's own lowers its measure, or is its return. */
  lemma OwnStep(s: State, t: nat, s': State)
    requires Healthy(s) && StepBy(s, t, s') && InCall(s.threads[t]) && Honest(s, t)
    ensures Returns(s, t, s') || Advances(s, t, s')
  {
    hide Home, Passed, AllReachable, RoomInv;
    var th := s.threads[t];
    assert ThreadOk(s, th);
    StepIsNext(s, t, s');
    StepNoAbort(s, s');
    StepFrame(s, t, s');
    assert s'.threads[t] != Aborted;
    if th.Count? {
      var c := th.call;
      assert IsReturn(Return(c.asked, c.hash, c.pos), s, t, s');
    } else {
      MovesLeft(s, t);
      if th.LoadSlot? && s.ht[th.call.pos] == th.call.hash {
        assert IsReturn(Return(th.call.asked, th.call.hash, th.call.pos), s, t, s');
      }
    }
  }

  /** Accesses of other threads never raise it: slots only fill. */
  lemma OthersStep(s: State, t: nat, u: nat, s': State)
    requires Inv(s) && StepBy(s, u, s') && u != t && t < |s.threads|
    ensures |s'.threads| == |s.threads| && s'.threads[t] == s.threads[t] && s'.unknown == s.unknown
    ensures Measure(s'.ht, s'.threads[t]) <= Measure(s.ht, s.threads[t])
  {
    hide Inv, ThreadStep;
    StepFrame(s, u, s');
  }

  lemma HonestStep(s: State, t: nat, u: nat, s': State)
    requires Inv(s) && StepBy(s, u, s') && Honest(s, t)
    ensures Honest(s', t)
  {
    hide Home, Inv;
    StepFrame(s, u, s');
  }

  // ----- whole runs

  lemma RunHealthy(run: seq<State>, who: seq<nat>, k: nat)
    requires IsSchedule(run, who) && FewThreads(run[0]) && k < |run|
    ensures Healthy(run[k]) && |run[k].ht| == |run[0].ht| && |run[k].threads| == |run[0].threads|
  {
    hide FewThreads, Inv, RoomInv, NoneAborted, IsRun;
    ScheduleIsRun(run, who);
    RunInv(run, k);
    RunRoom(run, k);
  }

  lemma {:induction false} RunHonest(run: seq<State>, who: seq<nat>, t: nat, k: nat)
    requires IsSchedule(run, who) && k < |run| && t < |run[0].threads|
    ensures Honest(run[k], t)
  {
    if k > 0 {
      RunHonest(run, who, t, k - 1);
      ScheduleIsRun(run, who);
      RunInv(run, k - 1);
      hide Init, Inv, Honest, ThreadStep;
      assert StepBy(run[k - 1], who[k - 1], run[k - 1 + 1]);
      HonestStep(run[k - 1], t, who[k - 1], run[k]);
    }
  }

  /** Step k - 1 of the run is the return of thread t from a call that asked for this hash. */
  ghost predicate ReturnsAt(run: seq<State>, who: seq<nat>, t: nat, asked: nat, k: nat) {
    && 0 < k < |run| == |who| + 1 && who[k - 1] == t && Returns(run[k - 1], t, run[k])
    && run[k - 1].threads[t].call.asked == asked
  }

  /** A call returns at the latest when its thread has made as many accesses as the measure allows. */
  lemma {:induction false} CallReturns(run: seq<State>, who: seq<nat>, t: nat, i: nat, j: nat) returns (k: nat)
    requires IsSchedule(run, who) && FewThreads(run[0]) && i <= j < |run|
    requires t < |run[0].threads| == |run[i].threads| && InCall(run[i].threads[t])
    requires OwnSteps(who, t, i, j) >= Measure(run[i].ht, run[i].threads[t])
    ensures i < k <= j && ReturnsAt(run, who, t, run[i].threads[t].call.asked, k)
    decreases j - i
  {
    hide Init, FewThreads, Inv, Healthy, InCall, Measure, StepBy, Honest, Returns;
    RunHealthy(run, who, i);
    MeasureBounds(run[i], t);
    assert i < j;
    RunHealthy(run, who, i + 1);
    assert StepBy(run[i], who[i], run[i + 1]);
    if who[i] == t {
      RunHonest(run, who, t, i);
      OwnStep(run[i], t, run[i + 1]);
      if Returns(run[i], t, run[i + 1]) {
        k := i + 1;
        return;
      }
    } else {
      HealthyInv(run[i]);
      OthersStep(run[i], t, who[i], run[i + 1]);
    }
    k := CallReturns(run, who, t, i + 1, j);
  }

  lemma HealthyInv(s: State)
    requires Healthy(s)
    ensures Inv(s)
  {
  }

  /** With few threads, any call returns within 12 m + 11 accesses of its own thread, whatever the others do. */
  lemma EveryCallReturns(run: seq<State>, who: seq<nat>, t: nat, i: nat, j: nat) returns (k: nat)
    requires IsSchedule(run, who) && FewThreads(run[0]) && i <= j < |run|
    requires t < |run[0].threads| == |run[i].threads| && InCall(run[i].threads[t])
    requires OwnSteps(who, t, i, j) >= 12 * |run[0].ht| + 11
    ensures i < k <= j && ReturnsAt(run, who, t, run[i].threads[t].call.asked, k)
  {
    hide Init, Healthy, InCall, Measure, Inv, FewThreads;
    RunHealthy(run, who, i);
    MeasureBounds(run[i], t);
    k := CallReturns(run, who, t, i, j);
  }
}
