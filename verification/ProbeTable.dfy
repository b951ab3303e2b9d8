/** The lock-free, insert-only hash table of memprof: threads that run `get_ht_pos`, interleaved access by access. */
module ProbeTable {

  /** A call in progress: what it was asked for, what it looks for now and where. `steps` counts its moves. */
  datatype Call = Call(asked: nat, hash: nat, force: bool, pos: nat, wasOverflow: bool, steps: nat)

  datatype Thread =
    | Idle
    | LoadSlot(call: Call)
    | TestSize(call: Call)
    | TestForced(call: Call)
    | Cas(call: Call)
    | Count(call: Call)
    | Aborted

  datatype Return = Return(asked: nat, hash: nat, pos: nat)

  /** The hash of the one backtrace that stands for all that come too late. */
  datatype State = State(ht: seq<nat>, htSize: nat, threads: seq<Thread>, log: set<Return>, unknown: nat)

  function Home(hash: nat, m: nat): (p: nat)
    requires m > 0
    ensures p < m
  {
    hash % m
  }

  function NewCall(asked: nat, hash: nat, force: bool, m: nat): Call
    requires m > 0
  {
    Call(asked, hash, force, Home(hash, m), false, 0)
  }

  /** `pos++`, back to the start at the end of the table; None where the program aborts at the second wrap. */
  function Advance(c: Call, m: nat): Thread {
    if c.pos + 1 != m then LoadSlot(c.(pos := c.pos + 1, steps := c.steps + 1))
    else if c.wasOverflow then Aborted
    else LoadSlot(c.(pos := 0, wasOverflow := true, steps := c.steps + 1))
  }

  predicate Shape(s: State) {
    |s.ht| > 0 && s.unknown != 0
  }

  predicate InTable(s: State, t: nat) {
    t < |s.threads| && match s.threads[t]
      case Idle => true
      case Aborted => true
      case LoadSlot(c) => c.pos < |s.ht|
      case TestSize(c) => c.pos < |s.ht|
      case TestForced(c) => c.pos < |s.ht|
      case Cas(c) => c.pos < |s.ht|
      case Count(c) => c.pos < |s.ht|
  }

  function Goto(s: State, t: nat, next: Thread): State
    requires t < |s.threads|
  {
    s.(threads := s.threads[t := next])
  }

  function Finish(s: State, t: nat, c: Call): State
    requires t < |s.threads|
  {
    Goto(s, t, Idle).(log := s.log + {Return(c.asked, c.hash, c.pos)})
  }

  /** One access of thread t to shared memory; an idle thread may start a call for any non-zero hash. */
  ghost predicate ThreadStep(s: State, t: nat, s': State)
    requires Shape(s) && InTable(s, t)
  {
    var m := |s.ht|;
    match s.threads[t]
    case Idle => exists hash: nat :: hash != 0 && s' == Goto(s, t, LoadSlot(NewCall(hash, hash, false, m)))
    case LoadSlot(c) =>
      s' == (if s.ht[c.pos] == 0 then Goto(s, t, TestSize(c))
             else if s.ht[c.pos] == c.hash then Finish(s, t, c)
             else Goto(s, t, Advance(c, m)))
    case TestSize(c) =>
      s' == Goto(s, t, if s.htSize <= m / 2 then Cas(c)
                       else if c.force then TestForced(c)
                       else LoadSlot(NewCall(c.asked, s.unknown, true, m)))
    case TestForced(c) => s' == Goto(s, t, if s.htSize * 10 < m * 7 then Cas(c) else Aborted)
    case Cas(c) =>
      s' == (if s.ht[c.pos] == 0 then Goto(s, t, Count(c)).(ht := s.ht[c.pos := c.hash])
             else Goto(s, t, LoadSlot(c)))
    case Count(c) => s' == Finish(s, t, c).(htSize := s.htSize + 1)
    case Aborted => false
  }

  ghost predicate Next(s: State, s': State) {
    Shape(s) && exists t: nat :: InTable(s, t) && ThreadStep(s, t, s')
  }

  ghost predicate Init(s: State) {
    && Shape(s) && s.htSize == 0 && s.log == {}
    && (forall p :: 0 <= p < |s.ht| ==> s.ht[p] == 0)
    && (forall t :: 0 <= t < |s.threads| ==> s.threads[t] == Idle)
  }

  ghost predicate IsRun(run: seq<State>) {
    |run| > 0 && Init(run[0]) && forall k :: 0 <= k < |run| - 1 ==> Next(run[k], run[k + 1])
  }

  // ----- probe paths

  /** The slot k steps after home, for k < 2m - home. */
  function At(home: nat, k: nat, m: nat): int {
    if home + k < m then home + k else home + k - m
  }

  /** The first n slots from the home of the hash are taken by other hashes. */
  ghost predicate Passed(ht: seq<nat>, hash: nat, n: nat) {
    |ht| > 0 && forall k: nat :: k < n && k < |ht| ==>
      ht[At(Home(hash, |ht|), k, |ht|)] != 0 && ht[At(Home(hash, |ht|), k, |ht|)] != hash
  }

  function Distance(home: nat, p: nat, m: nat): int {
    if home <= p then p - home else p + m - home
  }

  /** The probe for the hash in slot p passes only taken slots of other hashes. */
  ghost predicate Reachable(ht: seq<nat>, p: nat)
    requires p < |ht|
  {
    ht[p] != 0 ==> Passed(ht, ht[p], Distance(Home(ht[p], |ht|), p, |ht|))
  }

  ghost predicate CallOk(ht: seq<nat>, c: Call) {
    && |ht| > 0 && c.hash != 0 && c.pos < |ht|
    && var home := Home(c.hash, |ht|);
      && c.steps < 2 * |ht| - home
      && c.pos == At(home, c.steps, |ht|)
      && (c.wasOverflow <==> home + c.steps >= |ht|)
      && Passed(ht, c.hash, c.steps)
  }

  ghost predicate ThreadOk(s: State, t: Thread) {
    match t
    case Idle => true
    case Aborted => true
    case LoadSlot(c) => CallOk(s.ht, c) && (c.force ==> c.hash == s.unknown)
    case TestSize(c) => CallOk(s.ht, c) && (c.force ==> c.hash == s.unknown)
    case TestForced(c) => CallOk(s.ht, c) && c.force && c.hash == s.unknown
    case Cas(c) => CallOk(s.ht, c) && (c.force ==> c.hash == s.unknown)
    case Count(c) => c.hash != 0 && c.pos < |s.ht| && s.ht[c.pos] == c.hash
  }

  ghost predicate Inv(s: State) {
    && Shape(s)
    && AllReachable(s.ht)
    && (forall t: nat :: t < |s.threads| ==> ThreadOk(s, s.threads[t]))
    && (forall r :: r in s.log ==> r.hash != 0 && r.pos < |s.ht| && s.ht[r.pos] == r.hash)
  }

  /** Taken slots never change. */
  predicate Grows(ht: seq<nat>, ht': seq<nat>) {
    |ht| == |ht'| && forall p: nat :: p < |ht| && ht[p] != 0 ==> ht'[p] == ht[p]
  }

  ghost predicate AllReachable(ht: seq<nat>) {
    forall p: nat :: p < |ht| ==> Reachable(ht, p)
  }

  lemma PassedAt(ht: seq<nat>, hash: nat, n: nat, k: nat)
    requires Passed(ht, hash, n) && k < n && k < |ht|
    ensures ht[At(Home(hash, |ht|), k, |ht|)] != 0 && ht[At(Home(hash, |ht|), k, |ht|)] != hash
  {
  }

  // ----- uniqueness

  lemma AtDistance(home: nat, p: nat, m: nat)
    requires home < m && p < m
    ensures 0 <= Distance(home, p, m) < m && At(home, Distance(home, p, m), m) == p
  {
  }

  /** No hash occupies two slots. */
  lemma NoDuplicates(s: State, p: nat, p': nat)
    requires Inv(s) && p < |s.ht| && p' < |s.ht| && s.ht[p] == s.ht[p'] != 0
    ensures p == p'
  {
    hide Home, Passed;
    var m := |s.ht|;
    var home := Home(s.ht[p], m);
    AtDistance(home, p, m);
    AtDistance(home, p', m);
    assert Reachable(s.ht, p) && Reachable(s.ht, p');
    var (d, d') := (Distance(home, p, m), Distance(home, p', m));
    if d < d' {
      PassedAt(s.ht, s.ht[p], d', d);
      assert false;
    } else if d' < d {
      PassedAt(s.ht, s.ht[p], d, d');
      assert false;
    }
  }

  // ----- preservation

  lemma PassedGrows(ht: seq<nat>, ht': seq<nat>, hash: nat, n: nat)
    requires Passed(ht, hash, n) && Grows(ht, ht')
    ensures Passed(ht', hash, n)
  {
    hide Home;
    forall k: nat | k < n && k < |ht'|
      ensures ht'[At(Home(hash, |ht'|), k, |ht'|)] != 0 && ht'[At(Home(hash, |ht'|), k, |ht'|)] != hash
    {
      assert ht[At(Home(hash, |ht|), k, |ht|)] != 0;
    }
  }

  lemma ThreadGrows(s: State, s': State, t: Thread)
    requires ThreadOk(s, t) && Grows(s.ht, s'.ht) && s.unknown == s'.unknown
    ensures ThreadOk(s', t)
  {
    hide Passed, Home;
    match t
    case Idle =>
    case Aborted =>
    case LoadSlot(c) => PassedGrows(s.ht, s'.ht, c.hash, c.steps);
    case TestSize(c) => PassedGrows(s.ht, s'.ht, c.hash, c.steps);
    case TestForced(c) => PassedGrows(s.ht, s'.ht, c.hash, c.steps);
    case Cas(c) => PassedGrows(s.ht, s'.ht, c.hash, c.steps);
    case Count(c) =>
  }

  lemma AdvanceOk(s: State, c: Call)
    requires Shape(s) && CallOk(s.ht, c) && (c.force ==> c.hash == s.unknown)
    requires s.ht[c.pos] != 0 && s.ht[c.pos] != c.hash
    ensures ThreadOk(s, Advance(c, |s.ht|))
  {
    hide Home;
    var (m, home) := (|s.ht|, Home(c.hash, |s.ht|));
    assert Passed(s.ht, c.hash, c.steps + 1) by {
      forall k: nat | k < c.steps + 1 && k < m
        ensures s.ht[At(home, k, m)] != 0 && s.ht[At(home, k, m)] != c.hash
      {
        if k == c.steps {} else {}
      }
    }
  }

  lemma NewCallOk(s: State, asked: nat, hash: nat, force: bool)
    requires Shape(s) && hash != 0
    ensures CallOk(s.ht, NewCall(asked, hash, force, |s.ht|))
  {
    hide Home;
  }

  /** An insertion extends a path that the inserting call has passed, so the new slot is reachable. */
  lemma InsertReachable(ht: seq<nat>, c: Call)
    requires CallOk(ht, c) && ht[c.pos] == 0 && AllReachable(ht)
    ensures Grows(ht, ht[c.pos := c.hash])
    ensures AllReachable(ht[c.pos := c.hash])
  {
    hide Home;
    var (m, home) := (|ht|, Home(c.hash, |ht|));
    var ht' := ht[c.pos := c.hash];
    if c.steps >= m {
      PassedAt(ht, c.hash, c.steps, c.steps - m);
      assert false;
    }
    forall p: nat | p < m ensures Reachable(ht', p) {
      if p == c.pos {
        PassedGrows(ht, ht', c.hash, c.steps);
        assert Distance(home, p, m) == c.steps;
      } else if ht[p] != 0 {
        assert Reachable(ht, p);
        PassedGrows(ht, ht', ht[p], Distance(Home(ht[p], m), p, m));
      }
    }
  }

  /** A step leaves the other threads, and taken slots, alone. */
  lemma StepFrame(s: State, t: nat, s': State)
    requires Inv(s) && t < |s.threads| && InTable(s, t) && ThreadStep(s, t, s')
    ensures Grows(s.ht, s'.ht) && s'.unknown == s.unknown && |s'.threads| == |s.threads|
    ensures forall u: nat :: u < |s.threads| && u != t ==> s'.threads[u] == s.threads[u]
  {
    hide Home;
  }

  lemma StepThreadOk(s: State, t: nat, s': State)
    requires Inv(s) && t < |s.threads| && InTable(s, t) && ThreadStep(s, t, s')
    ensures |s'.threads| == |s.threads| && ThreadOk(s', s'.threads[t])
    ensures forall r :: r in s'.log ==> r in s.log || (r.hash != 0 && r.pos < |s'.ht| && s'.ht[r.pos] == r.hash)
    ensures Shape(s') && AllReachable(s'.ht)
  {
    hide Home, AllReachable, Passed;
    assert ThreadOk(s, s.threads[t]);
    match s.threads[t]
    case Idle =>
      var hash: nat :| hash != 0 && s' == Goto(s, t, LoadSlot(NewCall(hash, hash, false, |s.ht|)));
      NewCallOk(s, hash, hash, false);
    case LoadSlot(c) =>
      if s.ht[c.pos] != 0 && s.ht[c.pos] != c.hash { AdvanceOk(s, c); }
    case TestSize(c) => NewCallOk(s, c.asked, s.unknown, true);
    case TestForced(c) =>
    case Cas(c) =>
      if s.ht[c.pos] == 0 { InsertReachable(s.ht, c); }
    case Count(c) =>
    case Aborted =>
  }

  lemma StepInv(s: State, s': State)
    requires Inv(s) && Next(s, s')
    ensures Inv(s') && Grows(s.ht, s'.ht) && s.log <= s'.log
    ensures |s'.threads| == |s.threads| && s'.unknown == s.unknown
  {
    hide Home, ThreadOk, AllReachable;
    var t: nat :| InTable(s, t) && ThreadStep(s, t, s');
    StepFrame(s, t, s');
    StepThreadOk(s, t, s');
    forall u: nat | u < |s'.threads| ensures ThreadOk(s', s'.threads[u]) {
      if u != t { ThreadGrows(s, s', s.threads[u]); }
    }
  }

  lemma InitInv(s: State)
    requires Init(s)
    ensures Inv(s)
  {
  }

  lemma {:induction false} RunInv(run: seq<State>, k: nat)
    requires IsRun(run) && k < |run|
    ensures Inv(run[k]) && |run[k].ht| == |run[0].ht| && |run[k].threads| == |run[0].threads|
  {
    hide Inv, Next, Init;
    if k == 0 {
      InitInv(run[0]);
    } else {
      RunInv(run, k - 1);
      assert Next(run[k - 1], run[k - 1 + 1]);
      StepInv(run[k - 1], run[k]);
    }
  }

  /** At every point of every run the table holds each hash at most once. */
  lemma AlwaysUnique(run: seq<State>, k: nat, p: nat, p': nat)
    requires IsRun(run) && k < |run| && p < |run[k].ht| && p' < |run[k].ht| && run[k].ht[p] == run[k].ht[p'] != 0
    ensures p == p'
  {
    hide Inv;
    RunInv(run, k);
    NoDuplicates(run[k], p, p');
  }

  lemma {:induction false} ReturnsKept(run: seq<State>, k: nat, k': nat)
    requires IsRun(run) && k <= k' < |run|
    ensures run[k].log <= run[k'].log && Grows(run[k].ht, run[k'].ht)
    decreases k' - k
  {
    hide Inv, Next, Init;
    if k < k' {
      RunInv(run, k);
      assert Next(run[k], run[k + 1]);
      StepInv(run[k], run[k + 1]);
      ReturnsKept(run, k + 1, k');
    }
  }

  /** All calls that look for one hash return the same slot, at whatever times of the run they return. */
  lemma ReturnsAgree(run: seq<State>, k: nat, k': nat, r: Return, r': Return)
    requires IsRun(run) && k <= k' < |run| && r in run[k].log && r' in run[k'].log && r.hash == r'.hash
    ensures r.pos == r'.pos
  {
    ReturnsKept(run, k, k');
    RunInv(run, k');
    NoDuplicates(run[k'], r.pos, r'.pos);
  }

  // ----- few threads: no abort, and never more than one lap

  function Occupied(ht: seq<nat>): (n: nat)
    ensures n <= |ht|
  {
    if |ht| == 0 then 0 else Occupied(ht[..|ht| - 1]) + (if ht[|ht| - 1] != 0 then 1 else 0)
  }

  /** The call has found room and is about to insert, without being forced to. */
  predicate Entering(t: Thread) {
    t.Cas? && !t.call.force
  }

  predicate Counting(t: Thread) {
    t.Count?
  }

  function NumEntering(ts: seq<Thread>): nat {
    if |ts| == 0 then 0 else NumEntering(ts[..|ts| - 1]) + (if Entering(ts[|ts| - 1]) then 1 else 0)
  }

  function NumCounting(ts: seq<Thread>): nat {
    if |ts| == 0 then 0 else NumCounting(ts[..|ts| - 1]) + (if Counting(ts[|ts| - 1]) then 1 else 0)
  }

  lemma {:induction false} OccupiedUpdate(ht: seq<nat>, p: nat, x: nat)
    requires p < |ht| && ht[p] == 0 && x != 0
    ensures Occupied(ht[p := x]) == Occupied(ht) + 1
  {
    var n := |ht| - 1;
    if p < n {
      OccupiedUpdate(ht[..n], p, x);
      assert ht[p := x][..n] == ht[..n][p := x];
    } else {
      assert ht[p := x][..n] == ht[..n];
    }
  }

  lemma {:induction false} FullIfAllTaken(ht: seq<nat>)
    requires forall p :: 0 <= p < |ht| ==> ht[p] != 0
    ensures Occupied(ht) == |ht|
  {
    if |ht| > 0 { FullIfAllTaken(ht[..|ht| - 1]); }
  }

  lemma {:induction false} EmptyIfAllFree(ht: seq<nat>)
    requires forall p :: 0 <= p < |ht| ==> ht[p] == 0
    ensures Occupied(ht) == 0
  {
    if |ht| > 0 { EmptyIfAllFree(ht[..|ht| - 1]); }
  }

  lemma {:induction false} ThreadCountsUpdate(ts: seq<Thread>, t: nat, next: Thread)
    requires t < |ts|
    ensures NumEntering(ts[t := next])
         == NumEntering(ts) - (if Entering(ts[t]) then 1 else 0) + (if Entering(next) then 1 else 0)
    ensures NumCounting(ts[t := next])
         == NumCounting(ts) - (if Counting(ts[t]) then 1 else 0) + (if Counting(next) then 1 else 0)
  {
    hide Entering, Counting;
    var n := |ts| - 1;
    if t < n {
      ThreadCountsUpdate(ts[..n], t, next);
      assert ts[t := next][..n] == ts[..n][t := next];
    } else {
      assert ts[t := next][..n] == ts[..n];
    }
  }

  /** Threads that are neither entering nor counting leave room in the total. */
  lemma {:induction false} ThreadCountsBound(ts: seq<Thread>)
    ensures NumEntering(ts) + NumCounting(ts) <= |ts|
  {
    if |ts| > 0 { ThreadCountsBound(ts[..|ts| - 1]); }
  }

  lemma OthersBound(ts: seq<Thread>, t: nat)
    requires t < |ts| && !Entering(ts[t]) && !Counting(ts[t])
    ensures NumEntering(ts) + NumCounting(ts) < |ts|
  {
    ThreadCountsUpdate(ts, t, Count(Call(1, 1, false, 0, false, 0)));
    ThreadCountsBound(ts[t := Count(Call(1, 1, false, 0, false, 0))]);
  }

  /** Inserted hashes beyond half the table come from calls that had found room, or are the unknown one. */
  ghost predicate RoomInv(s: State) {
    && Occupied(s.ht) == s.htSize + NumCounting(s.threads)
    && Occupied(s.ht) + NumEntering(s.threads) <= |s.ht| / 2 + |s.threads| + (if s.unknown in s.ht then 1 else 0)
  }

  /** The number of threads is small against the size of the table. */
  predicate FewThreads(s: State) {
    10 * (|s.ht| / 2 + |s.threads| + 1) < 7 * |s.ht|
  }

  lemma StepRoom(s: State, s': State)
    requires Inv(s) && RoomInv(s) && Next(s, s')
    ensures RoomInv(s')
  {
    hide Home, Passed, Entering, Counting, AllReachable, ThreadOk, CallOk;
    var t: nat :| InTable(s, t) && ThreadStep(s, t, s');
    StepFrame(s, t, s');
    var next := s'.threads[t];
    ThreadKinds(s.threads[t]);
    ThreadKinds(next);
    assert s'.threads == s.threads[t := next];
    ThreadCountsUpdate(s.threads, t, next);
    match s.threads[t]
    case TestSize(c) => OthersBound(s.threads, t);
    case Cas(c) =>
      if s.ht[c.pos] == 0 { InsertRoom(s, t, c, s'); }
    case TestForced(c) => assert ThreadOk(s, s.threads[t]) && c.force by { StaysForced(s, t); }
    case _ =>
  }

  lemma StaysForced(s: State, t: nat)
    requires Inv(s) && t < |s.threads| && s.threads[t].TestForced?
    ensures ThreadOk(s, s.threads[t]) && s.threads[t].call.force
  {
    assert ThreadOk(s, s.threads[t]);
  }

  lemma InsertRoom(s: State, t: nat, c: Call, s': State)
    requires Inv(s) && Next(s, s') && t < |s.threads| && s.threads[t] == Cas(c) && c.pos < |s.ht| && s.ht[c.pos] == 0
    requires s' == Goto(s, t, Count(c)).(ht := s.ht[c.pos := c.hash])
    ensures Occupied(s'.ht) == Occupied(s.ht) + 1
    ensures s.unknown in s.ht ==> s'.unknown in s'.ht
    ensures c.force ==> s.unknown !in s.ht && s'.unknown in s'.ht
  {
    hide Home, Passed, AllReachable;
    assert ThreadOk(s, s.threads[t]);
    OccupiedUpdate(s.ht, c.pos, c.hash);
    assert s'.ht[c.pos] == c.hash;
    if s.unknown in s.ht {
      var p: nat :| p < |s.ht| && s.ht[p] == s.unknown;
      assert s'.ht[p] == s.unknown;
      if c.force {
        StepInv(s, s');
        NoDuplicates(s', p, c.pos);
        assert false;
      }
    }
  }

  lemma ThreadKinds(t: Thread)
    ensures Entering(t) <==> t.Cas? && !t.call.force
    ensures Counting(t) <==> t.Count?
  {
  }

  /** While slots are free, no probe has come back to its home. */
  lemma OneLap(s: State, c: Call)
    requires Shape(s) && CallOk(s.ht, c) && Occupied(s.ht) < |s.ht|
    ensures c.steps < |s.ht|
  {
    hide Home;
    var m := |s.ht|;
    if c.steps >= m {
      forall p | 0 <= p < m ensures s.ht[p] != 0 {
        var home := Home(c.hash, m);
        AtDistance(home, p, m);
        PassedAt(s.ht, c.hash, c.steps, Distance(home, p, m));
      }
      FullIfAllTaken(s.ht);
      assert false;
    }
  }

  ghost predicate NoneAborted(s: State) {
    forall t :: 0 <= t < |s.threads| ==> s.threads[t] != Aborted
  }

  lemma StepNoAbort(s: State, s': State)
    requires Inv(s) && RoomInv(s) && FewThreads(s) && NoneAborted(s) && Next(s, s')
    ensures NoneAborted(s')
  {
    hide Home, AllReachable, Passed, Entering, Counting;
    var t: nat :| InTable(s, t) && ThreadStep(s, t, s');
    StepFrame(s, t, s');
    assert ThreadOk(s, s.threads[t]);
    if s'.threads[t] == Aborted {
      match s.threads[t]
      case LoadSlot(c) =>
        AdvanceOk(s, c);
        AbortedAfterLaps(s, c);
        assert false;
      case TestForced(c) => assert false;
      case _ => assert false;
    }
  }

  lemma AbortedAfterLaps(s: State, c: Call)
    requires Shape(s) && CallOk(s.ht, c) && (c.force ==> c.hash == s.unknown)
    requires s.ht[c.pos] != 0 && s.ht[c.pos] != c.hash && Occupied(s.ht) < |s.ht|
    ensures Advance(c, |s.ht|) != Aborted
  {
    hide Home, Passed;
    OneLap(s, c);
  }

  lemma {:induction false} RunRoom(run: seq<State>, k: nat)
    requires IsRun(run) && k < |run| && FewThreads(run[0])
    ensures Inv(run[k]) && RoomInv(run[k]) && NoneAborted(run[k]) && FewThreads(run[k])
  {
    hide Inv, Next, RoomInv, NoneAborted;
    RunInv(run, k);
    if k == 0 {
      InitRoom(run[0]);
    } else {
      RunRoom(run, k - 1);
      assert Next(run[k - 1], run[k - 1 + 1]);
      StepRoom(run[k - 1], run[k]);
      StepNoAbort(run[k - 1], run[k]);
    }
  }

  lemma InitRoom(s: State)
    requires Init(s)
    ensures RoomInv(s) && NoneAborted(s)
  {
    EmptyIfAllFree(s.ht);
    NoThreadCounts(s.threads);
  }

  lemma {:induction false} NoThreadCounts(ts: seq<Thread>)
    requires forall t :: 0 <= t < |ts| ==> ts[t] == Idle
    ensures NumEntering(ts) == 0 && NumCounting(ts) == 0
  {
    if |ts| > 0 { NoThreadCounts(ts[..|ts| - 1]); }
  }

  /** With few threads no call ever aborts, a slot is always free, and no probe goes beyond one lap. */
  lemma NeverAborts(run: seq<State>, k: nat)
    requires IsRun(run) && k < |run| && FewThreads(run[0])
    ensures NoneAborted(run[k]) && Occupied(run[k].ht) < |run[k].ht|
    ensures forall t :: 0 <= t < |run[k].threads| && run[k].threads[t].LoadSlot? ==>
              run[k].threads[t].call.steps < |run[k].ht|
  {
    hide Passed, AllReachable;
    RunRoom(run, k);
    var s := run[k];
    forall t | 0 <= t < |s.threads| && s.threads[t].LoadSlot? ensures s.threads[t].call.steps < |s.ht| {
      assert ThreadOk(s, s.threads[t]);
      OneLap(s, s.threads[t].call);
    }
  }
}
