/** Where memprof's probes start, and when its hash table stops taking new hashes. */
module ProbeLimits {
  import opened ProbeTable
  import opened ProbeProgress

  // ----- no call is kept from starting or from going on

  lemma CallsCanStart(s: State, t: nat, hash: nat)
    requires Shape(s) && t < |s.threads| && s.threads[t] == Idle && hash != 0
    ensures StepBy(s, t, Goto(s, t, LoadSlot(Call(hash, hash, false, hash % |s.ht|, false, 0))))
  {
    assert Call(hash, hash, false, hash % |s.ht|, false, 0) == NewCall(hash, hash, false, |s.ht|);
  }

  /** At any point of a run every thread that has not aborted can move. */
  lemma NeverStuck(run: seq<State>, k: nat, t: nat) returns (s': State)
    requires IsRun(run) && k < |run| && t < |run[k].threads| && run[k].threads[t] != Aborted
    ensures StepBy(run[k], t, s')
  {
    RunInv(run, k);
    var (s, m) := (run[k], |run[k].ht|);
    assert ThreadOk(s, s.threads[t]);
    s' := match s.threads[t]
      case Idle => Goto(s, t, LoadSlot(NewCall(1, 1, false, m)))
      case LoadSlot(c) =>
        if s.ht[c.pos] == 0 then Goto(s, t, TestSize(c)) else if s.ht[c.pos] == c.hash then Finish(s, t, c)
        else Goto(s, t, Advance(c, m))
      case TestSize(c) =>
        Goto(s, t, if s.htSize <= m / 2 then Cas(c) else if c.force then TestForced(c)
                   else LoadSlot(NewCall(c.asked, s.unknown, true, m)))
      case TestForced(c) => Goto(s, t, if s.htSize * 10 < m * 7 then Cas(c) else Aborted)
      case Cas(c) =>
        if s.ht[c.pos] == 0 then Goto(s, t, Count(c)).(ht := s.ht[c.pos := c.hash]) else Goto(s, t, LoadSlot(c))
      case Count(c) => Finish(s, t, c).(htSize := s.htSize + 1)
      case Aborted => s;
  }

  // ----- where a hash can be

  lemma AtIsModulo(home: nat, k: nat, m: nat)
    requires home < m && k < m
    ensures At(home, k, m) == (home + k) % m
  {
    if home + k < m {
      ModuloOnce(home + k, m, 0);
    } else {
      ModuloOnce(home + k - m, m, 1);
    }
  }

  lemma ModuloOnce(r: nat, m: nat, q: nat)
    requires r < m && q <= 1
    ensures (q * m + r) % m == r
  {
  }

  /** All slots from the one numbered by the hash modulo the table's size, up to where the hash is, are taken. */
  lemma TakenUpTo(run: seq<State>, k: nat, p: nat, d: nat, i: nat)
    requires IsRun(run) && k < |run| && p < |run[k].ht| && run[k].ht[p] != 0
    requires i < d < |run[k].ht| && (run[k].ht[p] % |run[k].ht| + d) % |run[k].ht| == p
    ensures var (ht, m) := (run[k].ht, |run[k].ht|);
      ht[(ht[p] % m + i) % m] != 0
  {
    RunInv(run, k);
    var (ht, m) := (run[k].ht, |run[k].ht|);
    var home := ht[p] % m;
    assert Home(ht[p], m) == home;
    hide Home, Passed;
    AtIsModulo(home, d, m);
    AtIsModulo(home, i, m);
    assert Reachable(ht, p);
    assert Distance(home, p, m) == d;
    PassedAt(ht, ht[p], d, i);
  }

  /** A call looks at the slots that follow the hash modulo the table's size, in turn. */
  lemma LooksInTurn(run: seq<State>, k: nat, t: nat)
    requires IsRun(run) && k < |run| && FewThreads(run[0]) && t < |run[k].threads|
    requires InCall(run[k].threads[t]) && !run[k].threads[t].Count?
    ensures var (c, m) := (run[k].threads[t].call, |run[k].ht|);
      m > 0 && c.pos == (c.hash % m + c.steps) % m
  {
    RunInv(run, k);
    RunRoom(run, k);
    var s := run[k];
    MovesLeft(s, t);
    assert ThreadOk(s, s.threads[t]);
    var c := s.threads[t].call;
    AtIsModulo(c.hash % |s.ht|, c.steps, |s.ht|);
  }

  // ----- the unknown hash stands in only when the table is more than half full

  predicate HalfFull(s: State) {
    s.htSize > |s.ht| / 2
  }

  ghost predicate OwnHash(s: State, t: nat)
    requires t < |s.threads|
  {
    InCall(s.threads[t]) ==>
      var c := s.threads[t].call;
      if c.force then HalfFull(s) else c.hash == c.asked
  }

  ghost predicate OwnHashes(s: State) {
    && (forall t: nat :: t < |s.threads| ==> OwnHash(s, t))
    && forall r :: r in s.log && r.hash != r.asked ==> HalfFull(s)
  }

  lemma StepOwnHashes(s: State, s': State)
    requires Inv(s) && OwnHashes(s) && Next(s, s')
    ensures OwnHashes(s') && s'.htSize >= s.htSize && |s'.ht| == |s.ht|
  {
    hide Inv, Home;
    var t: nat :| InTable(s, t) && ThreadStep(s, t, s');
    StepFrame(s, t, s');
    assert OwnHash(s, t);
    forall u: nat | u < |s'.threads| ensures OwnHash(s', u) {
      assert OwnHash(s, u);
    }
  }

  lemma {:induction false} RunOwnHashes(run: seq<State>, k: nat)
    requires IsRun(run) && k < |run|
    ensures OwnHashes(run[k])
  {
    hide Inv, Next;
    if k > 0 {
      RunOwnHashes(run, k - 1);
      RunInv(run, k - 1);
      assert Next(run[k - 1], run[k - 1 + 1]);
      hide OwnHashes, Init;
      StepOwnHashes(run[k - 1], run[k]);
    }
  }

  /** As long as at most half of the slots are counted, every call that returned got the slot of its own hash. */
  lemma OwnSlotUntilHalfFull(run: seq<State>, k: nat, r: Return)
    requires IsRun(run) && k < |run| && r in run[k].log && run[k].htSize <= |run[k].ht| / 2
    ensures r.hash == r.asked && r.pos < |run[k].ht| && run[k].ht[r.pos] == r.asked
  {
    RunOwnHashes(run, k);
    RunInv(run, k);
  }

  /** A call that returns another slot than that of its own hash does so when more than half of the slots are
    counted. */
  lemma ForeignSlotOnlyWhenHalfFull(run: seq<State>, who: seq<nat>, t: nat, asked: nat, k: nat, r: Return)
    requires IsSchedule(run, who) && k < |run| && ReturnsAt(run, who, t, asked, k) && IsReturn(r, run[k - 1], t, run[k])
    requires r.hash != asked
    ensures r.hash == run[k].unknown && HalfFull(run[k])
  {
    hide Inv, Next, Init, StepBy, HalfFull;
    ScheduleIsRun(run, who);
    RunOwnHashes(run, k);
    assert StepBy(run[k - 1], who[k - 1], run[k - 1 + 1]);
    StepIsNext(run[k - 1], who[k - 1], run[k]);
    RunInv(run, k - 1);
    StepInv(run[k - 1], run[k]);
    assert r in run[k].log && r.hash != r.asked;
  }

  // ----- every insertion follows a test that found room

  /** The test that the call's insertion rests on. */
  ghost predicate FoundRoom(s: State, t: nat, c: Call) {
    && t < |s.threads|
    && if c.force then s.threads[t] == TestForced(c) && 10 * s.htSize < 7 * |s.ht|
       else s.threads[t] == TestSize(c) && s.htSize <= |s.ht| / 2
  }

  lemma StepToInsert(s: State, t: nat, s': State)
    requires Inv(s) && StepBy(s, t, s') && OwnHash(s, t) && t < |s'.threads| && s'.threads[t].Cas?
    ensures FoundRoom(s, t, s'.threads[t].call)
  {
    hide Home, CallOk, AllReachable;
    assert ThreadOk(s, s.threads[t]);
  }

  /** A call about to insert has, by its own last access, found at most half of the slots counted; or, if it looks for
    the unknown hash, fewer than seven tenths. */
  lemma {:induction false} InsertsAfterRoom(run: seq<State>, who: seq<nat>, t: nat, k: nat) returns (j: nat)
    requires IsSchedule(run, who) && k < |run| && t < |run[k].threads| && run[k].threads[t].Cas?
    ensures j < k && who[j] == t && FoundRoom(run[j], t, run[k].threads[t].call)
    ensures forall i :: j < i < k ==> who[i] != t
  {
    assert k > 0;
    ScheduleIsRun(run, who);
    RunInv(run, k - 1);
    RunOwnHashes(run, k - 1);
    hide Inv, Init, ThreadStep, FoundRoom, OwnHash;
    assert StepBy(run[k - 1], who[k - 1], run[k - 1 + 1]);
    StepFrame(run[k - 1], who[k - 1], run[k]);
    if who[k - 1] == t {
      StepToInsert(run[k - 1], t, run[k]);
      j := k - 1;
    } else {
      j := InsertsAfterRoom(run, who, t, k - 1);
    }
  }

  /** For any number of threads: the size is the number of taken slots, but for those whose calls have yet to count
    them. */
  lemma {:induction false} SizeCountsSlots(run: seq<State>, k: nat)
    requires IsRun(run) && k < |run|
    ensures RoomInv(run[k]) && run[k].htSize + NumCounting(run[k].threads) == Occupied(run[k].ht)
    ensures (forall t :: 0 <= t < |run[k].threads| ==> !run[k].threads[t].Count?) ==>
      run[k].htSize == Occupied(run[k].ht)
  {
    hide Inv, Next, RoomInv;
    if k == 0 {
      InitRoom(run[0]);
    } else {
      SizeCountsSlots(run, k - 1);
      RunInv(run, k - 1);
      assert Next(run[k - 1], run[k - 1 + 1]);
      StepRoom(run[k - 1], run[k]);
    }
    SizeFromRoom(run[k]);
  }

  lemma SizeFromRoom(s: State)
    requires RoomInv(s)
    ensures s.htSize + NumCounting(s.threads) == Occupied(s.ht)
    ensures (forall t :: 0 <= t < |s.threads| ==> !s.threads[t].Count?) ==> s.htSize == Occupied(s.ht)
  {
    if forall t :: 0 <= t < |s.threads| ==> !s.threads[t].Count? { NoneCounting(s.threads); }
  }

  lemma {:induction false} NoneCounting(ts: seq<Thread>)
    requires forall t :: 0 <= t < |ts| ==> !ts[t].Count?
    ensures NumCounting(ts) == 0
  {
    if |ts| > 0 { NoneCounting(ts[..|ts| - 1]); }
  }

  // ----- when a call aborts

  ghost predicate AbortIsDue(s: State) {
    10 * s.htSize >= 7 * |s.ht| || Occupied(s.ht) == |s.ht|
  }

  lemma AbortedByWrap(s: State, c: Call)
    requires Shape(s) && CallOk(s.ht, c) && (c.force ==> c.hash == s.unknown)
    requires s.ht[c.pos] != 0 && s.ht[c.pos] != c.hash && Advance(c, |s.ht|) == Aborted
    ensures Occupied(s.ht) == |s.ht|
  {
    if Occupied(s.ht) < |s.ht| {
      AbortedAfterLaps(s, c);
    }
  }

  lemma {:induction false} FullStaysFull(ht: seq<nat>, ht': seq<nat>)
    requires Grows(ht, ht')
    ensures Occupied(ht) <= Occupied(ht')
  {
    if |ht| > 0 {
      var n := |ht| - 1;
      assert Grows(ht[..n], ht'[..n]);
      FullStaysFull(ht[..n], ht'[..n]);
      if ht[n] != 0 { assert ht'[n] == ht[n]; }
    }
  }

  ghost predicate AbortsAreDue(s: State) {
    forall t: nat :: t < |s.threads| && s.threads[t] == Aborted ==> AbortIsDue(s)
  }

  lemma StepAbortsDue(s: State, s': State)
    requires Inv(s) && AbortsAreDue(s) && Next(s, s')
    ensures AbortsAreDue(s')
  {
    hide Home, AllReachable, Passed, Occupied;
    var t: nat :| InTable(s, t) && ThreadStep(s, t, s');
    StepFrame(s, t, s');
    FullStaysFull(s.ht, s'.ht);
    OccupiedBound(s'.ht);
    assert ThreadOk(s, s.threads[t]);
    if s'.threads[t] == Aborted {
      match s.threads[t]
      case LoadSlot(c) => AbortedByWrap(s, c);
      case _ =>
    }
  }

  lemma OccupiedBound(ht: seq<nat>)
    ensures Occupied(ht) <= |ht|
  {
  }

  /** For any number of threads: a call aborts only if seven tenths of the slots are counted, or all are taken. */
  lemma {:induction false} AbortsOnlyWhenDue(run: seq<State>, k: nat)
    requires IsRun(run) && k < |run|
    ensures AbortsAreDue(run[k])
  {
    hide Inv, Next, AbortIsDue;
    if k > 0 {
      AbortsOnlyWhenDue(run, k - 1);
      RunInv(run, k - 1);
      assert Next(run[k - 1], run[k - 1 + 1]);
      StepAbortsDue(run[k - 1], run[k]);
    }
  }
}
