/** The queue through which the network thread sends events to the interface, one pending event per type. */
module EventQueues {
  import opened Outcomes

  datatype Event = Event(kind: int, detail: int)

  // ----- what the two threads did, and what it means

  /** One call, made under the mutex, with what it was given or gave back. */
  datatype Call = Pushed(e: Event) | Popped(res: Option<Event>)

  predicate Pushes(c: Call, kind: int) {
    c.Pushed? && c.e.kind == kind
  }

  predicate Pops(c: Call, kind: int) {
    c.Popped? && c.res.Some? && c.res.value.kind == kind
  }

  /** Call i pushed an event of this type, and none has been popped since. */
  predicate Pending(h: seq<Call>, kind: int, i: nat) {
    i < |h| && Pushes(h[i], kind) && forall j :: i < j < |h| ==> !Pops(h[j], kind)
  }

  /** Call i pushed the last event of this type, and none has been popped since. */
  predicate Latest(h: seq<Call>, kind: int, i: nat) {
    Pending(h, kind, i) && forall j :: i < j < |h| ==> !Pushes(h[j], kind)
  }

  /** Call i is the oldest pending push of its type. */
  ghost predicate First(h: seq<Call>, kind: int, i: nat) {
    Pending(h, kind, i) && forall j: nat :: Pending(h, kind, j) ==> i <= j
  }

  /** Of all pending pushes, call f is the oldest. */
  ghost predicate Oldest(h: seq<Call>, kind: int, f: nat) {
    Pending(h, kind, f) && forall k, i: nat :: Pending(h, k, i) ==> f <= i
  }

  ghost predicate LatestEvent(h: seq<Call>, e: Event) {
    exists i: nat :: Latest(h, e.kind, i) && h[i] == Pushed(e)
  }

  ghost predicate OldestKind(h: seq<Call>, kind: int) {
    exists f: nat :: Oldest(h, kind, f)
  }

  /** A pop must give the last event of the type that has waited longest, or nothing when nothing is pending. */
  ghost predicate RightAnswer(h: seq<Call>, res: Option<Event>) {
    match res
    case None => forall k, i: nat :: !Pending(h, k, i)
    case Some(e) => LatestEvent(h, e) && OldestKind(h, e.kind)
  }

  /** What was called leaves a pop no choice. */
  lemma AnswerUnique(h: seq<Call>, r: Option<Event>, r': Option<Event>)
    requires RightAnswer(h, r) && RightAnswer(h, r')
    ensures r == r'
  {
    SomeIfPending(h, r);
    SomeIfPending(h, r');
    if r.Some? && r'.Some? {
      var f: nat :| Oldest(h, r.value.kind, f);
      var f': nat :| Oldest(h, r'.value.kind, f');
      assert f == f';
      var i: nat :| Latest(h, r.value.kind, i) && h[i] == Pushed(r.value);
      var i': nat :| Latest(h, r'.value.kind, i') && h[i'] == Pushed(r'.value);
      assert i == i';
    }
  }

  lemma SomeIfPending(h: seq<Call>, r: Option<Event>)
    requires RightAnswer(h, r)
    ensures r.Some? <==> exists k, i: nat :: Pending(h, k, i)
  {
    if r.Some? {
      var f: nat :| Oldest(h, r.value.kind, f);
      assert Pending(h, r.value.kind, f);
    }
  }

  // ----- the queue and the map

  ghost predicate Distinct(queue: seq<int>) {
    forall i, j :: 0 <= i < j < |queue| ==> queue[i] != queue[j]
  }

  /** The map holds exactly the queued types. */
  ghost predicate SameKinds(queue: seq<int>, eventMap: map<int, Event>) {
    && Distinct(queue)
    && (forall j :: 0 <= j < |queue| ==> queue[j] in eventMap)
    && (forall k :: k in eventMap ==> k in queue && eventMap[k].kind == k)
  }

  /** first[j] is the oldest pending push of the j-th queued type; the queue is in the order of these. */
  ghost predicate Ordered(queue: seq<int>, first: seq<nat>, h: seq<Call>) {
    && |first| == |queue|
    && (forall j :: 0 <= j < |queue| ==> First(h, queue[j], first[j]))
    && forall i, j :: 0 <= i < j < |queue| ==> first[i] < first[j]
  }

  /** The queue holds the pending types, each once, and the map their last events. */
  ghost predicate Agrees(queue: seq<int>, eventMap: map<int, Event>, first: seq<nat>, h: seq<Call>) {
    && SameKinds(queue, eventMap)
    && (forall k, i: nat :: Pending(h, k, i) ==> k in eventMap)
    && (forall k :: k in eventMap ==> LatestEvent(h, eventMap[k]))
    && Ordered(queue, first, h)
  }

  class EventQueue {
    var queue: seq<int>
    var eventMap: map<int, Event>
    ghost var first: seq<nat>
    ghost var history: seq<Call>

    ghost predicate Valid()
      reads this
    {
      Agrees(queue, eventMap, first, history)
    }

    constructor ()
      ensures Valid() && queue == [] && eventMap == map[] && history == []
    {
      queue, eventMap, first, history := [], map[], [], [];
    }

    method Push(e: Event)
      requires Valid()
      modifies this
      ensures Valid() && history == old(history) + [Pushed(e)]
      ensures queue == AfterPush(old(queue), old(eventMap), e) && eventMap == old(eventMap)[e.kind := e]
      ensures (State(queue, eventMap), Pushed(e)) == Next(old(State(queue, eventMap)), Op.Push(e))
    {
      PushAgrees(queue, eventMap, first, history, e);
      if e.kind !in eventMap {
        queue := queue + [e.kind];
        first := first + [|history|];
      }
      eventMap := eventMap[e.kind := e];
      history := history + [Pushed(e)];
    }

    method PopAndGet() returns (res: Option<Event>)
      requires Valid()
      modifies this
      ensures Valid() && history == old(history) + [Popped(res)]
      ensures RightAnswer(old(history), res)
      ensures old(queue) == [] ==> res == None && queue == [] && eventMap == old(eventMap)
      ensures old(queue) != [] ==>
        && res.Some? && res.value.kind == old(queue)[0]
        && queue == old(queue)[1..] && eventMap == old(eventMap) - {old(queue)[0]}
      ensures (State(queue, eventMap), Popped(res)) == Next(old(State(queue, eventMap)), Op.Pop)
    {
      PopIsRight(queue, eventMap, first, history);
      PopAgrees(queue, eventMap, first, history);
      res := None;
      if |queue| > 0 {
        var front := queue[0];
        res := Some(eventMap[front]);
        eventMap := eventMap - {front};
        queue := queue[1..];
        first := first[1..];
      }
      history := history + [Popped(res)];
    }
  }

  function AfterPush(queue: seq<int>, eventMap: map<int, Event>, e: Event): seq<int> {
    if e.kind in eventMap then queue else queue + [e.kind]
  }

  // ----- one call

  lemma PushPending(h: seq<Call>, e: Event, k: int, i: nat)
    ensures Pending(h + [Pushed(e)], k, i) <==> Pending(h, k, i) || (i == |h| && k == e.kind)
  {
    var h' := h + [Pushed(e)];
    if i < |h| {
      if Pending(h', k, i) {
        forall j | i < j < |h| ensures !Pops(h[j], k) { assert !Pops(h'[j], k); }
      }
    }
  }

  lemma PopPending(h: seq<Call>, res: Option<Event>, k: int, i: nat)
    ensures Pending(h + [Popped(res)], k, i) <==> Pending(h, k, i) && !(res.Some? && res.value.kind == k)
  {
    var h' := h + [Popped(res)];
    if Pending(h', k, i) {
      forall j | i < j < |h| ensures !Pops(h[j], k) { assert !Pops(h'[j], k); }
      assert !Pops(h'[|h|], k);
    }
  }

  lemma PushAgrees(queue: seq<int>, eventMap: map<int, Event>, first: seq<nat>, h: seq<Call>, e: Event)
    requires Agrees(queue, eventMap, first, h)
    ensures Agrees(AfterPush(queue, eventMap, e), eventMap[e.kind := e],
                   if e.kind in eventMap then first else first + [|h|], h + [Pushed(e)])
  {
    hide Pending, Ordered, LatestEvent, AfterPush;
    PushOrdered(queue, eventMap, first, h, e);
    AddKind(queue, eventMap, e);
    PushLatestAll(eventMap, h, e);
    PushCovers(eventMap, h, e);
  }

  lemma PushLatestAll(eventMap: map<int, Event>, h: seq<Call>, e: Event)
    requires forall k :: k in eventMap ==> eventMap[k].kind == k && LatestEvent(h, eventMap[k])
    ensures var map' := eventMap[e.kind := e];
      forall k :: k in map' ==> LatestEvent(h + [Pushed(e)], map'[k])
  {
    hide LatestEvent;
    var map' := eventMap[e.kind := e];
    forall k | k in map' ensures LatestEvent(h + [Pushed(e)], map'[k]) {
      PushLatest(h, e, map'[k]);
    }
  }

  lemma PushCovers(eventMap: map<int, Event>, h: seq<Call>, e: Event)
    requires forall k, i: nat :: Pending(h, k, i) ==> k in eventMap
    ensures forall k, i: nat :: Pending(h + [Pushed(e)], k, i) ==> k in eventMap[e.kind := e]
  {
    hide Pending;
    forall k, i: nat | Pending(h + [Pushed(e)], k, i) ensures k in eventMap[e.kind := e] {
      PushPending(h, e, k, i);
    }
  }

  lemma AddKind(queue: seq<int>, eventMap: map<int, Event>, e: Event)
    requires SameKinds(queue, eventMap)
    ensures SameKinds(AfterPush(queue, eventMap, e), eventMap[e.kind := e])
  {
  }

  lemma PushOrdered(queue: seq<int>, eventMap: map<int, Event>, first: seq<nat>, h: seq<Call>, e: Event)
    requires SameKinds(queue, eventMap) && Ordered(queue, first, h)
    requires forall k, i: nat :: Pending(h, k, i) ==> k in eventMap
    ensures Ordered(AfterPush(queue, eventMap, e), if e.kind in eventMap then first else first + [|h|], h + [Pushed(e)])
  {
    var queue' := AfterPush(queue, eventMap, e);
    var first' := if e.kind in eventMap then first else first + [|h|];
    forall k, i: nat ensures Pending(h + [Pushed(e)], k, i) <==> Pending(h, k, i) || (i == |h| && k == e.kind) {
      PushPending(h, e, k, i);
    }
    hide Pending;
    forall j | 0 <= j < |queue'| ensures First(h + [Pushed(e)], queue'[j], first'[j]) {
      if j < |queue| {
        assert First(h, queue[j], first[j]);
        PendingInRange(h, queue[j], first[j]);
      }
    }
    forall j | 0 <= j < |queue| ensures first[j] < |h| {
      assert First(h, queue[j], first[j]);
      PendingInRange(h, queue[j], first[j]);
    }
  }

  lemma PendingInRange(h: seq<Call>, k: int, i: nat)
    requires Pending(h, k, i)
    ensures i < |h| && Pushes(h[i], k)
  {
  }

  lemma PushLatest(h: seq<Call>, e: Event, d: Event)
    requires d == e || (d.kind != e.kind && LatestEvent(h, d))
    ensures LatestEvent(h + [Pushed(e)], d)
  {
    var h' := h + [Pushed(e)];
    if d == e {
      assert Latest(h', e.kind, |h|);
    } else {
      var i: nat :| Latest(h, d.kind, i) && h[i] == Pushed(d);
      assert Latest(h', d.kind, i);
    }
  }

  lemma PopLatest(h: seq<Call>, res: Option<Event>, d: Event)
    requires LatestEvent(h, d) && !(res.Some? && res.value.kind == d.kind)
    ensures LatestEvent(h + [Popped(res)], d)
  {
    var i: nat :| Latest(h, d.kind, i) && h[i] == Pushed(d);
    assert Latest(h + [Popped(res)], d.kind, i);
  }

  lemma PopIsRight(queue: seq<int>, eventMap: map<int, Event>, first: seq<nat>, h: seq<Call>)
    requires Agrees(queue, eventMap, first, h)
    ensures RightAnswer(h, if queue == [] then None else Some(eventMap[queue[0]]))
  {
    hide Pending;
    if queue != [] {
      forall k, i: nat | Pending(h, k, i) ensures first[0] <= i {
        assert k in queue;
        var j :| 0 <= j < |queue| && queue[j] == k;
        assert First(h, queue[j], first[j]);
      }
      assert First(h, queue[0], first[0]);
      assert Oldest(h, queue[0], first[0]);
    }
  }

  lemma PopAgrees(queue: seq<int>, eventMap: map<int, Event>, first: seq<nat>, h: seq<Call>)
    requires Agrees(queue, eventMap, first, h)
    ensures queue == [] ==> Agrees(queue, eventMap, first, h + [Popped(None)])
    ensures queue != [] ==>
      Agrees(queue[1..], eventMap - {queue[0]}, first[1..], h + [Popped(Some(eventMap[queue[0]]))])
  {
    var res := if queue == [] then None else Some(eventMap[queue[0]]);
    var h' := h + [Popped(res)];
    var drop := if queue == [] then 0 else 1;
    var map' := if queue == [] then eventMap else eventMap - {queue[0]};
    PopOrdered(queue, first, h, res, drop);
    if queue != [] { DropKind(queue, eventMap); }
    forall k, i: nat | Pending(h', k, i) ensures k in map' {
      PopPending(h, res, k, i);
    }
    assert forall k :: k in eventMap ==> eventMap[k].kind == k;
    hide Pending, Ordered, SameKinds;
    forall k | k in map' ensures LatestEvent(h', eventMap[k]) {
      PopLatest(h, res, eventMap[k]);
    }
    assert first[0..] == first && queue[0..] == queue;
  }

  lemma DropKind(queue: seq<int>, eventMap: map<int, Event>)
    requires SameKinds(queue, eventMap) && queue != []
    ensures SameKinds(queue[1..], eventMap - {queue[0]})
  {
    forall k | k in eventMap && k != queue[0] ensures k in queue[1..] {
      var j :| 0 <= j < |queue| && queue[j] == k;
      assert queue[1..][j - 1] == k;
    }
  }

  lemma PopOrdered(queue: seq<int>, first: seq<nat>, h: seq<Call>, res: Option<Event>, drop: nat)
    requires Ordered(queue, first, h) && Distinct(queue) && drop == (if queue == [] then 0 else 1)
    requires queue == [] <==> res == None
    requires queue != [] ==> res.value.kind == queue[0]
    ensures Ordered(queue[drop..], first[drop..], h + [Popped(res)])
  {
    forall k, i: nat
      ensures Pending(h + [Popped(res)], k, i) <==> Pending(h, k, i) && !(res.Some? && res.value.kind == k)
    {
      PopPending(h, res, k, i);
    }
    hide Pending;
    forall j | drop <= j < |queue| ensures First(h + [Popped(res)], queue[j], first[j]) {
      assert First(h, queue[j], first[j]);
    }
  }

  // ----- whole runs

  datatype Op = Push(e: Event) | Pop

  datatype State = State(queue: seq<int>, eventMap: map<int, Event>)

  /** One call on the fields, as the methods of EventQueue change them. */
  function Next(s: State, op: Op): (State, Call)
    requires forall j :: 0 <= j < |s.queue| ==> s.queue[j] in s.eventMap
  {
    match op
    case Push(e) => (State(AfterPush(s.queue, s.eventMap, e), s.eventMap[e.kind := e]), Pushed(e))
    case Pop =>
      if s.queue == [] then (s, Popped(None))
      else (State(s.queue[1..], s.eventMap - {s.queue[0]}), Popped(Some(s.eventMap[s.queue[0]])))
  }

  /** The calls with their results, in the order in which the threads got the mutex. */
  ghost function Run(s: State, ops: seq<Op>): (r: (State, seq<Call>))
    requires SameKinds(s.queue, s.eventMap)
    ensures SameKinds(r.0.queue, r.0.eventMap) && |r.1| == |ops|
  {
    if ops == [] then (s, [])
    else
      var (t, h) := Run(s, ops[..|ops| - 1]);
      var (t', c) := Next(t, ops[|ops| - 1]);
      NextKeepsKinds(t, ops[|ops| - 1]);
      (t', h + [c])
  }

  lemma NextKeepsKinds(s: State, op: Op)
    requires SameKinds(s.queue, s.eventMap)
    ensures SameKinds(Next(s, op).0.queue, Next(s, op).0.eventMap)
  {
    var t := Next(s, op).0;
    if op.Pop? && s.queue != [] {
      forall k | k in t.eventMap ensures k in t.queue {
        var j :| 0 <= j < |s.queue| && s.queue[j] == k;
        assert t.queue[j - 1] == k;
      }
    }
  }

  ghost predicate Faithful(h: seq<Call>) {
    forall n :: 0 <= n < |h| && h[n].Popped? ==> RightAnswer(h[..n], h[n].res)
  }

  /** Whatever the two threads do, every pop gives the right answer. */
  lemma {:induction false} RunFaithful(ops: seq<Op>) returns (first: seq<nat>)
    ensures var (s, h) := Run(State([], map[]), ops);
      Faithful(h) && Agrees(s.queue, s.eventMap, first, h)
  {
    if ops == [] {
      first := [];
    } else {
      var (s, h) := Run(State([], map[]), ops[..|ops| - 1]);
      first := RunFaithful(ops[..|ops| - 1]);
      var (t, c) := Next(s, ops[|ops| - 1]);
      match ops[|ops| - 1] {
        case Push(e) =>
          PushAgrees(s.queue, s.eventMap, first, h, e);
          first := if e.kind in s.eventMap then first else first + [|h|];
        case Pop =>
          PopIsRight(s.queue, s.eventMap, first, h);
          PopAgrees(s.queue, s.eventMap, first, h);
          first := if s.queue == [] then first else first[1..];
      }
      hide RightAnswer, Agrees;
      FaithfulNext(h, c);
    }
  }

  lemma FaithfulNext(h: seq<Call>, c: Call)
    requires Faithful(h) && (c.Popped? ==> RightAnswer(h, c.res))
    ensures Faithful(h + [c])
  {
    hide RightAnswer;
    forall n | 0 <= n < |h + [c]| && (h + [c])[n].Popped? ensures RightAnswer((h + [c])[..n], (h + [c])[n].res) {
      assert (h + [c])[..n] == h[..n];
      if n == |h| { assert h[..n] == h; }
    }
  }

  function PopCount(ops: seq<Op>): nat {
    if ops == [] then 0 else PopCount(ops[..|ops| - 1]) + (if ops[|ops| - 1].Pop? then 1 else 0)
  }

  /** As long as at most j pops were made, the j-th queued type only moves up by their number. */
  lemma {:induction false} MovesUp(s: State, ops: seq<Op>, j: nat)
    requires SameKinds(s.queue, s.eventMap) && j < |s.queue| && PopCount(ops) <= j
    ensures var queue := Run(s, ops).0.queue;
      j - PopCount(ops) < |queue| && queue[j - PopCount(ops)] == s.queue[j]
  {
    if ops != [] {
      MovesUp(s, ops[..|ops| - 1], j);
    }
  }

  /** The pop that follows j others delivers the j-th queued type, whatever is pushed meanwhile. */
  lemma DeliveredInTurn(s: State, ops: seq<Op>, j: nat)
    requires SameKinds(s.queue, s.eventMap) && j < |s.queue| && PopCount(ops) == j
    ensures var (t, h) := Run(s, ops);
      var c := Next(t, Pop).1;
      c.res.Some? && c.res.value.kind == s.queue[j]
  {
    MovesUp(s, ops, j);
  }
}
