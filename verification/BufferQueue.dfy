/** `BufferQueue`: one producer and one consumer, interleaved access by access. */
module BufferQueues {
  import opened RingBuffer

  // ----- the operations on one object

  class BufferQueue<V(0)> {
    const q: array<V>
    var writerI: U32
    var writerLocalRead: U32
    var writerLocalWrite: U32
    var readerI: U32
    var readerLocalRead: U32
    var readerLocalWrite: U32
    ghost var puts: seq<V>
    ghost var gets: seq<V>
    ghost var published: nat
    ghost var released: nat
    ghost var seenReleased: nat
    ghost var seenPublished: nat

    ghost function Contents(): Ring<V>
      reads this, q
    {
      Ring(q[..], writerI, writerLocalRead, writerLocalWrite, readerI, readerLocalRead, readerLocalWrite,
        puts, gets, published, released, seenReleased, seenPublished)
    }

    ghost predicate Valid()
      reads this, q
    {
      q.Length == CAPACITY && Contents().Inv()
    }

    constructor ()
      ensures Valid() && fresh(q) && |Contents().q| == CAPACITY && Contents() == EmptyRing(Contents().q)
    {
      q := new V[CAPACITY];
      writerI, writerLocalRead, writerLocalWrite := 0, 0, 0;
      readerI, readerLocalRead, readerLocalWrite := 0, 0, 0;
      puts, gets, published, released, seenReleased, seenPublished := [], [], 0, 0, 0, 0;
      new;
      EmptyRingInv(q[..]);
    }

    method PutUnsafe(val: V)
      requires Valid() && !Contents().WriterEmpty()
      modifies this, q
      ensures Valid() && Contents() == old(Contents()).Store(val)
    {
      StoreInv(Contents(), val);
      q[Slot(writerLocalWrite)] := val;
      writerLocalWrite := Wrap(writerLocalWrite + 1);
      puts := puts + [val];
      assert q[..] == old(q[..])[Slot(old(writerLocalWrite)) := val];
    }

    method FlushWriter()
      requires Valid()
      modifies this
      ensures Valid() && Contents() == old(Contents()).Publish()
    {
      OtherAccessesInv(Contents());
      writerI := writerLocalWrite;
      published := |puts|;
    }

    method UpdateWriter() returns (ready: nat)
      requires Valid()
      modifies this
      ensures Valid() && Contents() == old(Contents()).LoadReader()
      ensures ready == released + CAPACITY - |puts|
    {
      OtherAccessesInv(Contents());
      writerLocalRead := readerI;
      seenReleased := released;
      WriterTests(Contents());
      ready := Minus(Wrap(writerLocalRead + CAPACITY), writerLocalWrite);
    }

    method GetUnsafe() returns (val: V)
      requires Valid() && !Contents().ReaderEmpty()
      modifies this
      ensures Valid() && Contents() == old(Contents()).Take()
      ensures |old(gets)| < |puts| && val == puts[|old(gets)|]
    {
      TakeInv(Contents());
      val := q[Slot(readerLocalRead)];
      readerLocalRead := Wrap(readerLocalRead + 1);
      gets := gets + [val];
    }

    method FlushReader()
      requires Valid()
      modifies this
      ensures Valid() && Contents() == old(Contents()).Release()
    {
      OtherAccessesInv(Contents());
      readerI := readerLocalRead;
      released := |gets|;
    }

    method UpdateReader() returns (ready: nat)
      requires Valid()
      modifies this
      ensures Valid() && Contents() == old(Contents()).LoadWriter()
      ensures ready == published - |gets|
    {
      OtherAccessesInv(Contents());
      readerLocalWrite := writerI;
      seenPublished := published;
      ReaderTests(Contents());
      ready := Minus(readerLocalWrite, readerLocalRead);
    }

    /** Stores the value, or fails (where the program aborts) if no slot has been released; publishes nothing. */
    method PutNoFlush(val: V) returns (ok: bool)
      requires Valid()
      modifies this, q
      ensures Valid()
      ensures ok <==> old(|puts| < seenReleased + CAPACITY || |puts| < released + CAPACITY)
      ensures puts == (if ok then old(puts) + [val] else old(puts))
      ensures gets == old(gets) && published == old(published) && released == old(released)
    {
      WriterTests(Contents());
      if writerLocalWrite != Wrap(writerLocalRead + CAPACITY) {
        PutUnsafe(val);
        return true;
      }
      var ready := UpdateWriter();
      WriterTests(Contents());
      if ready == 0 {
        return false;
      }
      PutUnsafe(val);
      ok := true;
    }

    method Put(val: V) returns (ok: bool)
      requires Valid()
      modifies this, q
      ensures Valid()
      ensures ok <==> old(|puts| < seenReleased + CAPACITY || |puts| < released + CAPACITY)
      ensures ok ==> puts == old(puts) + [val] && published == |puts|
      ensures gets == old(gets) && released == old(released)
    {
      ok := PutNoFlush(val);
      if ok {
        FlushWriter();
      }
    }
  }

  // ----- the two threads

  datatype Producer<V> =
    | PIdle
    | PCheck(v: V, flush: bool)
    | PLoad(v: V, flush: bool)
    | PStore(v: V, flush: bool)
    | PFlush
    | PFailed

  datatype Consumer = CIdle | CCheck(flush: bool) | CLoad(flush: bool) | CTake(flush: bool) | CFlush

  datatype Machine<V> = Machine(r: Ring<V>, p: Producer<V>, c: Consumer)

  ghost predicate Init<V>(m: Machine<V>) {
    |m.r.q| == CAPACITY && m.r == EmptyRing(m.r.q) && m.p == PIdle && m.c == CIdle
  }

  /** One access of the producer: `put`, `put_noflush`, `flush_writer` and `update_writer`. */
  ghost predicate ProducerStep<V>(m: Machine<V>, m': Machine<V>)
    requires |m.r.q| == CAPACITY
  {
    match m.p
    case PIdle =>
      || (m'.p.PCheck? && m' == m.(p := m'.p))
      || m' == m.(p := PFlush)
      || m' == m.(r := m.r.LoadReader())
    case PCheck(v, flush) => m' == m.(p := if !m.r.WriterEmpty() then PStore(v, flush) else PLoad(v, flush))
    case PLoad(v, flush) =>
      var r := m.r.LoadReader();
      m' == Machine(r, if r.WriterReady() == 0 then PFailed else PStore(v, flush), m.c)
    case PStore(v, flush) => m' == Machine(m.r.Store(v), if flush then PFlush else PIdle, m.c)
    case PFlush => m' == Machine(m.r.Publish(), PIdle, m.c)
    case PFailed => false
  }

  /** One access of the consumer: `get`, `get_noflush`, `flush_reader` and `update_reader`. */
  ghost predicate ConsumerStep<V>(m: Machine<V>, m': Machine<V>)
    requires |m.r.q| == CAPACITY
  {
    match m.c
    case CIdle =>
      || (m'.c.CCheck? && m' == m.(c := m'.c))
      || m' == m.(c := CFlush)
      || m' == m.(r := m.r.LoadWriter())
    case CCheck(flush) => m' == m.(c := if !m.r.ReaderEmpty() then CTake(flush) else CLoad(flush))
    case CLoad(flush) =>
      var r := m.r.LoadWriter();
      m' == Machine(r, m.p, if r.ReaderReady() != 0 then CTake(flush) else CLoad(flush))
    case CTake(flush) => m' == Machine(m.r.Take(), m.p, if flush then CFlush else CIdle)
    case CFlush => m' == Machine(m.r.Release(), m.p, CIdle)
  }

  ghost predicate Next<V>(m: Machine<V>, m': Machine<V>) {
    |m.r.q| == CAPACITY && (ProducerStep(m, m') || ConsumerStep(m, m'))
  }

  ghost predicate IsRun<V>(run: seq<Machine<V>>) {
    |run| > 0 && Init(run[0]) && forall k :: 0 <= k < |run| - 1 ==> Next(run[k], run[k + 1])
  }

  ghost predicate Inv<V>(m: Machine<V>) {
    && m.r.Inv()
    && (m.p.PStore? ==> !m.r.WriterEmpty())
    && (m.c.CTake? ==> !m.r.ReaderEmpty())
    && (m.p.PFailed? ==> |m.r.puts| == m.r.seenReleased + CAPACITY)
  }

  lemma StepInv<V>(m: Machine<V>, m': Machine<V>)
    requires Inv(m) && Next(m, m')
    ensures Inv(m')
    ensures m.r.puts <= m'.r.puts && m.r.gets <= m'.r.gets && m'.r.gets <= m'.r.puts
  {
    hide Ring.Inv, Ring.WriterEmpty, Ring.ReaderEmpty, Ring.WriterReady, Ring.ReaderReady, Slot, Wrap;
    OtherAccessesInv(m.r);
    Facts(m.r);
    if ProducerStep(m, m') {
      if m.p.PStore? { StoreInv(m.r, m.p.v); }
    } else {
      if m.c.CTake? { TakeInv(m.r); }
    }
    Facts(m'.r);
  }

  lemma {:induction false} RunInv<V>(run: seq<Machine<V>>, k: nat)
    requires IsRun(run) && k < |run|
    ensures Inv(run[k])
  {
    hide Inv, Next, Init;
    if k == 0 {
      assert Inv(run[0]) by { InitInv(run[0]); }
    } else {
      RunInv(run, k - 1);
      assert Next(run[k - 1], run[k - 1 + 1]);
      StepInv(run[k - 1], run[k]);
    }
  }

  lemma InitInv<V>(m: Machine<V>)
    requires Init(m)
    ensures Inv(m)
  {
    EmptyRingInv(m.r.q);
  }

  /** In every run, at every point, the values got are the first of the values put, in order and unchanged. */
  lemma AlwaysFifo<V>(run: seq<Machine<V>>, k: nat)
    requires IsRun(run) && k < |run|
    ensures run[k].r.gets <= run[k].r.puts && |run[k].r.puts| - |run[k].r.gets| <= CAPACITY
  {
    RunInv(run, k);
    Facts(run[k].r);
  }

  /** No access of a run overwrites a slot whose item has not been released, or reads one that was not published. */
  lemma SlotsAreSafe<V>(run: seq<Machine<V>>, k: nat)
    requires IsRun(run) && k < |run|
    ensures var m := run[k];
      && (m.p.PStore? ==> forall i :: m.r.released <= i < |m.r.puts| ==> Slot(m.r.writerLocalWrite) != Slot(i))
      && (m.c.CTake? ==>
            && |m.r.gets| < m.r.published <= |m.r.puts| && |m.r.q| == CAPACITY
            && m.r.q[Slot(m.r.readerLocalRead)] == m.r.puts[|m.r.gets|])
  {
    var m := run[k];
    RunInv(run, k);
    if m.p.PStore? {
      forall i | m.r.released <= i < |m.r.puts| ensures Slot(m.r.writerLocalWrite) != Slot(i) {
        StoreHitsFreeSlot(m.r, i);
      }
    }
    if m.c.CTake? {
      TakeInv(m.r);
      assert m.r.Take().gets[|m.r.gets|] == m.r.puts[|m.r.gets|];
    }
  }

  /** The producer gives up exactly when the position it loads shows all slots taken. */
  lemma FailsOnlyWhenFull<V>(run: seq<Machine<V>>, k: nat, m': Machine<V>)
    requires IsRun(run) && k < |run| && run[k].p.PLoad? && Next(run[k], m') && ProducerStep(run[k], m')
    ensures m'.p.PFailed? <==> |run[k].r.puts| == run[k].r.released + CAPACITY
  {
    RunInv(run, k);
    OtherAccessesInv(run[k].r);
    Facts(run[k].r.LoadReader());
  }
}
