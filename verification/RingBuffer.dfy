/** The shared memory of `BufferQueue`: a ring of slots, two published positions and four cached ones. */
module RingBuffer {

  const CAPACITY: nat := 1024

  const WORD: nat := 0x1_0000_0000

  type U32 = x: nat | x < 0x1_0000_0000

  function Wrap(n: nat): U32 {
    n % WORD
  }

  /** Subtraction on 32-bit words. */
  function Minus(a: U32, b: U32): U32 {
    Wrap(a + WORD - b)
  }

  /** The slot of a position: `i & (queue_buf_size - 1)`. */
  function Slot(i: nat): (s: nat)
    ensures s < CAPACITY
  {
    i % CAPACITY
  }

  /** The words the two threads share or keep, then, for the proofs only, everything put and got so far and the
    unwrapped values of the words. */
  datatype Ring<V> = Ring(
    q: seq<V>,
    writerI: U32, writerLocalRead: U32, writerLocalWrite: U32,
    readerI: U32, readerLocalRead: U32, readerLocalWrite: U32,
    puts: seq<V>, gets: seq<V>,
    published: nat, released: nat, seenReleased: nat, seenPublished: nat)
  {
    // ----- what the threads test

    predicate ReaderEmpty() {
      readerLocalWrite == readerLocalRead
    }

    predicate WriterEmpty() {
      writerLocalWrite == Wrap(writerLocalRead + CAPACITY)
    }

    function ReaderReady(): nat {
      Minus(readerLocalWrite, readerLocalRead)
    }

    function WriterReady(): nat {
      Minus(Wrap(writerLocalRead + CAPACITY), writerLocalWrite)
    }

    // ----- what the threads do, one access to shared memory at a time

    /** `put_unsafe` */
    function Store(v: V): Ring<V>
      requires |q| == CAPACITY
    {
      this.(q := q[Slot(writerLocalWrite) := v], writerLocalWrite := Wrap(writerLocalWrite + 1), puts := puts + [v])
    }

    /** `flush_writer` */
    function Publish(): Ring<V> {
      this.(writerI := writerLocalWrite, published := |puts|)
    }

    /** `update_writer` */
    function LoadReader(): Ring<V> {
      this.(writerLocalRead := readerI, seenReleased := released)
    }

    /** `get_unsafe` */
    function Take(): Ring<V>
      requires |q| == CAPACITY
    {
      this.(readerLocalRead := Wrap(readerLocalRead + 1), gets := gets + [q[Slot(readerLocalRead)]])
    }

    /** `flush_reader` */
    function Release(): Ring<V> {
      this.(readerI := readerLocalRead, released := |gets|)
    }

    /** `update_reader` */
    function LoadWriter(): Ring<V> {
      this.(readerLocalWrite := writerI, seenPublished := published)
    }

    // ----- the invariant

    predicate Words() {
      && writerI == Wrap(published) && writerLocalRead == Wrap(seenReleased) && writerLocalWrite == Wrap(|puts|)
      && readerI == Wrap(released) && readerLocalRead == Wrap(|gets|) && readerLocalWrite == Wrap(seenPublished)
    }

    predicate Ordered() {
      seenReleased <= released <= |gets| <= seenPublished <= published <= |puts| <= seenReleased + CAPACITY
    }

    ghost predicate Inv() {
      && |q| == CAPACITY && Words() && Ordered()
      && (forall k :: |gets| <= k < |puts| ==> q[Slot(k)] == puts[k])
      && gets <= puts
    }
  }

  function EmptyRing<V>(q: seq<V>): Ring<V> {
    Ring(q, 0, 0, 0, 0, 0, 0, [], [], 0, 0, 0, 0)
  }

  // ----- words and slots

  /** Two counts at most a word apart have equal words only if they are equal. */
  lemma WrapInjective(a: nat, b: nat)
    requires a <= b < a + WORD
    ensures Wrap(a) == Wrap(b) <==> a == b
    ensures Minus(Wrap(b), Wrap(a)) == b - a
  {
  }

  lemma WrapAdd(a: nat, b: nat)
    ensures Wrap(Wrap(a) + b) == Wrap(a + b)
  {
  }

  /** Wrapping does not move a position to another slot. */
  lemma SlotOfWrap(a: nat)
    ensures Slot(Wrap(a)) == Slot(a)
  {
    var m := a / WORD;
    assert a == m * WORD + Wrap(a);
    assert WORD == 4194304 * CAPACITY;
    assert a == (m * 4194304) * CAPACITY + Wrap(a);
    ModAddMultiple(Wrap(a), m * 4194304);
  }

  lemma ModAddMultiple(r: nat, m: nat)
    ensures (m * CAPACITY + r) % CAPACITY == r % CAPACITY
  {
  }

  /** Positions less than a capacity apart lie in different slots. */
  lemma SlotsDiffer(a: nat, b: nat)
    requires a < b < a + CAPACITY
    ensures Slot(a) != Slot(b)
  {
  }

  // ----- what the tests mean

  lemma ReaderTests<V>(r: Ring<V>)
    requires r.Inv()
    ensures r.ReaderEmpty() <==> |r.gets| == r.seenPublished
    ensures r.ReaderReady() == r.seenPublished - |r.gets|
  {
    WrapInjective(|r.gets|, r.seenPublished);
  }

  lemma WriterTests<V>(r: Ring<V>)
    requires r.Inv()
    ensures r.WriterEmpty() <==> |r.puts| == r.seenReleased + CAPACITY
    ensures r.WriterReady() == r.seenReleased + CAPACITY - |r.puts|
  {
    WrapAdd(r.seenReleased, CAPACITY);
    WrapInjective(|r.puts|, r.seenReleased + CAPACITY);
  }

  /** What the invariant and the tests of a ring say about its counts. */
  lemma Facts<V>(r: Ring<V>)
    requires r.Inv()
    ensures r.ReaderEmpty() <==> |r.gets| == r.seenPublished
    ensures r.ReaderReady() == r.seenPublished - |r.gets|
    ensures r.WriterEmpty() <==> |r.puts| == r.seenReleased + CAPACITY
    ensures r.WriterReady() == r.seenReleased + CAPACITY - |r.puts|
    ensures r.Ordered() && r.gets <= r.puts
  {
    ReaderTests(r);
    WriterTests(r);
  }

  // ----- every access keeps the invariant

  lemma EmptyRingInv<V>(q: seq<V>)
    requires |q| == CAPACITY
    ensures EmptyRing(q).Inv()
  {
  }

  /** A store into a ring that is not full hits a slot that no unreleased item occupies. */
  lemma StoreHitsFreeSlot<V>(r: Ring<V>, k: nat)
    requires r.Inv() && !r.WriterEmpty() && r.released <= k < |r.puts|
    ensures Slot(r.writerLocalWrite) != Slot(k)
  {
    WriterTests(r);
    SlotOfWrap(|r.puts|);
    SlotsDiffer(k, |r.puts|);
  }

  lemma StoreInv<V>(r: Ring<V>, v: V)
    requires r.Inv() && !r.WriterEmpty()
    ensures r.Store(v).Inv()
  {
    hide Slot, Wrap;
    WriterTests(r);
    SlotOfWrap(|r.puts|);
    WrapAdd(|r.puts|, 1);
    forall k | |r.gets| <= k < |r.puts| ensures Slot(r.writerLocalWrite) != Slot(k) {
      StoreHitsFreeSlot(r, k);
    }
  }

  /** A read from a ring that is not empty gets the oldest item not yet got, and it has been published. */
  lemma TakeInv<V>(r: Ring<V>)
    requires r.Inv() && !r.ReaderEmpty()
    ensures r.Take().Inv() && |r.gets| < r.published && r.Take().gets == r.gets + [r.puts[|r.gets|]]
  {
    hide Slot, Wrap;
    ReaderTests(r);
    SlotOfWrap(|r.gets|);
    WrapAdd(|r.gets|, 1);
  }

  lemma OtherAccessesInv<V>(r: Ring<V>)
    requires r.Inv()
    ensures r.Publish().Inv() && r.LoadReader().Inv() && r.Release().Inv() && r.LoadWriter().Inv()
  {
    hide Slot, Wrap;
  }
}
