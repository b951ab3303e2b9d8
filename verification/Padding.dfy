/** What stands in the data codewords after the segments, codeword by codeword. */
module Padding {
  import opened GF256
  import opened BitBuffers
  import opened Codewords
  import opened SegmentReader
  import opened Segments
  import opened EncodeSegments

  /** The first codeword that is all padding: the segments and the terminator end before it. */
  function FirstPad(used: nat, capacity: nat): nat
    requires used <= capacity
  {
    if used + 4 <= capacity then (used + 4 + 7) / 8 else capacity / 8
  }

  lemma {:induction false} BitsOfAt(v: nat, len: nat, j: nat)
    requires j < len
    ensures BitsOf(v, len)[j] == (ShiftRight(v, len - 1 - j) % 2 == 1)
  {
    if j < len - 1 {
      BitsOfAt(v / 2, len - 1, j);
      ShiftRightHalf(v, len - 1 - j);
    }
  }

  lemma PadBytesShifted()
    ensures ShiftRight(0xEC, 1) == 0x76 && ShiftRight(0xEC, 2) == 0x3B && ShiftRight(0xEC, 3) == 0x1D
    ensures ShiftRight(0xEC, 4) == 0x0E && ShiftRight(0xEC, 5) == 7 && ShiftRight(0xEC, 6) == 3
    ensures ShiftRight(0xEC, 7) == 1 && ShiftRight(0xEC, 0) == 0xEC
    ensures ShiftRight(0x11, 1) == 8 && ShiftRight(0x11, 2) == 4 && ShiftRight(0x11, 3) == 2
    ensures ShiftRight(0x11, 4) == 1 && ShiftRight(0x11, 5) == 0 && ShiftRight(0x11, 6) == 0
    ensures ShiftRight(0x11, 7) == 0 && ShiftRight(0x11, 0) == 0x11
  {
  }

  lemma PadByteBits(j: nat)
    requires j < 8
    ensures BitsOf(0xEC, 8)[j] == Bit(0xEC, 7 - j)
    ensures BitsOf(0x11, 8)[j] == Bit(0x11, 7 - j)
  {
    hide Bit, BitsOf, ShiftRight;
    BitsOfAt(0xEC, 8, j);
    BitsOfAt(0x11, 8, j);
    PadBytesShifted();
    BitTable(0xEC);
    BitTable(0x11);
  }

  lemma {:induction false} PadBitAt(n: nat, k: nat, j: nat)
    requires k < n && j < 8
    ensures PadBits(n)[8 * k + j] == Bit(if k % 2 == 0 then 0xEC else 0x11, 7 - j)
  {
    hide BitsOf, Bit;
    if k == n - 1 {
      PadByteBits(j);
    } else {
      PadBitAt(n - 1, k, j);
    }
  }

  lemma FirstPadFits(used: nat, capacity: nat)
    requires used <= capacity && capacity % 8 == 0
    ensures used <= 8 * FirstPad(used, capacity) <= capacity
  {
  }

  /** Where the parts of the tail stand. */
  lemma TailAt(used: nat, capacity: nat, i: nat)
    requires used <= capacity && capacity % 8 == 0 && used <= i < capacity
    ensures var first := FirstPad(used, capacity);
      && 8 * first <= capacity
      && |PadBits(capacity / 8 - first)| == capacity - 8 * first
      && Tail(used, capacity)[i - used] == (8 * first <= i && PadBits(capacity / 8 - first)[i - 8 * first])
  {
    hide PadBits, Terminator, Alignment, FirstPad, Zeros;
    FirstPadFits(used, capacity);
    TailIs(used, capacity);
    ZerosAre(8 * FirstPad(used, capacity) - used);
  }

  lemma ZerosAre(n: nat)
    ensures |Zeros(n)| == n && forall i :: 0 <= i < n ==> !Zeros(n)[i]
  {
  }

  /** The zeros of the terminator and of the alignment lead to the first pad codeword. */
  lemma TailIs(used: nat, capacity: nat)
    requires used <= capacity && capacity % 8 == 0
    ensures var first := FirstPad(used, capacity);
      && used <= 8 * first <= capacity
      && Tail(used, capacity) == Zeros(8 * first - used) + PadBits(capacity / 8 - first)
  {
    hide PadBits, Terminator, Alignment, FirstPad, Zeros;
    var t := Terminator(used, capacity);
    var a := Alignment(used + t);
    TailFits(used, capacity);
    TailEnds(used, capacity);
    ZerosSum(t, a);
  }

  lemma TailEnds(used: nat, capacity: nat)
    requires used <= capacity && capacity % 8 == 0
    ensures var t := Terminator(used, capacity); used + t + Alignment(used + t) == 8 * FirstPad(used, capacity)
  {
    hide Alignment;
    if used + 4 <= capacity {
      RoundUp(used + 4, (used + 4) / 8, (used + 4) % 8);
    } else {
      RoundUp(capacity, capacity / 8, 0);
    }
  }

  lemma RoundUp(n: nat, q: nat, r: nat)
    requires n == 8 * q + r && r < 8
    ensures (n + 7) / 8 == (if r == 0 then q else q + 1) && n + Alignment(n) == 8 * ((n + 7) / 8)
  {
  }

  lemma ZerosSum(t: nat, a: nat)
    ensures Zeros(t) + Zeros(a) == Zeros(t + a)
  {
  }

  /** From the codeword after the terminator on, the codewords alternate between 0xEC and 0x11; the bits between the
    segments and that codeword are all zero. */
  lemma PadCodewords(segs: seq<Segment>, e: EncodedData, capacity: int)
    requires HoldsStream(segs, e, capacity)
    ensures var used := |StreamBits(e.version, segs)|;
      var first := FirstPad(used, capacity);
      && used <= 8 * first <= 8 * |e.dataCodewords|
      && (forall i :: used <= i < 8 * first ==> !Unpack(e.dataCodewords)[i])
      && (forall p :: first <= p < |e.dataCodewords| ==>
            e.dataCodewords[p] == if (p - first) % 2 == 0 then 0xEC else 0x11)
  {
    hide Tail, PadBits, StreamBits, Unpack, Bit, FirstPad;
    var used := |StreamBits(e.version, segs)|;
    var first := FirstPad(used, capacity);
    var bits := Unpack(e.dataCodewords);
    FirstPadFits(used, capacity);
    forall i | used <= i < 8 * first ensures !bits[i] {
      TailAt(used, capacity, i);
      assert bits[i] == Tail(used, capacity)[i - used];
    }
    forall p | first <= p < |e.dataCodewords|
      ensures e.dataCodewords[p] == if (p - first) % 2 == 0 then 0xEC else 0x11
    {
      forall k: nat | k < 8
        ensures Bit(e.dataCodewords[p], k) == Bit(if (p - first) % 2 == 0 then 0xEC else 0x11, k)
      {
        var i := 8 * p + (7 - k);
        TailAt(used, capacity, i);
        PadBitAt(capacity / 8 - first, p - first, 7 - k);
        assert bits[i] == Tail(used, capacity)[i - used];
        UnpackAt(e.dataCodewords, p, 7 - k);
      }
      SameBits(e.dataCodewords[p], if (p - first) % 2 == 0 then 0xEC else 0x11);
    }
  }

  lemma UnpackAt(data: seq<bv8>, p: nat, j: nat)
    requires p < |data| && j < 8
    ensures Unpack(data)[8 * p + j] == Bit(data[p], 7 - j)
  {
    hide Bit;
    assert (8 * p + j) / 8 == p && (8 * p + j) % 8 == j;
  }
}
