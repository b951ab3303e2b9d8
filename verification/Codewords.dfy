/** Bits packed into bytes, highest bit first. */
module Codewords {
  import opened GF256

  /** Bit i of a byte string: `getBit(data[i >> 3], 7 - (i & 7))`. */
  predicate StreamBit(data: seq<bv8>, i: nat)
    requires i < 8 * |data|
  {
    Bit(data[i / 8], 7 - i % 8)
  }

  function Unpack(data: seq<bv8>): (bits: seq<bool>)
    ensures |bits| == 8 * |data|
  {
    seq(8 * |data|, i requires 0 <= i < 8 * |data| => StreamBit(data, i))
  }

  lemma WeightsDistinct(k: nat, m: nat)
    requires k < 8 && m < 8 && k != m
    ensures Weight(k) & Weight(m) == 0
  {
    if k < 4 {
      if k < 2 { if k == 0 {} else {} } else { if k == 2 {} else {} }
    } else {
      if k < 6 { if k == 4 {} else {} } else { if k == 6 {} else {} }
    }
  }

  lemma OrBit(b: bv8, w: bv8, v: bv8)
    ensures (b | w) & v == (b & v) | (w & v)
  {
  }

  lemma SetBit(b: bv8, k: nat, m: nat)
    requires k < 8 && m < 8
    ensures Bit(b | Weight(k), m) == (k == m || Bit(b, m))
  {
    OrBit(b, Weight(k), Weight(m));
    if k == m {
      WeightNonzero(k, b & Weight(m));
    } else {
      WeightsDistinct(k, m);
      OrZero(b & Weight(m));
    }
  }

  lemma WeightNonzero(k: nat, x: bv8)
    requires k < 8
    ensures Weight(k) & Weight(k) == Weight(k) && x | Weight(k) != 0
  {
    if k < 4 {
      if k < 2 { if k == 0 {} else {} } else { if k == 2 {} else {} }
    } else {
      if k < 6 { if k == 4 {} else {} } else { if k == 6 {} else {} }
    }
  }

  lemma OrZero(x: bv8)
    ensures x | 0 == x
  {
  }

  lemma ZeroBit(k: nat)
    requires k < 8
    ensures !Bit(0, k)
  {
  }

  lemma SetStreamBit(data: seq<bv8>, i: nat, p: nat)
    requires i < 8 * |data| && p < 8 * |data|
    ensures StreamBit(data[i / 8 := data[i / 8] | Weight(7 - i % 8)], p) == (i == p || StreamBit(data, p))
  {
    hide Bit, Weight;
    if i / 8 == p / 8 {
      SetBit(data[i / 8], 7 - i % 8, 7 - p % 8);
    }
  }

  lemma ZeroStreamBit(data: seq<bv8>, p: nat)
    requires p < 8 * |data| && data[p / 8] == 0
    ensures !StreamBit(data, p)
  {
    hide Bit;
    ZeroBit(7 - p % 8);
  }

  /** Bits packed big-endian into bytes by setting one bit after another. */
  method Pack(bits: seq<bool>) returns (data: seq<bv8>)
    requires |bits| % 8 == 0
    ensures Unpack(data) == bits
  {
    hide StreamBit, Weight;
    var bytes := new bv8[|bits| / 8](_ => 0);
    forall p: nat | p < |bits| ensures !StreamBit(bytes[..], p) { ZeroStreamBit(bytes[..], p); }
    for i := 0 to |bits|
      invariant forall p: nat :: p < |bits| ==> StreamBit(bytes[..], p) == (p < i && bits[p])
    {
      if bits[i] {
        ghost var before := bytes[..];
        forall p: nat | p < |bits|
          ensures StreamBit(before[i / 8 := before[i / 8] | Weight(7 - i % 8)], p) == (i == p || StreamBit(before, p))
        {
          SetStreamBit(before, i, p);
        }
        bytes[i / 8] := bytes[i / 8] | Weight(7 - i % 8);
        ghost var after := bytes[..];
        assert after == before[i / 8 := before[i / 8] | Weight(7 - i % 8)];
        assert forall p: nat :: p < |bits| ==> StreamBit(after, p) == (i == p || StreamBit(before, p));
      }
    }
    data := bytes[..];
  }

  // ----- bytes are determined by their bits

  lemma SameBitsSameByte(a: bv8, b: bv8)
    requires (a & 0x80 != 0) == (b & 0x80 != 0) && (a & 0x40 != 0) == (b & 0x40 != 0)
    requires (a & 0x20 != 0) == (b & 0x20 != 0) && (a & 0x10 != 0) == (b & 0x10 != 0)
    requires (a & 0x08 != 0) == (b & 0x08 != 0) && (a & 0x04 != 0) == (b & 0x04 != 0)
    requires (a & 0x02 != 0) == (b & 0x02 != 0) && (a & 0x01 != 0) == (b & 0x01 != 0)
    ensures a == b
  {
  }

  lemma SameBits(a: bv8, b: bv8)
    requires forall k: nat :: k < 8 ==> Bit(a, k) == Bit(b, k)
    ensures a == b
  {
    hide Bit;
    BitTable(a);
    BitTable(b);
    assert Bit(a, 7) == Bit(b, 7) && Bit(a, 6) == Bit(b, 6) && Bit(a, 5) == Bit(b, 5) && Bit(a, 4) == Bit(b, 4);
    assert Bit(a, 3) == Bit(b, 3) && Bit(a, 2) == Bit(b, 2) && Bit(a, 1) == Bit(b, 1) && Bit(a, 0) == Bit(b, 0);
    SameBitsSameByte(a, b);
  }

  lemma UnpackInjective(a: seq<bv8>, b: seq<bv8>)
    requires Unpack(a) == Unpack(b)
    ensures a == b
  {
    hide Bit;
    assert 8 * |a| == |Unpack(a)| == 8 * |b|;
    forall q | 0 <= q < |a| ensures a[q] == b[q] {
      forall k: nat | k < 8 ensures Bit(a[q], k) == Bit(b[q], k) {
        var i := 8 * q + (7 - k);
        assert i / 8 == q && 7 - i % 8 == k;
        assert Unpack(a)[i] == StreamBit(a, i) && Unpack(b)[i] == StreamBit(b, i);
      }
      SameBits(a[q], b[q]);
    }
  }
}
