/** The bit buffer of the encoder, and numbers written as bits. */
module BitBuffers {
  import opened Outcomes

  function Pow2(n: nat): nat {
    if n == 0 then 1 else 2 * Pow2(n - 1)
  }

  /** v >> i */
  function ShiftRight(v: nat, i: nat): nat {
    if i == 0 then v else ShiftRight(v, i - 1) / 2
  }

  /** The low `len` bits of v, highest first. */
  function BitsOf(v: nat, len: nat): (bits: seq<bool>)
    ensures |bits| == len
  {
    if len == 0 then [] else BitsOf(v / 2, len - 1) + [v % 2 == 1]
  }

  /** The number that a sequence of bits, highest first, writes down. */
  function Value(bits: seq<bool>): nat {
    if |bits| == 0 then 0 else 2 * Value(bits[..|bits| - 1]) + (if bits[|bits| - 1] then 1 else 0)
  }

  lemma {:induction false} ValueOfBits(v: nat, len: nat)
    requires v < Pow2(len)
    ensures Value(BitsOf(v, len)) == v
  {
    if len > 0 {
      ValueOfBits(v / 2, len - 1);
      assert BitsOf(v, len)[..len - 1] == BitsOf(v / 2, len - 1);
    }
  }

  lemma {:induction false} ShiftRightIsZero(v: nat, i: nat)
    ensures ShiftRight(v, i) == 0 <==> v < Pow2(i)
  {
    if i > 0 {
      ShiftRightHalf(v, i);
      ShiftRightIsZero(v / 2, i - 1);
    }
  }

  lemma {:induction false} ShiftRightHalf(v: nat, i: nat)
    requires i > 0
    ensures ShiftRight(v, i) == ShiftRight(v / 2, i - 1)
  {
    if i > 1 {
      ShiftRightHalf(v, i - 1);
    }
  }

  lemma {:induction false} BitsOfSmall(v: nat, len: nat, extra: nat)
    requires v < Pow2(len)
    ensures BitsOf(v, extra + len) == seq(extra, _ => false) + BitsOf(v, len)
  {
    if len == 0 {
      if extra > 0 {
        BitsOfSmall(v, 0, extra - 1);
        assert seq(extra, _ => false) == seq(extra - 1, _ => false) + [false];
      }
    } else {
      BitsOfSmall(v / 2, len - 1, extra);
      assert BitsOf(v, extra + len) == BitsOf(v / 2, extra + (len - 1)) + [v % 2 == 1];
    }
  }

  class BitBuffer {
    var bits: seq<bool>

    constructor ()
      ensures bits == []
    {
      bits := [];
    }

    /** Appends the low `len` bits of `val`, highest first; refuses a value that does not fit. */
    method AppendBits(val: nat, len: int) returns (r: Option<Error>)
      modifies this
      ensures r.Some? <==> len < 0 || len > 31 || val >= Pow2(len)
      ensures r.Some? ==> bits == old(bits) && r.value == DomainError
      ensures r.None? ==> bits == old(bits) + BitsOf(val, len)
    {
      if len < 0 || len > 31 {
        return Some(DomainError);
      }
      ShiftRightIsZero(val, len);
      if ShiftRight(val, len) != 0 {
        return Some(DomainError);
      }
      var i := len - 1;
      while i >= 0
        invariant -1 <= i < len
        invariant bits == old(bits) + BitsOf(ShiftRight(val, i + 1), len - 1 - i)
      {
        assert ShiftRight(val, i + 1) == ShiftRight(val, i) / 2;
        bits := bits + [ShiftRight(val, i) % 2 != 0];
        i := i - 1;
      }
      r := None;
    }
  }
}
