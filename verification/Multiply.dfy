/** The product loop of the encoder, and why its result is the product modulo 0x11D. */
module Multiply {
  import opened GF256

  // ----- the carry-less product and its reduction

  /** The carry-less (unreduced) product of x with the bits 7, ..., i of y. */
  function CarrylessFrom(x: bv8, y: bv8, i: nat): bv16
    requires i <= 8
    decreases 8 - i
  {
    if i == 8 then 0 else WideRound(CarrylessFrom(x, y, i + 1), x, Bit(y, i))
  }

  function WideRound(w: bv16, x: bv8, bit: bool): bv16 {
    Xor(Double(w), Wide(Pick(bit, x)))
  }

  function Double(w: bv16): bv16 {
    w << 1
  }

  function Wide(x: bv8): bv16 {
    x as bv16
  }

  function Carry(z: bv8): bv16 {
    Wide(z >> 7)
  }

  function Xor(a: bv16, b: bv16): bv16 {
    a ^ b
  }

  /** The carry-less product of q with 0x11D = x^8 + x^4 + x^3 + x^2 + 1. */
  function TimesModulus(q: bv16): bv16 {
    Xor(Xor(q << 8, q << 4), Xor(Xor(q << 3, q << 2), q))
  }

  /** r is the remainder of the carry-less product of x and y modulo 0x11D, with quotient q. */
  ghost predicate IsProductModulo(x: bv8, y: bv8, r: bv8, q: bv16) {
    q < 128 && CarrylessFrom(x, y, 0) == Xor(Wide(r), TimesModulus(q))
  }

  function QuotientFrom(x: bv8, y: bv8, i: nat): bv16
    requires i <= 8
    decreases 8 - i
  {
    if i == 8 then 0 else NextQuotient(QuotientFrom(x, y, i + 1), MulFrom(x, y, i + 1))
  }

  function NextQuotient(q: bv16, z: bv8): bv16 {
    Xor(Double(q), Carry(z))
  }

  // The solver settles each bit-vector fact quickly alone, but not several of them together.
  lemma XorCommutes(a: bv16, b: bv16)
    ensures Xor(a, b) == Xor(b, a)
  {
  }

  lemma XorAssociates(a: bv16, b: bv16, c: bv16)
    ensures Xor(Xor(a, b), c) == Xor(a, Xor(b, c))
  {
  }

  lemma XorSelf(a: bv16)
    ensures Xor(a, a) == 0 && Xor(a, 0) == a
  {
  }

  lemma XorSwap(a: bv16, b: bv16, c: bv16, d: bv16)
    ensures Xor(Xor(a, b), Xor(c, d)) == Xor(Xor(a, c), Xor(b, d))
  {
    hide Xor;
    XorAssociates(a, b, Xor(c, d));
    XorAssociates(b, c, d);
    XorCommutes(b, c);
    XorAssociates(c, b, d);
    XorAssociates(a, c, Xor(b, d));
  }

  lemma XorDouble(a: bv16, b: bv16)
    ensures Double(Xor(a, b)) == Xor(Double(a), Double(b))
  {
  }

  lemma XorShift2(a: bv16, b: bv16)
    ensures Xor(a, b) << 2 == Xor(a << 2, b << 2)
  {
  }

  lemma XorShift3(a: bv16, b: bv16)
    ensures Xor(a, b) << 3 == Xor(a << 3, b << 3)
  {
  }

  lemma XorShift4(a: bv16, b: bv16)
    ensures Xor(a, b) << 4 == Xor(a << 4, b << 4)
  {
  }

  lemma XorShift8(a: bv16, b: bv16)
    ensures Xor(a, b) << 8 == Xor(a << 8, b << 8)
  {
  }

  lemma TimesModulusAdd(a: bv16, b: bv16)
    ensures TimesModulus(Xor(a, b)) == Xor(TimesModulus(a), TimesModulus(b))
  {
    hide Xor;
    XorShift8(a, b);
    XorShift4(a, b);
    XorShift3(a, b);
    XorShift2(a, b);
    XorSwap(a << 8, b << 8, a << 4, b << 4);
    XorSwap(a << 3, b << 3, a << 2, b << 2);
    XorSwap(Xor(a << 3, a << 2), Xor(b << 3, b << 2), a, b);
    XorSwap(Xor(a << 8, a << 4), Xor(b << 8, b << 4), Xor(Xor(a << 3, a << 2), a), Xor(Xor(b << 3, b << 2), b));
  }

  lemma TimesModulusDouble(a: bv16)
    ensures TimesModulus(Double(a)) == Double(TimesModulus(a))
  {
  }

  lemma XTimeWide(z: bv8)
    ensures Double(Wide(z)) == Xor(Wide(XTime(z)), TimesModulus(Carry(z)))
  {
  }

  lemma AddWide(a: bv8, b: bv8)
    ensures Wide(Add(a, b)) == Xor(Wide(a), Wide(b))
  {
  }

  /** Doubling and adding keeps the partial product, the accumulator and the quotient congruent. */
  lemma ReduceRound(w: bv16, z: bv8, q: bv16, x: bv8, bit: bool)
    requires w == Xor(Wide(z), TimesModulus(q))
    ensures WideRound(w, x, bit) == Xor(Wide(Round(z, x, bit)), TimesModulus(NextQuotient(q, z)))
  {
    hide TimesModulus, XTime, Xor, Double, Wide, Carry, Add, Pick;
    XorDouble(Wide(z), TimesModulus(q));
    XTimeWide(z);
    AddWide(XTime(z), Pick(bit, x));
    TimesModulusDouble(q);
    TimesModulusAdd(Double(q), Carry(z));
    ShuffleTerms(Wide(XTime(z)), TimesModulus(Carry(z)), TimesModulus(Double(q)), Wide(Pick(bit, x)));
  }

  lemma ShuffleTerms(h: bv16, t: bv16, c: bv16, p: bv16)
    ensures Xor(Xor(Xor(h, t), c), p) == Xor(Xor(h, p), Xor(c, t))
  {
    hide Xor;
    XorAssociates(h, t, c);
    XorCommutes(t, c);
    XorAssociates(h, Xor(c, t), p);
    XorCommutes(Xor(c, t), p);
    XorAssociates(h, p, Xor(c, t));
  }

  lemma {:induction false} ReducedFrom(x: bv8, y: bv8, i: nat)
    requires i <= 8
    ensures CarrylessFrom(x, y, i) == Xor(Wide(MulFrom(x, y, i)), TimesModulus(QuotientFrom(x, y, i)))
    decreases 8 - i
  {
    hide Round, WideRound, NextQuotient, TimesModulus, Bit, Xor;
    if i == 8 {
      XorSelf(0);
      assert TimesModulus(0) == 0 by { TimesModulusZero(); }
    } else {
      ReducedFrom(x, y, i + 1);
      ReduceRound(CarrylessFrom(x, y, i + 1), MulFrom(x, y, i + 1), QuotientFrom(x, y, i + 1), x, Bit(y, i));
    }
  }

  lemma TimesModulusZero()
    ensures TimesModulus(0) == 0
  {
  }

  function Bound(i: nat): bv16
    requires i <= 8
  {
    if i == 8 then 1 else if i == 7 then 1 else if i == 6 then 2 else if i == 5 then 4 else if i == 4 then 8
    else if i == 3 then 16 else if i == 2 then 32 else if i == 1 then 64 else 128
  }

  lemma BoundStep(q: bv16, z: bv8, i: nat)
    requires i < 8 && q < Bound(i + 1) && (i == 7 ==> z == 0)
    ensures NextQuotient(q, z) < Bound(i)
  {
  }

  lemma {:induction false} QuotientBound(x: bv8, y: bv8, i: nat)
    requires i <= 8
    ensures QuotientFrom(x, y, i) < Bound(i)
    decreases 8 - i
  {
    hide NextQuotient, Round;
    if i < 8 {
      QuotientBound(x, y, i + 1);
      BoundStep(QuotientFrom(x, y, i + 1), MulFrom(x, y, i + 1), i);
    }
  }

  lemma ProductModulo(x: bv8, y: bv8)
    ensures exists q :: IsProductModulo(x, y, Mul(x, y), q)
  {
    hide TimesModulus, CarrylessFrom, MulFrom, QuotientFrom;
    ReducedFrom(x, y, 0);
    QuotientBound(x, y, 0);
    assert IsProductModulo(x, y, Mul(x, y), QuotientFrom(x, y, 0));
  }

  lemma SmallMultiple(q: bv16)
    requires q < 128 && TimesModulus(q) < 256
    ensures q == 0
  {
  }

  lemma SameRemainder(r: bv8, q: bv16, r': bv8, q': bv16)
    requires q < 128 && q' < 128 && Xor(Wide(r), TimesModulus(q)) == Xor(Wide(r'), TimesModulus(q'))
    ensures r == r'
  {
    hide TimesModulus;
    TimesModulusAdd(q, q');
    assert TimesModulus(Xor(q, q')) == Xor(Wide(r), Wide(r'));
    SmallMultiple(Xor(q, q'));
  }

  /** The product is the only byte congruent to the carry-less product, so `IsProductModulo` defines it. */
  lemma ProductIsTheRemainder(x: bv8, y: bv8, r: bv8)
    ensures (exists q :: IsProductModulo(x, y, r, q)) <==> r == Mul(x, y)
  {
    hide TimesModulus, CarrylessFrom, Mul;
    ProductModulo(x, y);
    if q :| IsProductModulo(x, y, r, q) {
      var q' :| IsProductModulo(x, y, Mul(x, y), q');
      SameRemainder(r, q, Mul(x, y), q');
    }
  }

  // ----- the loop

  /** `(z << 1) ^ ((z >> 7) * 0x11D)` */
  function Reduced(z: bv32): bv32 {
    (z << 1) ^ ((z >> 7) * 0x11D)
  }

  /** `z ^ bit * x` */
  function Added(z: bv32, bit: bv8, x: bv8): bv32 {
    z ^ ((bit as bv32) * (x as bv32))
  }

  lemma ShiftAndReduce(z: bv8)
    ensures Reduced(z as bv32) == XTime(z) as bv32
  {
  }

  lemma AddOperand(a: bv8, x: bv8, bit: bv8)
    requires bit == 0 || bit == 1
    ensures Added(a as bv32, bit, x) == Add(a, Pick(bit == 1, x)) as bv32
  {
    if bit == 0 {} else {}
  }

  lemma LoopRound(z: bv8, x: bv8, bit: bv8)
    requires bit == 0 || bit == 1
    ensures Added(Reduced(z as bv32), bit, x) == Round(z, x, bit == 1) as bv32
  {
    hide XTime, Add, Pick, Reduced, Added;
    ShiftAndReduce(z);
    AddOperand(XTime(z), x, bit);
  }

  function ShiftedBit(y: bv8, i: nat): bv8
    requires i < 8
  {
    (y >> i) & 1
  }

  lemma ShiftedBitIsBit(y: bv8, i: nat)
    requires i < 8
    ensures ShiftedBit(y, i) == if Bit(y, i) then 1 else 0
  {
    if i < 4 {
      if i < 2 { if i == 0 {} else {} } else { if i == 2 {} else {} }
    } else {
      if i < 6 { if i == 4 {} else {} } else { if i == 6 {} else {} }
    }
  }

  lemma ProductIsTheLastAccumulator(x: bv8, y: bv8)
    ensures MulFrom(x, y, 0) == Mul(x, y)
  {
    hide MulFrom;
  }

  /** Multiplies by shifting in the bits of y from the top, reducing modulo 0x11D on the way. */
  method ReedSolomonMultiply(x: bv8, y: bv8) returns (r: bv8)
    ensures r == Mul(x, y)
    ensures exists q :: IsProductModulo(x, y, r, q)
  {
    hide Round, ShiftedBit, Bit, IsProductModulo, MulFrom, Mul, Reduced, Added;
    MulFromRound(x, y, 8);
    var z: bv32 := 0;
    ghost var w: bv8 := 0;
    var i := 7;
    while i >= 0
      invariant -1 <= i <= 7
      invariant w == MulFrom(x, y, i + 1) && z == w as bv32
    {
      var bit := ShiftedBit(y, i);
      ShiftedBitIsBit(y, i);
      MulFromRound(x, y, i);
      LoopRound(w, x, bit);
      w := Round(w, x, bit == 1);
      z := Reduced(z);
      z := Added(z, bit, x);
      i := i - 1;
    }
    ProductModulo(x, y);
    ProductIsTheLastAccumulator(x, y);
    Narrow(z, w);
    assert z >> 8 == 0;
    r := z as bv8;
  }

  lemma Narrow(z: bv32, w: bv8)
    requires z == w as bv32
    ensures z >> 8 == 0 && z < 0x100 && z as bv8 == w
  {
  }
}
