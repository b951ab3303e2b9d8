/** Arithmetic of the field GF(2^8) with reduction polynomial 0x11D, as the QR encoder uses it for its
  error correction codewords. A byte stands for a polynomial over GF(2); addition is exclusive or. */
module GF256 {

  /** Bit i of a byte. */
  predicate Bit(b: bv8, i: nat)
    requires i < 8
  {
    b & Weight(i) != 0
  }

  function Weight(i: nat): bv8
    requires i < 8
  {
    if i == 0 then 0x01 else if i == 1 then 0x02 else if i == 2 then 0x04 else if i == 3 then 0x08
    else if i == 4 then 0x10 else if i == 5 then 0x20 else if i == 6 then 0x40 else 0x80
  }

  /** Addition of the field, which is also its subtraction. */
  function Add(a: bv8, b: bv8): bv8 {
    a ^ b
  }

  function Pick(c: bool, x: bv8): bv8 {
    if c then x else 0
  }

  /** Multiplication by x, that is by 0x02. */
  function XTime(z: bv8): bv8 {
    (z << 1) ^ ((z >> 7) * 0x1D)
  }

  /** One round of the multiplication loop. */
  function Round(z: bv8, x: bv8, bit: bool): bv8 {
    Add(XTime(z), Pick(bit, x))
  }

  /** The accumulator after the multiplier bits 7, 6, ..., i have been consumed. */
  function MulFrom(x: bv8, y: bv8, i: nat): bv8
    requires i <= 8
    decreases 8 - i
  {
    if i == 8 then 0 else Round(MulFrom(x, y, i + 1), x, Bit(y, i))
  }

  /** The field product. */
  function Mul(x: bv8, y: bv8): bv8 {
    MulFrom(x, y, 0)
  }

  // ----- laws of Add and XTime

  lemma AddLaws(a: bv8, b: bv8, c: bv8)
    ensures Add(a, b) == Add(b, a)
    ensures Add(Add(a, b), c) == Add(a, Add(b, c))
    ensures Add(a, 0) == a && Add(0, a) == a && Add(a, a) == 0
  {
  }

  lemma AddSwap(a: bv8, b: bv8, c: bv8, d: bv8)
    ensures Add(Add(a, b), Add(c, d)) == Add(Add(a, c), Add(b, d))
  {
    hide Add;
    AddLaws(a, b, Add(c, d));
    AddLaws(b, c, d);
    AddLaws(c, b, d);
    AddLaws(a, c, Add(b, d));
  }

  lemma AddCancel(a: bv8, b: bv8)
    ensures Add(a, Add(a, b)) == b
    ensures Add(a, b) == 0 <==> a == b
  {
  }

  lemma XTimeAdd(a: bv8, b: bv8)
    ensures XTime(Add(a, b)) == Add(XTime(a), XTime(b))
    ensures XTime(0) == 0
  {
  }

  // ----- both linearities of the loop

  lemma {:induction false} MulFromAddLeft(x: bv8, x': bv8, y: bv8, i: nat)
    requires i <= 8
    ensures MulFrom(Add(x, x'), y, i) == Add(MulFrom(x, y, i), MulFrom(x', y, i))
    decreases 8 - i
  {
    hide Add, XTime, Bit;
    if i == 8 {
      AddLaws(0, 0, 0);
    } else {
      MulFromAddLeft(x, x', y, i + 1);
      var (z, z') := (MulFrom(x, y, i + 1), MulFrom(x', y, i + 1));
      XTimeAdd(z, z');
      AddSwap(XTime(z), Pick(Bit(y, i), x), XTime(z'), Pick(Bit(y, i), x'));
      AddLaws(0, 0, 0);
    }
  }

  lemma {:induction false} MulFromXTimeLeft(x: bv8, y: bv8, i: nat)
    requires i <= 8
    ensures MulFrom(XTime(x), y, i) == XTime(MulFrom(x, y, i))
    decreases 8 - i
  {
    hide Add, XTime, Bit;
    XTimeAdd(0, 0);
    if i < 8 {
      MulFromXTimeLeft(x, y, i + 1);
      XTimeAdd(XTime(MulFrom(x, y, i + 1)), Pick(Bit(y, i), x));
    }
  }

  lemma {:induction false} MulFromZeroLeft(y: bv8, i: nat)
    requires i <= 8
    ensures MulFrom(0, y, i) == 0
    decreases 8 - i
  {
    if i < 8 { MulFromZeroLeft(y, i + 1); }
  }

  /** The bits 7, ..., i of y, moved down to weight 0. */
  function Top(y: bv8, i: nat): bv8
    requires i <= 8
  {
    if i == 0 then y else if i == 1 then y >> 1 else if i == 2 then y >> 2 else if i == 3 then y >> 3
    else if i == 4 then y >> 4 else if i == 5 then y >> 5 else if i == 6 then y >> 6 else if i == 7 then y >> 7
    else 0
  }

  lemma TopStep(y: bv8, i: nat)
    requires i < 8
    ensures Top(y, i) == Add(XTime(Top(y, i + 1)), Pick(Bit(y, i), 1))
  {
    if i < 4 {
      if i < 2 {
        if i == 0 {} else {}
      } else {
        if i == 2 {} else {}
      }
    } else if i < 6 {
      if i == 4 {} else {}
    } else {
      if i == 6 {} else {}
    }
  }

  lemma {:induction false} MulFromOneLeft(y: bv8, i: nat)
    requires i <= 8
    ensures MulFrom(1, y, i) == Top(y, i)
    decreases 8 - i
  {
    hide Add, XTime, Bit;
    if i < 8 {
      MulFromOneLeft(y, i + 1);
      TopStep(y, i);
    }
  }

  // ----- the ring laws

  /** The loop consumes y bit by bit from the top; so far it has multiplied x by what it consumed. */
  lemma {:induction false} MulFromSwapped(x: bv8, y: bv8, i: nat)
    requires i <= 8
    ensures MulFrom(x, y, i) == Mul(Top(y, i), x)
    decreases 8 - i
  {
    hide Add, XTime, Bit, Top;
    MulFromZeroLeft(x, 0);
    if i == 8 {
      assert Top(y, 8) == 0 by { TopAt8(y); }
    } else {
      MulFromSwapped(x, y, i + 1);
      TopStep(y, i);
      MulFromAddLeft(XTime(Top(y, i + 1)), Pick(Bit(y, i), 1), x, 0);
      MulFromXTimeLeft(Top(y, i + 1), x, 0);
      MulFromOneLeft(x, 0);
      TopAt8(x);
    }
  }

  lemma TopAt8(y: bv8)
    ensures Top(y, 8) == 0 && Top(y, 0) == y
  {
  }

  lemma MulCommutative(x: bv8, y: bv8)
    ensures Mul(x, y) == Mul(y, x)
  {
    hide Add, XTime, Bit;
    MulFromSwapped(x, y, 0);
  }

  lemma MulUnits(y: bv8)
    ensures Mul(1, y) == y && Mul(y, 1) == y
    ensures Mul(0, y) == 0 && Mul(y, 0) == 0
  {
    hide Add, XTime, Bit;
    MulFromOneLeft(y, 0);
    MulFromZeroLeft(y, 0);
    MulCommutative(1, y);
    MulCommutative(0, y);
  }

  lemma MulDistributes(x: bv8, y: bv8, z: bv8)
    ensures Mul(Add(x, y), z) == Add(Mul(x, z), Mul(y, z))
    ensures Mul(z, Add(x, y)) == Add(Mul(z, x), Mul(z, y))
  {
    hide Add, XTime, Bit, MulFrom;
    MulFromAddLeft(x, y, z, 0);
    MulCommutative(Add(x, y), z);
    MulCommutative(x, z);
    MulCommutative(y, z);
  }

  lemma MulXTime(x: bv8, y: bv8)
    ensures Mul(x, XTime(y)) == XTime(Mul(x, y))
  {
    hide Add, XTime, Bit, MulFrom;
    MulCommutative(x, XTime(y));
    MulFromXTimeLeft(y, x, 0);
    MulCommutative(x, y);
  }

  lemma {:induction false} MulFromAssociative(x: bv8, y: bv8, z: bv8, i: nat, w: bv8, v: bv8)
    requires i <= 8 && w == Mul(x, y) && v == MulFrom(y, z, i)
    ensures MulFrom(w, z, i) == Mul(x, v)
    decreases 8 - i
  {
    hide Add, XTime, Bit, Mul;
    MulUnits(x);
    if i < 8 {
      MulFromAssociative(x, y, z, i + 1, w, MulFrom(y, z, i + 1));
      MulXTime(x, MulFrom(y, z, i + 1));
      MulDistributes(XTime(MulFrom(y, z, i + 1)), Pick(Bit(z, i), y), x);
    }
  }

  lemma MulAssociative(x: bv8, y: bv8, z: bv8)
    ensures Mul(Mul(x, y), z) == Mul(x, Mul(y, z))
  {
    hide Add, XTime, Bit, MulFrom;
    MulFromAssociative(x, y, z, 0, Mul(x, y), MulFrom(y, z, 0));
  }

  // ----- no zero divisors

  function Unrolled(x: bv8, y: bv8): bv8 {
    Round(Round(Round(Round(Round(Round(Round(Round(0,
      x, y & 0x80 != 0), x, y & 0x40 != 0), x, y & 0x20 != 0), x, y & 0x10 != 0),
      x, y & 0x08 != 0), x, y & 0x04 != 0), x, y & 0x02 != 0), x, y & 0x01 != 0)
  }

  lemma BitTable(y: bv8)
    ensures Bit(y, 7) == (y & 0x80 != 0) && Bit(y, 6) == (y & 0x40 != 0)
    ensures Bit(y, 5) == (y & 0x20 != 0) && Bit(y, 4) == (y & 0x10 != 0)
    ensures Bit(y, 3) == (y & 0x08 != 0) && Bit(y, 2) == (y & 0x04 != 0)
    ensures Bit(y, 1) == (y & 0x02 != 0) && Bit(y, 0) == (y & 0x01 != 0)
  {
  }

  lemma MulFromRound(x: bv8, y: bv8, i: nat)
    requires i <= 8
    ensures i == 8 ==> MulFrom(x, y, i) == 0
    ensures i < 8 ==> MulFrom(x, y, i) == Round(MulFrom(x, y, i + 1), x, Bit(y, i))
  {
  }

  lemma MulUnrolled(x: bv8, y: bv8)
    ensures Mul(x, y) == Unrolled(x, y)
  {
    hide Round, Bit, MulFrom;
    MulFromRound(x, y, 8);
    MulFromRound(x, y, 7);
    MulFromRound(x, y, 6);
    MulFromRound(x, y, 5);
    MulFromRound(x, y, 4);
    MulFromRound(x, y, 3);
    MulFromRound(x, y, 2);
    MulFromRound(x, y, 1);
    MulFromRound(x, y, 0);
    BitTable(y);
  }

  lemma LowOddProduct(x: bv8, y: bv8)
    requires x & 1 == 1 && y & 1 == 1 && y & 0x80 == 0
    ensures Unrolled(x, y) != 0
  {
  }

  lemma HighOddProduct(x: bv8, y: bv8)
    requires x & 1 == 1 && y & 1 == 1 && y & 0x80 != 0
    ensures Unrolled(x, y) != 0
  {
  }

  lemma Halve(x: bv8)
    requires x & 1 == 0 && x != 0
    ensures x == XTime(x >> 1) && x >> 1 != 0 && x >> 1 < x
  {
  }

  lemma XTimeNonzero(z: bv8)
    requires z != 0
    ensures XTime(z) != 0
  {
  }

  /** Factors of 0x02 are pulled out of both operands until both are odd. */
  lemma {:induction false} NoZeroDivisors(x: bv8, y: bv8)
    requires x != 0 && y != 0
    ensures Mul(x, y) != 0
    decreases x, y
  {
    hide MulFrom, Unrolled, XTime;
    if x & 1 == 0 {
      Halve(x);
      NoZeroDivisors(x >> 1, y);
      MulCommutative(x, y);
      MulXTime(y, x >> 1);
      MulCommutative(x >> 1, y);
      XTimeNonzero(Mul(x >> 1, y));
    } else if y & 1 == 0 {
      Halve(y);
      NoZeroDivisors(x, y >> 1);
      MulXTime(x, y >> 1);
      XTimeNonzero(Mul(x, y >> 1));
    } else {
      MulUnrolled(x, y);
      if y & 0x80 == 0 { LowOddProduct(x, y); } else { HighOddProduct(x, y); }
    }
  }

  lemma MulCancel(x: bv8, y: bv8, z: bv8)
    requires z != 0 && Mul(x, z) == Mul(y, z)
    ensures x == y
  {
    hide MulFrom, XTime, Add;
    MulDistributes(x, y, z);
    AddCancel(Mul(x, z), Mul(y, z));
    AddCancel(x, y);
    if x != y { NoZeroDivisors(Add(x, y), z); }
  }

  // ----- powers

  function Pow(a: bv8, n: nat): bv8 {
    if n == 0 then 1 else Mul(Pow(a, n - 1), a)
  }

  lemma {:induction false} PowAdd(a: bv8, m: nat, n: nat)
    ensures Pow(a, m + n) == Mul(Pow(a, m), Pow(a, n))
  {
    hide Mul;
    if n == 0 {
      MulUnits(Pow(a, m));
    } else {
      PowAdd(a, m, n - 1);
      MulAssociative(Pow(a, m), Pow(a, n - 1), a);
    }
  }

  lemma {:induction false} PowNonzero(a: bv8, n: nat)
    requires a != 0
    ensures Pow(a, n) != 0
  {
    if n > 0 {
      PowNonzero(a, n - 1);
      NoZeroDivisors(Pow(a, n - 1), a);
    }
  }

  lemma {:induction false} PowMultiple(a: bv8, m: nat, k: nat)
    requires Pow(a, m) == 1
    ensures Pow(a, k * m) == 1
  {
    hide Mul;
    if k > 0 {
      PowMultiple(a, m, k - 1);
      assert k * m == (k - 1) * m + m;
      PowAdd(a, (k - 1) * m, m);
      MulUnits(1);
    }
  }

  lemma PowerTableStep(m: nat, a: bv8, n: nat, b: bv8)
    requires Pow(2, m) == a && Pow(2, n) == b
    ensures Pow(2, m + n) == Unrolled(a, b)
  {
    hide Pow, Mul, Unrolled;
    PowAdd(2, m, n);
    MulUnrolled(a, b);
  }

  lemma PowOne()
    ensures Pow(2, 1) == 2
  {
    hide Mul;
    assert Pow(2, 0) == 1;
    MulUnits(2);
  }

  lemma PowerTable(n: nat)
    requires n == 15 || n == 51 || n == 85 || n == 255
    ensures Pow(2, n) == if n == 15 then 0x26 else if n == 51 then 0x0A else if n == 85 then 0xD6 else 1
  {
    hide Pow;
    PowOne();
    PowerTableStep(1, 0x02, 1, 0x02);
    PowerTableStep(2, 0x04, 2, 0x04);
    PowerTableStep(4, 0x10, 1, 0x02);
    PowerTableStep(5, 0x20, 5, 0x20);
    PowerTableStep(10, 0x74, 5, 0x20);
    PowerTableStep(15, 0x26, 2, 0x04);
    PowerTableStep(17, 0x98, 17, 0x98);
    PowerTableStep(34, 0x4E, 17, 0x98);
    PowerTableStep(51, 0x0A, 34, 0x4E);
    PowerTableStep(85, 0xD6, 85, 0xD6);
    PowerTableStep(170, 0xD7, 85, 0xD6);
  }

  /** The least positive exponent k <= n with Pow(2, k) == 1. */
  predicate LeastExponent(k: nat, n: nat) {
    0 < k <= n && Pow(2, k) == 1 && forall j: nat | 0 < j < k :: Pow(2, j) != 1
  }

  lemma {:induction false} LeastExponentExists(n: nat)
    requires 0 < n && Pow(2, n) == 1
    ensures exists k :: LeastExponent(k, n)
  {
    hide Pow;
    if j: nat :| 0 < j < n && Pow(2, j) == 1 {
      LeastExponentExists(j);
      var k :| LeastExponent(k, j);
      assert LeastExponent(k, n);
    } else {
      assert LeastExponent(n, n);
    }
  }

  /** The byte 0x02 generates a cyclic group of exactly 255 elements. */
  lemma GeneratorOrder(n: nat)
    requires 0 < n < 255
    ensures Pow(2, n) != 1
  {
    hide Pow, Mul;
    if Pow(2, n) == 1 {
      LeastExponentExists(n);
      var k :| LeastExponent(k, n);
      PowerTable(255);
      var q, r := Quotient(255, k);
      PowAdd(2, q * k, r);
      PowMultiple(2, k, q);
      MulUnits(Pow(2, r));
      assert r == 0;
      var m := DivisorsOf255(q, k);
      PowMultiple(2, k, m);
      PowerTable(m * k);
    }
  }

  lemma ProductAtLeast(q: nat, k: nat)
    requires 17 <= q && 16 <= k
    ensures q * k >= 17 * 16
  {
    assert q * k >= 17 * k;
  }

  lemma Quotient(n: nat, k: nat) returns (q: nat, r: nat)
    requires 0 < k
    ensures n == q * k + r && r < k
  {
    if n < k {
      q, r := 0, n;
    } else {
      q, r := Quotient(n - k, k);
      assert (q + 1) * k == q * k + k;
      q := q + 1;
    }
  }

  /** A proper divisor of 255 divides 15, 51 or 85. */
  lemma DivisorsOf255(q: nat, k: nat) returns (m: nat)
    requires q * k == 255 && k < 255
    ensures m * k == 15 || m * k == 51 || m * k == 85
  {
    if q < 17 {
      m := if q == 15 then 3 else 1;
      assert q == 3 || q == 5 || q == 15;
    } else {
      if k > 15 {
        ProductAtLeast(q, k);
        assert false;
      }
      m := if k == 1 then 15 else if k == 3 then 5 else if k == 5 then 3 else 1;
    }
  }

  lemma PowersDistinct(i: nat, j: nat)
    requires i < j < 255
    ensures Pow(2, i) != Pow(2, j)
  {
    hide Pow, Mul;
    if Pow(2, i) == Pow(2, j) {
      PowAdd(2, j - i, i);
      PowNonzero(2, i);
      MulUnits(Pow(2, i));
      MulCancel(Pow(2, j - i), 1, Pow(2, i));
      GeneratorOrder(j - i);
    }
  }
}
