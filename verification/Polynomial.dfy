/** Polynomials over GF(2^8), as coefficient sequences from the highest power to the lowest. */
module Polynomial {
  import opened GF256

  type Poly = seq<bv8>

  /** The value at x, by Horner's rule. */
  function Eval(p: Poly, x: bv8): bv8 {
    if |p| == 0 then 0 else Add(Mul(Eval(p[..|p| - 1], x), x), p[|p| - 1])
  }

  function Scale(p: Poly, c: bv8): Poly {
    seq(|p|, i requires 0 <= i < |p| => Mul(p[i], c))
  }

  function Sum(p: Poly, q: Poly): Poly
    requires |p| == |q|
  {
    seq(|p|, i requires 0 <= i < |p| => Add(p[i], q[i]))
  }

  lemma EvalSnoc(p: Poly, c: bv8, x: bv8)
    ensures Eval(p + [c], x) == Add(Mul(Eval(p, x), x), c)
  {
    hide Mul, Add;
    assert (p + [c])[..|p|] == p;
  }

  /** Writing two polynomials one after the other shifts the first one up. */
  lemma {:induction false} EvalConcat(p: Poly, q: Poly, x: bv8)
    ensures Eval(p + q, x) == Add(Mul(Eval(p, x), Pow(x, |q|)), Eval(q, x))
  {
    hide Mul, Add;
    if |q| == 0 {
      assert p + q == p;
      MulUnits(Eval(p, x));
      AddLaws(Eval(p, x), 0, 0);
    } else {
      var (q', c) := (q[..|q| - 1], q[|q| - 1]);
      assert p + q == (p + q') + [c];
      EvalSnoc(p + q', c, x);
      EvalConcat(p, q', x);
      var (s, t) := (Mul(Eval(p, x), Pow(x, |q'|)), Eval(q', x));
      MulDistributes(s, t, x);
      MulAssociative(Eval(p, x), Pow(x, |q'|), x);
      AddLaws(Mul(s, x), Mul(t, x), c);
    }
  }

  lemma {:induction false} EvalSum(p: Poly, q: Poly, x: bv8)
    requires |p| == |q|
    ensures Eval(Sum(p, q), x) == Add(Eval(p, x), Eval(q, x))
  {
    hide Mul, Add;
    if |p| == 0 {
      AddLaws(0, 0, 0);
    } else {
      var n := |p| - 1;
      EvalSum(p[..n], q[..n], x);
      assert Sum(p, q)[..n] == Sum(p[..n], q[..n]);
      MulDistributes(Eval(p[..n], x), Eval(q[..n], x), x);
      AddSwap(Mul(Eval(p[..n], x), x), Mul(Eval(q[..n], x), x), p[n], q[n]);
    }
  }

  lemma {:induction false} EvalScale(p: Poly, c: bv8, x: bv8)
    ensures Eval(Scale(p, c), x) == Mul(Eval(p, x), c)
  {
    hide Mul, Add;
    if |p| == 0 {
      MulUnits(c);
    } else {
      var n := |p| - 1;
      EvalScale(p[..n], c, x);
      assert Scale(p, c)[..n] == Scale(p[..n], c);
      var e := Eval(p[..n], x);
      MulDistributes(Mul(e, x), p[n], c);
      MulAssociative(e, c, x);
      MulCommutative(c, x);
      MulAssociative(e, x, c);
    }
  }

  lemma EvalLeadingZero(p: Poly, x: bv8)
    ensures Eval([0] + p, x) == Eval(p, x)
  {
    hide Mul, Add;
    EvalConcat([0], p, x);
    EvalSingle(0, x);
    MulUnits(Pow(x, |p|));
    AddLaws(Eval(p, x), 0, 0);
  }

  lemma EvalSingle(c: bv8, x: bv8)
    ensures Eval([c], x) == c
  {
    hide Mul, Add;
    assert [c][..0] == [];
    MulUnits(x);
    AddLaws(c, 0, 0);
  }

  // ----- multiplication by a linear factor

  /** The product of p and (x - r). */
  function TimesLinear(p: Poly, r: bv8): Poly {
    Sum(p + [0], [0] + Scale(p, r))
  }

  lemma EvalTimesLinear(p: Poly, r: bv8, x: bv8)
    ensures Eval(TimesLinear(p, r), x) == Mul(Eval(p, x), Add(x, r))
  {
    hide Mul, Add;
    EvalSum(p + [0], [0] + Scale(p, r), x);
    EvalSnoc(p, 0, x);
    AddLaws(Mul(Eval(p, x), x), 0, 0);
    EvalLeadingZero(Scale(p, r), x);
    EvalScale(p, r, x);
    MulDistributes(x, r, Eval(p, x));
  }

  /** The coefficient of x^e. */
  function Coefficient(p: Poly, e: nat): bv8 {
    if e < |p| then p[|p| - 1 - e] else 0
  }

  lemma CoefficientTimesLinear(p: Poly, r: bv8, e: nat)
    ensures Coefficient(TimesLinear(p, r), e)
         == Add(Mul(Coefficient(p, e), r), if e == 0 then 0 else Coefficient(p, e - 1))
  {
    hide Mul, Add;
    MulUnits(r);
    var c := Mul(Coefficient(p, e), r);
    AddLaws(c, if e == 0 then 0 else Coefficient(p, e - 1), 0);
    AddLaws(if e == 0 then 0 else Coefficient(p, e - 1), c, 0);
  }
}
