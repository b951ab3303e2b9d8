/** How far apart the codewords of the Reed-Solomon code are, and what that says about damaged symbols. */
module CodeDistance {
  import opened GF256
  import opened Polynomial
  import opened ReedSolomon

  /** The word, as a polynomial, vanishes at 2^0, ..., 2^(degree - 1). */
  ghost predicate IsCodeword(w: seq<bv8>, degree: nat) {
    forall i: nat | i < degree :: Eval(w, Pow(2, i)) == 0
  }

  function HammingDistance(u: seq<bv8>, v: seq<bv8>): nat
    requires |u| == |v|
  {
    if |u| == 0 then 0
    else HammingDistance(u[..|u| - 1], v[..|u| - 1]) + (if u[|u| - 1] == v[|u| - 1] then 0 else 1)
  }

  // ----- power sums over the places where two words differ

  datatype Term = Term(coefficient: bv8, locator: bv8)

  function PowerSum(ts: seq<Term>, i: nat): bv8 {
    if |ts| == 0 then 0
    else Add(PowerSum(ts[..|ts| - 1], i), Mul(ts[|ts| - 1].coefficient, Pow(ts[|ts| - 1].locator, i)))
  }

  /** The nonzero coefficients of w, each with the power of 2 at its exponent plus `shift`. */
  function Terms(w: seq<bv8>, shift: nat): seq<Term> {
    if |w| == 0 then []
    else Terms(w[..|w| - 1], shift + 1) + (if w[|w| - 1] == 0 then [] else [Term(w[|w| - 1], Pow(2, shift))])
  }

  lemma {:induction false} PowMul(a: bv8, m: nat, n: nat)
    ensures Pow(Pow(a, m), n) == Pow(a, m * n)
  {
    hide Mul;
    if n > 0 {
      PowMul(a, m, n - 1);
      assert m * n == m * (n - 1) + m;
      PowAdd(a, m * (n - 1), m);
    }
  }

  lemma PowSwap(i: nat, s: nat)
    ensures Pow(Pow(2, s), i) == Pow(Pow(2, i), s)
  {
    hide Pow;
    PowMul(2, s, i);
    PowMul(2, i, s);
    assert s * i == i * s;
  }

  lemma {:induction false} PowerSumOfTerms(w: seq<bv8>, shift: nat, i: nat)
    ensures PowerSum(Terms(w, shift), i) == Mul(Eval(w, Pow(2, i)), Pow(Pow(2, i), shift))
  {
    hide Mul, Add;
    var y := Pow(2, i);
    if |w| == 0 {
      MulUnits(Pow(y, shift));
    } else {
      var (w', c) := (w[..|w| - 1], w[|w| - 1]);
      PowerSumOfTerms(w', shift + 1, i);
      var e := Eval(w', y);
      MulDistributes(Mul(e, y), c, Pow(y, shift));
      MulAssociative(e, y, Pow(y, shift));
      MulCommutative(y, Pow(y, shift));
      PowSwap(i, shift);
      if c == 0 {
        MulUnits(Pow(y, shift));
        AddLaws(Mul(e, Pow(y, shift + 1)), 0, 0);
        assert Terms(w, shift) == Terms(w', shift + 1);
      } else {
        var t := Term(c, Pow(2, shift));
        assert (Terms(w', shift + 1) + [t])[..|Terms(w', shift + 1)|] == Terms(w', shift + 1);
      }
    }
  }

  ghost predicate Independent(ts: seq<Term>) {
    && (forall m :: 0 <= m < |ts| ==> ts[m].coefficient != 0)
    && (forall m, m' :: 0 <= m < m' < |ts| ==> ts[m].locator != ts[m'].locator)
  }

  ghost predicate IsPower(x: bv8, low: nat) {
    exists e: nat :: low <= e < 255 && x == Pow(2, e)
  }

  lemma {:induction false} TermsIndependent(w: seq<bv8>, shift: nat)
    requires shift + |w| <= 255
    ensures Independent(Terms(w, shift))
    ensures forall t :: t in Terms(w, shift) ==> IsPower(t.locator, shift)
  {
    hide Pow;
    if |w| > 0 {
      var ts := Terms(w[..|w| - 1], shift + 1);
      TermsIndependent(w[..|w| - 1], shift + 1);
      forall t | t in ts ensures t.locator != Pow(2, shift) && IsPower(t.locator, shift) {
        assert IsPower(t.locator, shift + 1);
        var e: nat :| shift + 1 <= e < 255 && t.locator == Pow(2, e);
        PowersDistinct(shift, e);
      }
      assert IsPower(Pow(2, shift), shift);
    }
  }

  // ----- elimination

  /** Every term scaled by the difference of its locator and X. */
  function Eliminate(ts: seq<Term>, X: bv8): seq<Term> {
    seq(|ts|, m requires 0 <= m < |ts| =>
      Term(Mul(ts[m].coefficient, Add(ts[m].locator, X)), ts[m].locator))
  }

  lemma {:induction false} PowerSumEliminate(ts: seq<Term>, X: bv8, i: nat)
    ensures PowerSum(Eliminate(ts, X), i) == Add(PowerSum(ts, i + 1), Mul(PowerSum(ts, i), X))
  {
    hide Mul, Add;
    if |ts| == 0 {
      MulUnits(X);
      AddLaws(0, 0, 0);
    } else {
      var (ts', t) := (ts[..|ts| - 1], ts[|ts| - 1]);
      PowerSumEliminate(ts', X, i);
      assert Eliminate(ts, X)[..|ts| - 1] == Eliminate(ts', X);
      var p := Pow(t.locator, i);
      // (c*(L + X))*p == c*(p*L) + (c*p)*X
      MulDistributes(t.locator, X, t.coefficient);
      MulDistributes(Mul(t.coefficient, t.locator), Mul(t.coefficient, X), p);
      MulAssociative(t.coefficient, t.locator, p);
      MulCommutative(t.locator, p);
      MulAssociative(t.coefficient, X, p);
      MulCommutative(X, p);
      MulAssociative(t.coefficient, p, X);
      MulDistributes(PowerSum(ts', i), Mul(t.coefficient, p), X);
      AddSwap(PowerSum(ts', i + 1), Mul(PowerSum(ts', i), X),
        Mul(t.coefficient, Pow(t.locator, i + 1)), Mul(Mul(t.coefficient, p), X));
    }
  }

  /** A Vandermonde system with distinct locators has no nonzero solution. */
  lemma {:induction false} NoVanishingPowerSums(ts: seq<Term>)
    requires |ts| > 0 && Independent(ts)
    ensures exists i: nat :: i < |ts| && PowerSum(ts, i) != 0
    decreases |ts|
  {
    hide Mul, Add;
    var (front, t) := (ts[..|ts| - 1], ts[|ts| - 1]);
    if |front| == 0 {
      MulUnits(t.coefficient);
      AddLaws(t.coefficient, 0, 0);
      assert PowerSum(ts, 0) != 0;
    } else {
      var X := t.locator;
      var es := Eliminate(front, X);
      forall m | 0 <= m < |es| ensures es[m].coefficient != 0 {
        AddCancel(front[m].locator, X);
        NoZeroDivisors(front[m].coefficient, Add(front[m].locator, X));
      }
      NoVanishingPowerSums(es);
      var i: nat :| i < |es| && PowerSum(es, i) != 0;
      if PowerSum(ts, i) == 0 && PowerSum(ts, i + 1) == 0 {
        var p := Mul(t.coefficient, Pow(X, i));
        PowerSumEliminate(front, X, i);
        AddCancel(PowerSum(front, i), p);
        AddCancel(PowerSum(front, i + 1), Mul(t.coefficient, Pow(X, i + 1)));
        MulAssociative(t.coefficient, Pow(X, i), X);
        AddLaws(Mul(p, X), 0, 0);
        assert false;
      }
    }
  }

  // ----- the distance

  lemma {:induction false} DistanceCountsTerms(u: seq<bv8>, v: seq<bv8>, shift: nat)
    requires |u| == |v|
    ensures |Terms(Sum(u, v), shift)| == HammingDistance(u, v)
    ensures u != v ==> HammingDistance(u, v) > 0
  {
    hide Add;
    if |u| > 0 {
      var n := |u| - 1;
      DistanceCountsTerms(u[..n], v[..n], shift + 1);
      assert Sum(u, v)[..n] == Sum(u[..n], v[..n]);
      AddCancel(u[n], v[n]);
      if u[..n] == v[..n] && u[n] == v[n] {
        assert u == u[..n] + [u[n]] && v == v[..n] + [v[n]];
      }
    }
  }

  /** Two different codewords of at most 255 bytes differ in more than `degree` places. */
  lemma CodewordsFarApart(u: seq<bv8>, v: seq<bv8>, degree: nat)
    requires |u| == |v| <= 255 && u != v
    requires IsCodeword(u, degree) && IsCodeword(v, degree)
    ensures HammingDistance(u, v) >= degree + 1
  {
    hide Mul, Add, Pow;
    var ts := Terms(Sum(u, v), 0);
    DistanceCountsTerms(u, v, 0);
    TermsIndependent(Sum(u, v), 0);
    NoVanishingPowerSums(ts);
    var i: nat :| i < |ts| && PowerSum(ts, i) != 0;
    if i < degree {
      PowerSumOfTerms(Sum(u, v), 0, i);
      EvalSum(u, v, Pow(2, i));
      assert Eval(u, Pow(2, i)) == 0 && Eval(v, Pow(2, i)) == 0;
      AddLaws(0, 0, 0);
      MulUnits(Pow(Pow(2, i), 0));
      assert false;
    }
  }

  /** Different data blocks of one length yield codewords that differ in more than `degree` places. */
  lemma EncodedBlocksFarApart(a: seq<bv8>, b: seq<bv8>, degree: nat, divisor: seq<bv8>)
    requires 0 < degree == |divisor| && [1] + divisor == Generator(degree)
    requires |a| == |b| && |a| + degree <= 255 && a != b
    ensures HammingDistance(a + Remainder(a, divisor), b + Remainder(b, divisor)) >= degree + 1
  {
    EncodedIsCodeword(a, degree, divisor);
    EncodedIsCodeword(b, degree, divisor);
    var (u, v) := (a + Remainder(a, divisor), b + Remainder(b, divisor));
    assert u[..|a|] == a && v[..|b|] == b;
    CodewordsFarApart(u, v, degree);
  }

  lemma EncodedIsCodeword(data: seq<bv8>, degree: nat, divisor: seq<bv8>)
    requires 0 < degree == |divisor| && [1] + divisor == Generator(degree)
    ensures IsCodeword(data + Remainder(data, divisor), degree)
  {
    hide Pow, Eval;
    forall i: nat | i < degree ensures Eval(data + Remainder(data, divisor), Pow(2, i)) == 0 {
      CodewordVanishes(data, degree, divisor, i);
    }
  }

  /** The remainder is the only completion of the data to a codeword. */
  lemma RemainderUnique(data: seq<bv8>, rem: seq<bv8>, degree: nat, divisor: seq<bv8>)
    requires 0 < degree == |divisor| == |rem| && [1] + divisor == Generator(degree)
    requires |data| + degree <= 255
    ensures IsCodeword(data + rem, degree) <==> rem == Remainder(data, divisor)
  {
    EncodedIsCodeword(data, degree, divisor);
    var (u, v) := (data + rem, data + Remainder(data, divisor));
    if IsCodeword(u, degree) && rem != Remainder(data, divisor) {
      assert u[|data|..] == rem && v[|data|..] == Remainder(data, divisor);
      CodewordsFarApart(u, v, degree);
      CommonPrefixDistance(data, rem, Remainder(data, divisor));
      assert false;
    }
  }

  lemma {:induction false} CommonPrefixDistance(data: seq<bv8>, r: seq<bv8>, s: seq<bv8>)
    requires |r| == |s|
    ensures HammingDistance(data + r, data + s) <= |r|
  {
    if |r| == 0 {
      assert data + r == data && data + s == data;
      SelfDistance(data);
    } else {
      var n := |r| - 1;
      assert (data + r)[..|data| + n] == data + r[..n] && (data + s)[..|data| + n] == data + s[..n];
      CommonPrefixDistance(data, r[..n], s[..n]);
    }
  }

  lemma {:induction false} SelfDistance(u: seq<bv8>)
    ensures HammingDistance(u, u) == 0
  {
    if |u| > 0 { SelfDistance(u[..|u| - 1]); }
  }

  lemma {:induction false} DistanceTriangle(u: seq<bv8>, w: seq<bv8>, v: seq<bv8>)
    requires |u| == |w| == |v|
    ensures HammingDistance(u, v) <= HammingDistance(w, u) + HammingDistance(w, v)
  {
    if |u| > 0 {
      var n := |u| - 1;
      DistanceTriangle(u[..n], w[..n], v[..n]);
    }
  }

  /** A received block with at most degree/2 damaged bytes comes from at most one data block. */
  lemma DamageIsCorrectable(received: seq<bv8>, a: seq<bv8>, b: seq<bv8>, degree: nat, divisor: seq<bv8>)
    requires 0 < degree == |divisor| && [1] + divisor == Generator(degree)
    requires |a| == |b| && |received| == |a| + degree <= 255
    requires 2 * HammingDistance(received, a + Remainder(a, divisor)) <= degree
    requires 2 * HammingDistance(received, b + Remainder(b, divisor)) <= degree
    ensures a == b
  {
    if a != b {
      EncodedBlocksFarApart(a, b, degree, divisor);
      DistanceTriangle(a + Remainder(a, divisor), received, b + Remainder(b, divisor));
      assert false;
    }
  }
}
