/** Reed-Solomon generator and remainder: qrcodegen's `reedSolomonComputeDivisor` and `reedSolomonComputeRemainder`. */
module ReedSolomon {
  import opened GF256
  import opened Multiply
  import opened Polynomial
  import opened Outcomes

  /** The product of (x - 2^i) for i < degree, with its leading coefficient. */
  function Generator(degree: nat): (g: Poly)
    ensures |g| == degree + 1
  {
    if degree == 0 then [1] else TimesLinear(Generator(degree - 1), Pow(2, degree - 1))
  }

  /** The same product, as a value at x. */
  function RootProduct(degree: nat, x: bv8): bv8 {
    if degree == 0 then 1 else Mul(RootProduct(degree - 1, x), Add(x, Pow(2, degree - 1)))
  }

  lemma {:induction false} GeneratorIsProduct(degree: nat, x: bv8)
    ensures Eval(Generator(degree), x) == RootProduct(degree, x)
  {
    hide Mul, Add;
    if degree == 0 {
      EvalSingle(1, x);
    } else {
      GeneratorIsProduct(degree - 1, x);
      EvalTimesLinear(Generator(degree - 1), Pow(2, degree - 1), x);
    }
  }

  lemma {:induction false} GeneratorMonic(degree: nat)
    ensures Generator(degree)[0] == 1
  {
    hide Mul, Add;
    if degree > 0 {
      GeneratorMonic(degree - 1);
      AddLaws(1, 0, 0);
      var g := Generator(degree - 1);
      assert (g + [0])[0] == 1 && ([0] + Scale(g, Pow(2, degree - 1)))[0] == 0;
    }
  }

  /** The generator vanishes at 2^0, ..., 2^(degree - 1) and nowhere else. */
  lemma {:induction false} RootProductZero(degree: nat, x: bv8)
    ensures RootProduct(degree, x) == 0 <==> exists i: nat :: i < degree && x == Pow(2, i)
  {
    hide Mul, Add, Pow;
    if degree > 0 {
      var (rest, f) := (RootProduct(degree - 1, x), Add(x, Pow(2, degree - 1)));
      RootProductZero(degree - 1, x);
      AddCancel(x, Pow(2, degree - 1));
      if rest == 0 {
        MulUnits(f);
      } else if f == 0 {
        MulUnits(rest);
        assert x == Pow(2, degree - 1);
      } else {
        NoZeroDivisors(rest, f);
        forall i: nat | i < degree ensures x != Pow(2, i) {
          if i == degree - 1 {} else {}
        }
      }
    }
  }

  // ----- reedSolomonComputeDivisor

  /** The low coefficients of p that a buffer of n bytes holds. */
  ghost predicate Holds(buffer: seq<bv8>, p: Poly) {
    forall j :: 0 <= j < |buffer| ==> buffer[j] == Coefficient(p, |buffer| - 1 - j)
  }

  /** Multiplies the buffered polynomial by (x - root), from the highest power down. */
  method TimesLinearInPlace(result: array<bv8>, root: bv8, ghost p: Poly)
    requires Holds(result[..], p)
    modifies result
    ensures Holds(result[..], TimesLinear(p, root))
  {
    hide Mul, Add, TimesLinear;
    var j := 0;
    while j < result.Length
      invariant 0 <= j <= result.Length
      invariant forall k :: 0 <= k < j ==> result[k] == Coefficient(TimesLinear(p, root), result.Length - 1 - k)
      invariant forall k :: j <= k < result.Length ==> result[k] == Coefficient(p, result.Length - 1 - k)
    {
      CoefficientTimesLinear(p, root, result.Length - 1 - j);
      var product := ReedSolomonMultiply(result[j], root);
      AddLaws(product, 0, 0);
      result[j] := product;
      if j + 1 < result.Length {
        result[j] := Add(result[j], result[j + 1]);
      }
      j := j + 1;
    }
  }

  method ReedSolomonComputeDivisor(degree: int) returns (r: Result<seq<bv8>>)
    ensures r.Failure? <==> degree < 1 || degree > 255
    ensures r.Success? ==> |r.value| == degree && [1] + r.value == Generator(degree)
    ensures r.Success? ==> forall x :: Eval([1] + r.value, x) == RootProduct(degree, x)
  {
    hide Mul, Add, TimesLinear, Eval, RootProduct;
    if degree < 1 || degree > 255 {
      return Failure(DomainError);
    }
    var result := new bv8[degree](_ => 0);
    result[result.Length - 1] := 1;
    var root: bv8 := 1;
    for i := 0 to degree
      invariant root == Pow(2, i)
      invariant Holds(result[..], Generator(i))
    {
      TimesLinearInPlace(result, root, Generator(i));
      root := ReedSolomonMultiply(root, 2);
    }
    GeneratorMonic(degree);
    BufferIsGenerator(result[..], degree);
    forall x ensures Eval([1] + result[..], x) == RootProduct(degree, x) {
      GeneratorIsProduct(degree, x);
    }
    r := Success(result[..]);
  }

  lemma BufferIsGenerator(buffer: seq<bv8>, degree: nat)
    requires |buffer| == degree && Holds(buffer, Generator(degree))
    ensures [1] + buffer == Generator(degree)
  {
    GeneratorMonic(degree);
    forall k | 0 <= k < degree ensures buffer[k] == Generator(degree)[k + 1] {
      assert buffer[k] == Coefficient(Generator(degree), degree - 1 - k);
    }
  }

  // ----- reedSolomonComputeRemainder

  function DivisionStep(rem: seq<bv8>, divisor: seq<bv8>, factor: bv8): seq<bv8>
    requires |rem| == |divisor| > 0
  {
    Sum(rem[1..] + [0], Scale(divisor, factor))
  }

  function Remainder(data: seq<bv8>, divisor: seq<bv8>): (rem: seq<bv8>)
    requires |divisor| > 0
    ensures |rem| == |divisor|
    decreases |data|, 1
  {
    if |data| == 0 then seq(|divisor|, _ => 0)
    else DivisionStep(Remainder(data[..|data| - 1], divisor), divisor, Factor(data, divisor))
  }

  /** The last coefficient of the quotient. */
  function Factor(data: seq<bv8>, divisor: seq<bv8>): bv8
    requires |divisor| > 0 && |data| > 0
    decreases |data|, 0
  {
    Add(data[|data| - 1], Remainder(data[..|data| - 1], divisor)[0])
  }

  function Quotient(data: seq<bv8>, divisor: seq<bv8>): (q: Poly)
    requires |divisor| > 0
    ensures |q| == |data|
  {
    if |data| == 0 then [] else Quotient(data[..|data| - 1], divisor) + [Factor(data, divisor)]
  }

  lemma {:induction false} EvalZeros(n: nat, x: bv8)
    ensures Eval(seq(n, _ => 0), x) == 0
  {
    hide Mul, Add;
    if n > 0 {
      EvalZeros(n - 1, x);
      assert seq(n, _ => 0 as bv8)[..n - 1] == seq(n - 1, _ => 0 as bv8);
      MulUnits(x);
      AddLaws(0, 0, 0);
    }
  }

  /** One division step subtracts factor times the generator from x times what was left. */
  lemma EvalDivisionStep(rem: seq<bv8>, divisor: seq<bv8>, factor: bv8, x: bv8)
    requires |rem| == |divisor| > 0
    ensures Eval(DivisionStep(rem, divisor, factor), x)
         == Add(Add(Mul(Eval(rem, x), x), Mul(rem[0], Pow(x, |rem|))), Mul(Eval(divisor, x), factor))
  {
    hide Mul, Add;
    var tail := rem[1..];
    EvalSum(tail + [0], Scale(divisor, factor), x);
    EvalScale(divisor, factor, x);
    EvalSnoc(tail, 0, x);
    var t := Mul(Eval(tail, x), x);
    AddLaws(t, 0, 0);
    assert rem == [rem[0]] + tail;
    EvalConcat([rem[0]], tail, x);
    EvalSingle(rem[0], x);
    MulDistributes(Mul(rem[0], Pow(x, |tail|)), Eval(tail, x), x);
    MulAssociative(rem[0], Pow(x, |tail|), x);
    var h := Mul(rem[0], Pow(x, |rem|));
    AddLaws(h, t, h);
    AddLaws(t, h, h);
    AddLaws(h, h, t);
    AddLaws(t, 0, 0);
  }

  lemma XorRegroup(a: bv8, b: bv8, c: bv8, h: bv8, g: bv8)
    ensures Add(Add(a, b), Add(Add(c, h), g)) == Add(Add(a, c), Add(Add(b, h), g))
  {
    hide Add;
    AddLaws(c, h, g);
    AddLaws(b, h, g);
    AddSwap(a, b, c, Add(h, g));
  }

  /** One step of the division on values: D data, R remainder, Q quotient, G = X + d generator, b the next byte. */
  lemma DivisionStepValue(D: bv8, R: bv8, Q: bv8, x: bv8, X: bv8, d: bv8, b: bv8, r: bv8)
    requires Add(Mul(D, X), R) == Mul(Q, Add(X, d))
    ensures var f := Add(b, r);
      Add(Mul(Add(Mul(D, x), b), X), Add(Add(Mul(R, x), Mul(r, X)), Mul(d, f))) == Mul(Add(Mul(Q, x), f), Add(X, d))
  {
    hide Mul, Add;
    var (f, G) := (Add(b, r), Add(X, d));
    MulDistributes(Mul(D, x), b, X);
    MulDistributes(Mul(Q, x), f, G);
    MulDistributes(X, d, f);
    MulDistributes(b, r, X);
    MulCommutative(f, X);
    XorRegroup(Mul(Mul(D, x), X), Mul(b, X), Mul(R, x), Mul(r, X), Mul(d, f));
    // D x X + R x == (D X + R) x == Q G x
    MulDistributes(Mul(D, X), R, x);
    MulAssociative(D, x, X);
    MulCommutative(x, X);
    MulAssociative(D, X, x);
    MulAssociative(Q, G, x);
    MulCommutative(G, x);
    MulAssociative(Q, x, G);
    MulCommutative(f, G);
  }

  /** Division: data times x^degree plus the remainder is the quotient times the generator, everywhere. */
  lemma {:induction false} DivisionTheorem(data: seq<bv8>, divisor: seq<bv8>, x: bv8)
    requires |divisor| > 0
    ensures Eval(data + Remainder(data, divisor), x)
         == Mul(Eval(Quotient(data, divisor), x), Eval([1] + divisor, x))
  {
    hide Mul, Add;
    var n := |divisor|;
    if |data| == 0 {
      assert data + Remainder(data, divisor) == Remainder(data, divisor);
      EvalZeros(n, x);
      MulUnits(Eval([1] + divisor, x));
    } else {
      var (data', b) := (data[..|data| - 1], data[|data| - 1]);
      var (rem, f, q) := (Remainder(data', divisor), Factor(data, divisor), Quotient(data', divisor));
      DivisionTheorem(data', divisor, x);
      assert Remainder(data, divisor) == DivisionStep(rem, divisor, f) && Quotient(data, divisor) == q + [f];
      assert f == Add(b, rem[0]) && data == data' + [b];
      hide Remainder, Quotient, Factor, Eval, DivisionStep;
      EvalConcat(data', rem, x);
      EvalConcat(data, DivisionStep(rem, divisor, f), x);
      EvalSnoc(data', b, x);
      EvalDivisionStep(rem, divisor, f, x);
      EvalSnoc(q, f, x);
      EvalConcat([1], divisor, x);
      EvalSingle(1, x);
      MulUnits(Pow(x, n));
      DivisionStepValue(Eval(data', x), Eval(rem, x), Eval(q, x), x, Pow(x, n), Eval(divisor, x), b, rem[0]);
    }
  }

  method ReedSolomonComputeRemainder(data: seq<bv8>, divisor: seq<bv8>) returns (result: seq<bv8>)
    requires |divisor| > 0
    ensures |result| == |divisor| && result == Remainder(data, divisor)
    ensures forall x :: Eval(data + result, x) == Mul(Eval(Quotient(data, divisor), x), Eval([1] + divisor, x))
  {
    hide Mul, Add;
    result := seq(|divisor|, _ => 0);
    for k := 0 to |data|
      invariant |result| == |divisor| && result == Remainder(data[..k], divisor)
    {
      assert data[..k + 1][..k] == data[..k];
      var factor := Add(data[k], result[0]);
      ghost var before := result;
      result := result[1..];
      result := result + [0];
      ghost var shifted := result;
      for i := 0 to |result|
        invariant |result| == |divisor|
        invariant forall m :: 0 <= m < i ==> result[m] == Add(shifted[m], Mul(divisor[m], factor))
        invariant forall m :: i <= m < |result| ==> result[m] == shifted[m]
      {
        var product := ReedSolomonMultiply(divisor[i], factor);
        result := result[i := Add(result[i], product)];
      }
      assert result == DivisionStep(before, divisor, factor);
    }
    assert data[..|data|] == data;
    forall x ensures Eval(data + result, x) == Mul(Eval(Quotient(data, divisor), x), Eval([1] + divisor, x)) {
      DivisionTheorem(data, divisor, x);
    }
  }

  /** With the divisor of a degree, data followed by its remainder vanishes at every root of that degree. */
  lemma CodewordVanishes(data: seq<bv8>, degree: nat, divisor: seq<bv8>, i: nat)
    requires 0 < degree == |divisor| && [1] + divisor == Generator(degree) && i < degree
    ensures Eval(data + Remainder(data, divisor), Pow(2, i)) == 0
  {
    hide Mul, Add;
    DivisionTheorem(data, divisor, Pow(2, i));
    GeneratorIsProduct(degree, Pow(2, i));
    RootProductZero(degree, Pow(2, i));
    MulUnits(Eval(Quotient(data, divisor), Pow(2, i)));
  }
}
