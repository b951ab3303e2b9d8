/** Weights that an assignment spreads over places, and the load of each place. */
module Sums {

  /** The sum of the weights that the assignment puts into place f. */
  function Load(w: seq<nat>, a: seq<nat>, f: nat): nat
    requires |w| == |a|
  {
    if |w| == 0 then 0
    else Load(w[..|w| - 1], a[..|a| - 1], f) + (if a[|a| - 1] == f then w[|w| - 1] else 0)
  }

  function Total(w: seq<nat>): nat {
    if |w| == 0 then 0 else Total(w[..|w| - 1]) + w[|w| - 1]
  }

  predicate IsAssignment(a: seq<nat>, m: nat) {
    forall k :: 0 <= k < |a| ==> a[k] < m
  }

  lemma LoadSnoc(w: seq<nat>, a: seq<nat>, x: nat, f: nat)
    requires |w| == |a|
    ensures forall g: nat :: Load(w + [x], a + [f], g) == Load(w, a, g) + (if f == g then x else 0)
  {
    assert (w + [x])[..|w|] == w && (a + [f])[..|a|] == a;
  }

  lemma {:induction false} LoadUpdate(w: seq<nat>, a: seq<nat>, j: nat, x: nat, f: nat)
    requires |w| == |a| && j < |w|
    ensures Load(w[j := w[j] + x], a, f) == Load(w, a, f) + (if a[j] == f then x else 0)
  {
    var n := |w| - 1;
    if j < n {
      assert w[j := w[j] + x][..n] == w[..n][j := w[j] + x];
      LoadUpdate(w[..n], a[..n], j, x, f);
    } else {
      assert w[j := w[j] + x][..n] == w[..n];
    }
  }

  lemma {:induction false} LoadOfZeros(w: seq<nat>, a: seq<nat>, f: nat)
    requires |w| == |a| && forall k :: 0 <= k < |w| ==> w[k] == 0
    ensures Load(w, a, f) == 0
  {
    if |w| > 0 { LoadOfZeros(w[..|w| - 1], a[..|w| - 1], f); }
  }

  // ----- all places together

  function LoadSum(w: seq<nat>, a: seq<nat>, m: nat): nat
    requires |w| == |a|
  {
    if m == 0 then 0 else LoadSum(w, a, m - 1) + Load(w, a, m - 1)
  }

  lemma {:induction false} LoadSumSnoc(w: seq<nat>, a: seq<nat>, m: nat)
    requires |w| == |a| > 0
    ensures var n := |w| - 1;
      LoadSum(w, a, m) == LoadSum(w[..n], a[..n], m) + (if a[n] < m then w[n] else 0)
  {
    if m > 0 { LoadSumSnoc(w, a, m - 1); }
  }

  /** Every weight is in exactly one place: the loads of the places add up to the total. */
  lemma {:induction false} LoadsAddUp(w: seq<nat>, a: seq<nat>, m: nat)
    requires |w| == |a| && IsAssignment(a, m)
    ensures LoadSum(w, a, m) == Total(w)
  {
    if |w| == 0 {
      NoLoad(m);
    } else {
      LoadSumSnoc(w, a, m);
      LoadsAddUp(w[..|w| - 1], a[..|w| - 1], m);
    }
  }

  lemma {:induction false} NoLoad(m: nat)
    ensures LoadSum([], [], m) == 0
  {
    if m > 0 { NoLoad(m - 1); }
  }
}
