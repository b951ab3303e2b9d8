/** Greedy packing of sets of functions into files, longest first, and how close it comes to the best packing. */
module Packing {
  import opened Sums

  predicate Descending(w: seq<nat>) {
    forall i, j :: 0 <= i < j < |w| ==> w[i] >= w[j]
  }

  /** No file has less than this one, and every earlier file has more. */
  ghost predicate FirstLeast(w: seq<nat>, a: seq<nat>, m: nat, file: nat)
    requires |w| == |a|
  {
    file < m && forall f: nat :: f < m ==>
      Load(w, a, file) <= Load(w, a, f) && (f < file ==> Load(w, a, file) < Load(w, a, f))
  }

  /** Every set went to the first file among those of least load at that moment. */
  ghost predicate IsGreedy(w: seq<nat>, a: seq<nat>, m: nat) {
    |w| == |a| && forall k :: 0 <= k < |w| ==> FirstLeast(w[..k], a[..k], m, a[k])
  }

  lemma GreedyAssigns(w: seq<nat>, a: seq<nat>, m: nat)
    requires IsGreedy(w, a, m)
    ensures IsAssignment(a, m)
  {
    forall k | 0 <= k < |a| ensures a[k] < m {
      assert FirstLeast(w[..k], a[..k], m, a[k]);
    }
  }

  // ----- the loop

  /** `array_search(min($file_sizes), $file_sizes)` */
  method FirstMin(sizes: seq<nat>) returns (f: nat)
    requires |sizes| > 0
    ensures f < |sizes| && (forall g :: 0 <= g < |sizes| ==> sizes[f] <= sizes[g])
    ensures forall g :: 0 <= g < f ==> sizes[f] < sizes[g]
  {
    f := 0;
    for g := 1 to |sizes|
      invariant f < g
      invariant forall h :: 0 <= h < g ==> sizes[f] <= sizes[h]
      invariant forall h :: 0 <= h < f ==> sizes[f] < sizes[h]
    {
      if sizes[g] < sizes[f] {
        f := g;
      }
    }
  }

  /** What the sets assigned to file f make when they are appended in turn. */
  function Gather<T>(sets: seq<seq<T>>, a: seq<nat>, f: nat): seq<T>
    requires |sets| == |a|
  {
    if |sets| == 0 then []
    else Gather(sets[..|sets| - 1], a[..|a| - 1], f) + (if a[|a| - 1] == f then sets[|sets| - 1] else [])
  }

  /** Appends each set in turn to the first file of least size. */
  method Pack<T>(sets: seq<seq<T>>, setSizes: seq<nat>, chunks: nat)
    returns (files: seq<seq<T>>, fileSizes: seq<nat>, ghost fileIds: seq<nat>)
    requires chunks > 0 && |sets| == |setSizes|
    ensures IsGreedy(setSizes, fileIds, chunks) && |files| == |fileSizes| == chunks
    ensures forall f: nat :: f < chunks ==>
      files[f] == Gather(sets, fileIds, f) && fileSizes[f] == Load(setSizes, fileIds, f)
  {
    files, fileSizes, fileIds := seq(chunks, _ => []), seq(chunks, _ => 0), [];
    for k := 0 to |sets|
      invariant |files| == |fileSizes| == chunks && |fileIds| == k && IsGreedy(setSizes[..k], fileIds, chunks)
      invariant forall f: nat :: f < chunks ==>
        files[f] == Gather(sets[..k], fileIds, f) && fileSizes[f] == Load(setSizes[..k], fileIds, f)
    {
      var fileId := FirstMin(fileSizes);
      GreedyNext(setSizes[..k], fileIds, chunks, setSizes[k], fileId);
      assert setSizes[..k + 1] == setSizes[..k] + [setSizes[k]] && sets[..k + 1] == sets[..k] + [sets[k]];
      LoadSnoc(setSizes[..k], fileIds, setSizes[k], fileId);
      GatherSnoc(sets[..k], fileIds, sets[k], fileId);
      fileIds := fileIds + [fileId];
      files := files[fileId := files[fileId] + sets[k]];
      fileSizes := fileSizes[fileId := fileSizes[fileId] + setSizes[k]];
    }
    assert setSizes[..|sets|] == setSizes && sets[..|sets|] == sets;
  }

  lemma GatherSnoc<T>(sets: seq<seq<T>>, a: seq<nat>, x: seq<T>, f: nat)
    requires |sets| == |a|
    ensures forall g: nat :: Gather(sets + [x], a + [f], g) == Gather(sets, a, g) + (if f == g then x else [])
  {
    assert (sets + [x])[..|sets|] == sets && (a + [f])[..|a|] == a;
  }

  lemma GreedyNext(w: seq<nat>, a: seq<nat>, m: nat, x: nat, f: nat)
    requires IsGreedy(w, a, m) && FirstLeast(w, a, m, f)
    ensures IsGreedy(w + [x], a + [f], m)
  {
    hide FirstLeast;
    var (w', a') := (w + [x], a + [f]);
    forall k | 0 <= k < |w'| ensures FirstLeast(w'[..k], a'[..k], m, a'[k]) {
      if k < |w| {
        assert w'[..k] == w[..k] && a'[..k] == a[..k];
      } else {
        assert w'[..k] == w && a'[..k] == a;
      }
    }
  }

  // ----- sums over files

  lemma {:induction false} LoadSumAtLeast(w: seq<nat>, a: seq<nat>, m: nat, x: int)
    requires |w| == |a| && forall f: nat :: f < m ==> x <= Load(w, a, f)
    ensures m * x <= LoadSum(w, a, m)
  {
    if m > 0 {
      LoadSumAtLeast(w, a, m - 1, x);
      assert m * x == (m - 1) * x + x;
    }
  }

  lemma {:induction false} LoadSumAtMost(w: seq<nat>, a: seq<nat>, m: nat, x: nat)
    requires |w| == |a| && forall f: nat :: f < m ==> Load(w, a, f) <= x
    ensures LoadSum(w, a, m) <= m * x
  {
    if m > 0 {
      LoadSumAtMost(w, a, m - 1, x);
      assert m * x == (m - 1) * x + x;
    }
  }

  lemma {:induction false} TotalPrefix(w: seq<nat>, k: nat)
    requires k < |w|
    ensures Total(w[..k]) + w[k] <= Total(w)
  {
    var n := |w| - 1;
    if k == n {
    } else {
      TotalPrefix(w[..n], k);
      assert w[..n][..k] == w[..k];
    }
  }

  // ----- the simple bound

  /** The last set put into a file that is not empty. */
  lemma {:induction false} LastIn(w: seq<nat>, a: seq<nat>, f: nat) returns (k: nat)
    requires |w| == |a| && Load(w, a, f) > 0
    ensures k < |w| && a[k] == f && Load(w, a, f) == Load(w[..k], a[..k], f) + w[k]
  {
    var n := |w| - 1;
    if a[n] == f {
      k := n;
    } else {
      k := LastIn(w[..n], a[..n], f);
      assert w[..n][..k] == w[..k] && a[..n][..k] == a[..k];
    }
  }

  lemma AssignmentPrefix(a: seq<nat>, m: nat, k: nat)
    requires IsAssignment(a, m) && k <= |a|
    ensures IsAssignment(a[..k], m)
  {
  }

  /** m files of this load and one more set fit into the total. */
  predicate Room(m: nat, load: nat, last: nat, total: nat) {
    m * load + last <= total
  }

  /** When the last set went into its file, no file had less, so m times the rest is at most what was packed. */
  lemma LoadBeforeLast(w: seq<nat>, a: seq<nat>, m: nat, k: nat, f: nat)
    requires IsGreedy(w, a, m) && k < |w| && a[k] == f
    ensures Room(m, Load(w[..k], a[..k], f), w[k], Total(w))
  {
    hide Load, LoadSum;
    var x := Load(w[..k], a[..k], f);
    assert FirstLeast(w[..k], a[..k], m, a[k]);
    GreedyAssigns(w, a, m);
    LoadSumAtLeast(w[..k], a[..k], m, x);
    AssignmentPrefix(a, m, k);
    LoadsAddUp(w[..k], a[..k], m);
    TotalPrefix(w, k);
  }

  /** m times the largest file is at most the total plus (m - 1) times the largest set. */
  lemma GreedyBound(w: seq<nat>, a: seq<nat>, m: nat, f: nat, largest: nat)
    requires IsGreedy(w, a, m) && f < m && forall k :: 0 <= k < |w| ==> w[k] <= largest
    ensures m * Load(w, a, f) <= Total(w) + (m - 1) * largest
  {
    hide *;
    GreedyShape(w, a, m);
    if Load(w, a, f) > 0 {
      var k := LastIn(w, a, f);
      LoadBeforeLast(w, a, m, k, f);
      GreedyNumbers(m, Load(w, a, f), Load(w[..k], a[..k], f), w[k], largest, Total(w));
    } else {
      EmptyFile(m, Load(w, a, f), largest, Total(w));
    }
  }

  lemma GreedyShape(w: seq<nat>, a: seq<nat>, m: nat)
    requires IsGreedy(w, a, m)
    ensures |w| == |a|
  {
  }

  lemma EmptyFile(m: nat, load: nat, largest: nat, total: nat)
    requires m > 0 && load == 0
    ensures m * load <= total + (m - 1) * largest
  {
    MulMono(m - 1, 0, largest);
  }

  lemma GreedyNumbers(m: nat, load: nat, before: nat, last: nat, largest: nat, total: nat)
    requires m > 0 && Room(m, before, last, total) && load == before + last && last <= largest
    ensures m * load <= total + (m - 1) * largest
  {
    Distribute(m, before, last);
    MulMono(m - 1, last, largest);
    Chain(m * load, m * before + last, (m - 1) * last, (m - 1) * largest, total);
  }

  lemma Chain(all: int, some: int, rest: int, bound: int, total: int)
    requires all == some + rest && some <= total && rest <= bound
    ensures all <= total + bound
  {
  }

  lemma Distribute(m: nat, x: nat, y: nat)
    ensures m * (x + y) == m * x + y + (m - 1) * y
  {
    assert m * (x + y) == m * x + m * y;
    assert m * y == (m - 1) * y + y;
  }

  lemma MulMono(m: nat, x: nat, y: nat)
    requires x <= y
    ensures m * x <= m * y
  {
  }

  // ----- the bound against any other packing

  function Ones(n: nat): seq<nat> {
    seq(n, _ => 1)
  }

  /** Marks the sets that do not fit beside one of size p. */
  function Bigs(w: seq<nat>, p: nat, opt: nat): (b: seq<nat>)
    ensures |b| == |w|
  {
    seq(|w|, k requires 0 <= k < |w| => if w[k] + p > opt then 1 else 0)
  }

  lemma {:induction false} OnesTotal(n: nat)
    ensures Total(Ones(n)) == n
  {
    if n > 0 {
      OnesTotal(n - 1);
      assert Ones(n)[..n - 1] == Ones(n - 1);
    }
  }

  function Count(w: seq<nat>, a: seq<nat>, f: nat): nat
    requires |w| == |a|
  {
    Load(Ones(|w|), a, f)
  }

  function CountBigs(w: seq<nat>, a: seq<nat>, f: nat, p: nat, opt: nat): nat
    requires |w| == |a|
  {
    Load(Bigs(w, p, opt), a, f)
  }

  predicate AllAtLeast(w: seq<nat>, p: nat) {
    forall k :: 0 <= k < |w| ==> w[k] >= p
  }

  lemma CountsLast(w: seq<nat>, a: seq<nat>, f: nat, p: nat, opt: nat)
    requires |w| == |a| > 0
    ensures var (n, here) := (|w| - 1, if a[|w| - 1] == f then 1 else 0);
      && Count(w, a, f) == Count(w[..n], a[..n], f) + here
      && CountBigs(w, a, f, p, opt) ==
         CountBigs(w[..n], a[..n], f, p, opt) + (if w[n] + p > opt then here else 0)
  {
    var n := |w| - 1;
    assert Ones(|w|)[..n] == Ones(n) && Bigs(w, p, opt)[..n] == Bigs(w[..n], p, opt);
  }

  /** The sets of a file, each at least p and the big ones above opt - p, are at most its load. */
  lemma {:induction false} SetsFill(w: seq<nat>, a: seq<nat>, f: nat, p: nat, opt: nat)
    requires |w| == |a| && AllAtLeast(w, p)
    ensures CountBigs(w, a, f, p, opt) <= Count(w, a, f)
    ensures Count(w, a, f) * p <= Load(w, a, f)
    ensures CountBigs(w, a, f, p, opt) > 0 ==> opt + Count(w, a, f) * p < Load(w, a, f) + 2 * p
  {
    if |w| > 0 {
      var n := |w| - 1;
      CountsLast(w, a, f, p, opt);
      SetsFill(w[..n], a[..n], f, p, opt);
      hide Count, CountBigs;
      OneMore(Count(w[..n], a[..n], f), p);
    }
  }

  /** Without big sets, none of them exceeds opt - p. */
  lemma {:induction false} SmallSetsFit(w: seq<nat>, a: seq<nat>, f: nat, p: nat, opt: nat)
    requires |w| == |a| && p <= opt && CountBigs(w, a, f, p, opt) == 0
    ensures Load(w, a, f) <= Count(w, a, f) * (opt - p)
  {
    if |w| > 0 {
      var n := |w| - 1;
      CountsLast(w, a, f, p, opt);
      SmallSetsFit(w[..n], a[..n], f, p, opt);
      hide Count, CountBigs;
      OneMore(Count(w[..n], a[..n], f), opt - p);
    }
  }

  lemma OneMore(x: nat, y: nat)
    ensures (x + 1) * y == x * y + y
  {
  }

  /** In a packing that keeps to opt, sets above a third of opt share a file only in pairs without big ones. */
  lemma FileOfOptimal(w: seq<nat>, b: seq<nat>, f: nat, p: nat, opt: nat)
    requires |w| == |b| && p <= opt < 3 * p && Load(w, b, f) <= opt && AllAtLeast(w, p)
    ensures Count(w, b, f) + CountBigs(w, b, f, p, opt) <= 2
  {
    SetsFill(w, b, f, p, opt);
    hide Count, CountBigs, Load, AllAtLeast;
    AtMostTwo(Count(w, b, f), p, opt);
    AtMostOne(Count(w, b, f), CountBigs(w, b, f, p, opt), p, opt);
  }

  lemma AtMostTwo(count: nat, p: nat, opt: nat)
    requires opt < 3 * p && count * p <= opt
    ensures count <= 2
  {
    ThreeOrMore(count, p);
  }

  lemma ThreeOrMore(count: nat, p: nat)
    ensures count >= 3 ==> count * p >= 3 * p
  {
    assert count * p == (count - 3) * p + 3 * p;
  }

  lemma AtMostOne(count: nat, bigs: nat, p: nat, opt: nat)
    requires bigs <= count <= 2 && (bigs > 0 ==> opt + count * p < opt + 2 * p)
    ensures count + bigs <= 2
  {
  }

  /** A file into which p does not fit holds two sets or a big one. */
  lemma FileTooFull(w: seq<nat>, a: seq<nat>, f: nat, p: nat, opt: nat)
    requires |w| == |a| && p <= opt && Load(w, a, f) + p > opt && AllAtLeast(w, p)
    ensures Count(w, a, f) + CountBigs(w, a, f, p, opt) >= 2
  {
    SetsFill(w, a, f, p, opt);
    if CountBigs(w, a, f, p, opt) == 0 { SmallSetsFit(w, a, f, p, opt); }
  }

  function PlusLoads(w: seq<nat>, a: seq<nat>, p: nat, opt: nat, m: nat): nat
    requires |w| == |a|
  {
    LoadSum(Ones(|w|), a, m) + LoadSum(Bigs(w, p, opt), a, m)
  }

  lemma {:induction false} PlusLoadsAtMost(w: seq<nat>, b: seq<nat>, p: nat, opt: nat, m: nat)
    requires |w| == |b| && p <= opt < 3 * p && AllAtLeast(w, p)
    requires forall f: nat :: f < m ==> Load(w, b, f) <= opt
    ensures PlusLoads(w, b, p, opt, m) <= 2 * m
  {
    if m > 0 {
      PlusLoadsAtMost(w, b, p, opt, m - 1);
      FileOfOptimal(w, b, m - 1, p, opt);
    }
  }

  lemma {:induction false} PlusLoadsAtLeast(w: seq<nat>, a: seq<nat>, p: nat, opt: nat, m: nat)
    requires |w| == |a| && p <= opt && AllAtLeast(w, p)
    requires forall f: nat :: f < m ==> Load(w, a, f) + p > opt
    ensures PlusLoads(w, a, p, opt, m) >= 2 * m
  {
    if m > 0 {
      PlusLoadsAtLeast(w, a, p, opt, m - 1);
      FileTooFull(w, a, m - 1, p, opt);
    }
  }

  lemma PlusLoadsTotal(w: seq<nat>, a: seq<nat>, p: nat, opt: nat, m: nat)
    requires |w| == |a| && IsAssignment(a, m)
    ensures PlusLoads(w, a, p, opt, m) == |w| + Total(Bigs(w, p, opt))
  {
    LoadsAddUp(Ones(|w|), a, m);
    LoadsAddUp(Bigs(w, p, opt), a, m);
    OnesTotal(|w|);
  }

  lemma {:induction false} LoadPrefix(w: seq<nat>, b: seq<nat>, f: nat, k: nat)
    requires |w| == |b| && k <= |w|
    ensures Load(w[..k], b[..k], f) <= Load(w, b, f)
    decreases |w|
  {
    var n := |w| - 1;
    if k == |w| {
      assert w[..k] == w && b[..k] == b;
    } else {
      LoadPrefix(w[..n], b[..n], f, k);
      assert w[..n][..k] == w[..k] && b[..n][..k] == b[..k];
    }
  }

  /** Of two packings the one kept to opt holds fewer sets than one whose every file is too full for another. */
  lemma TooManySets(v: seq<nat>, c: seq<nat>, a: seq<nat>, m: nat, opt: nat, k: nat)
    requires |v| == |c| == k + 1 && |a| == k && IsAssignment(c, m) && IsAssignment(a, m)
    requires Descending(v) && v[k] <= opt < 3 * v[k]
    requires forall f: nat :: f < m ==> Load(v, c, f) <= opt
    ensures exists f: nat :: f < m && Load(v[..k], a, f) + v[k] <= opt
  {
    var p := v[k];
    if forall f: nat :: f < m ==> Load(v[..k], a, f) + p > opt {
      PlusLoadsAtMost(v, c, p, opt, m);
      PlusLoadsTotal(v, c, p, opt, m);
      PlusLoadsAtLeast(v[..k], a, p, opt, m);
      PlusLoadsTotal(v[..k], a, p, opt, m);
      BigsOfPrefix(v, p, opt, k);
      assert false;
    }
  }

  lemma BigsOfPrefix(v: seq<nat>, p: nat, opt: nat, k: nat)
    requires |v| == k + 1
    ensures Total(Bigs(v[..k], p, opt)) <= Total(Bigs(v, p, opt))
  {
    assert Bigs(v, p, opt)[..k] == Bigs(v[..k], p, opt);
  }

  /** If every set so far exceeds a third of what some packing needs, the next one fits beside some file. */
  lemma SomeFileFits(w: seq<nat>, a: seq<nat>, b: seq<nat>, m: nat, opt: nat, k: nat)
    requires IsGreedy(w, a, m) && Descending(w) && |b| == |w| && IsAssignment(b, m) && k < |w|
    requires (forall f: nat :: f < m ==> Load(w, b, f) <= opt) && opt < 3 * w[k]
    ensures Load(w[..k], a[..k], a[k]) + w[k] <= opt
  {
    var (v, c) := (w[..k + 1], b[..k + 1]);
    assert w[k] <= opt by {
      LoadPrefix(w, b, b[k], k + 1);
      assert v[..k] == w[..k] && c[..k] == b[..k];
    }
    forall f: nat | f < m ensures Load(v, c, f) <= opt { LoadPrefix(w, b, f, k + 1); }
    hide Load;
    AssignmentPrefix(b, m, k + 1);
    GreedyAssigns(w, a, m);
    AssignmentPrefix(a, m, k);
    TooManySets(v, c, a[..k], m, opt, k);
    assert v[..k] == w[..k] && FirstLeast(w[..k], a[..k], m, a[k]);
  }

  /** Packing longest first needs at most 4/3 - 1/(3m) of what any other packing needs. */
  lemma LongestFirstBound(w: seq<nat>, a: seq<nat>, b: seq<nat>, m: nat, opt: nat, f: nat)
    requires IsGreedy(w, a, m) && Descending(w) && |b| == |w| && IsAssignment(b, m) && f < m
    requires forall g: nat :: g < m ==> Load(w, b, g) <= opt
    ensures 3 * m * Load(w, a, f) <= (4 * m - 1) * opt
  {
    hide *;
    GreedyShape(w, a, m);
    if Load(w, a, f) > 0 {
      var k := LastIn(w, a, f);
      if opt < 3 * w[k] {
        SomeFileFits(w, a, b, m, opt, k);
        LptNumbersA(m, Load(w, a, f), opt);
      } else {
        LoadBeforeLast(w, a, m, k, f);
        TotalAtMost(w, b, m, opt);
        LptNumbersB(m, Load(w, a, f), Load(w[..k], a[..k], f), w[k], opt, Total(w));
      }
    } else {
      LptNumbersA(m, Load(w, a, f), opt);
    }
  }

  lemma TotalAtMost(w: seq<nat>, b: seq<nat>, m: nat, opt: nat)
    requires |b| == |w| && IsAssignment(b, m) && forall g: nat :: g < m ==> Load(w, b, g) <= opt
    ensures Covers(m, opt, Total(w))
  {
    hide Load, Total, LoadSum;
    LoadSumAtMost(w, b, m, opt);
    LoadsAddUp(w, b, m);
  }

  predicate Covers(m: nat, opt: nat, total: nat) {
    total <= m * opt
  }

  lemma LptNumbersA(m: nat, load: nat, opt: nat)
    requires m > 0 && load <= opt
    ensures 3 * m * load <= (4 * m - 1) * opt
  {
    MulMono(3 * m, load, opt);
    assert (4 * m - 1) * opt == 3 * m * opt + (m - 1) * opt;
    MulMono(m - 1, 0, opt);
  }

  lemma LptNumbersB(m: nat, load: nat, before: nat, p: nat, opt: nat, total: nat)
    requires m > 0 && Room(m, before, p, total) && load == before + p && Covers(m, opt, total) && 3 * p <= opt
    ensures 3 * m * load <= (4 * m - 1) * opt
  {
    GreedyNumbers(m, load, before, p, p, total);
    ThirdFits(m - 1, p, opt);
    LptSum(m * load, m * opt, (m - 1) * p, (m - 1) * opt, total);
    Regroup(m, load, opt);
  }

  lemma ThirdFits(k: nat, p: nat, opt: nat)
    requires 3 * p <= opt
    ensures 3 * (k * p) <= k * opt
  {
    MulMono(k, 3 * p, opt);
    assert k * (3 * p) == 3 * (k * p);
  }

  lemma LptSum(ml: int, mo: int, m1p: int, m1o: int, total: int)
    requires ml <= total + m1p && total <= mo && 3 * m1p <= m1o
    ensures 3 * ml <= 3 * mo + m1o
  {
  }

  lemma Regroup(m: nat, load: nat, opt: nat)
    ensures 3 * m * load == 3 * (m * load) && (4 * m - 1) * opt == 3 * (m * opt) + (m - 1) * opt
  {
  }
}
