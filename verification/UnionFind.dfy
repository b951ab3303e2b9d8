/** The disjoint sets of functions that SplitSource keeps together: find with path compression, random linking. */
module UnionFind {

  // ----- dependency chains

  /** Two functions mention a common dependency name; each list of deps holds the functions of one name. */
  predicate Share(deps: seq<seq<nat>>, a: nat, b: nat) {
    exists d :: d in deps && a in d && b in d
  }

  predicate IsChain(deps: seq<seq<nat>>, path: seq<nat>) {
    |path| > 0 && forall k :: 0 <= k < |path| - 1 ==> Share(deps, path[k], path[k + 1])
  }

  /** A chain of shared names leads from one function to the other. */
  ghost predicate Linked(deps: seq<seq<nat>>, a: nat, b: nat) {
    exists path: seq<nat> :: IsChain(deps, path) && path[0] == a && path[|path| - 1] == b
  }

  lemma LinkedReflexive(deps: seq<seq<nat>>, a: nat)
    ensures Linked(deps, a, a)
  {
    assert IsChain(deps, [a]);
  }

  lemma LinkedShared(deps: seq<seq<nat>>, a: nat, b: nat)
    requires Share(deps, a, b)
    ensures Linked(deps, a, b)
  {
    assert IsChain(deps, [a, b]);
  }

  lemma LinkedSymmetric(deps: seq<seq<nat>>, a: nat, b: nat)
    requires Linked(deps, a, b)
    ensures Linked(deps, b, a)
  {
    var path: seq<nat> :| IsChain(deps, path) && path[0] == a && path[|path| - 1] == b;
    var back := seq(|path|, k requires 0 <= k < |path| => path[|path| - 1 - k]);
    forall k | 0 <= k < |back| - 1 ensures Share(deps, back[k], back[k + 1]) {
      assert Share(deps, path[|path| - 2 - k], path[|path| - 2 - k + 1]);
    }
    assert IsChain(deps, back);
  }

  lemma LinkedTransitive(deps: seq<seq<nat>>, a: nat, b: nat, c: nat)
    requires Linked(deps, a, b) && Linked(deps, b, c)
    ensures Linked(deps, a, c)
  {
    var p: seq<nat> :| IsChain(deps, p) && p[0] == a && p[|p| - 1] == b;
    var q: seq<nat> :| IsChain(deps, q) && q[0] == b && q[|q| - 1] == c;
    var path := p + q[1..];
    forall k | 0 <= k < |path| - 1 ensures Share(deps, path[k], path[k + 1]) {
      if k >= |p| - 1 {
        assert path[k] == q[k - (|p| - 1)] && path[k + 1] == q[k - (|p| - 1) + 1];
      }
    }
    assert IsChain(deps, path);
  }

  // ----- the forest

  /** Parents lead to roots: the heights, below a bound, rise along every link. */
  ghost predicate Forest(parents: seq<nat>, root: seq<nat>, height: seq<nat>, bound: nat) {
    && |root| == |parents| && |height| == |parents|
    && forall x :: 0 <= x < |parents| ==>
        && parents[x] < |parents| && root[x] < |parents| && height[x] <= bound
        && root[parents[x]] == root[x]
        && parents[root[x]] == root[x]
        && (parents[x] == x ==> root[x] == x)
        && (parents[x] != x ==> height[x] < height[parents[x]])
        && (root[x] != x ==> height[x] < height[root[x]])
  }

  /** Following the parents from x leads past z. */
  ghost predicate OnPath(parents: seq<nat>, root: seq<nat>, height: seq<nat>, bound: nat, x: nat, z: nat)
    requires Forest(parents, root, height, bound) && x < |parents|
    decreases bound - height[x]
  {
    z == x || (parents[x] != x && OnPath(parents, root, height, bound, parents[x], z))
  }

  function Rerooted(root: seq<nat>, a: nat, b: nat): (r: seq<nat>)
    ensures |r| == |root|
  {
    seq(|root|, z requires 0 <= z < |root| => if root[z] == a then b else root[z])
  }

  function Raised(height: seq<nat>, a: nat, b: nat): (h: seq<nat>)
    requires a < |height| && b < |height|
    ensures |h| == |height|
  {
    height[b := if height[a] < height[b] then height[b] else height[a] + 1]
  }

  /** Linking one root below another keeps the forest. */
  lemma LinkForest(parents: seq<nat>, root: seq<nat>, height: seq<nat>, bound: nat, a: nat, b: nat)
    requires Forest(parents, root, height, bound) && a < |parents| && b < |parents|
    requires root[a] == a && root[b] == b && a != b
    ensures var h := Raised(height, a, b);
      Forest(parents[a := b], Rerooted(root, a, b), h, if h[b] < bound then bound else h[b])
  {
    var (p, r, h) := (parents[a := b], Rerooted(root, a, b), Raised(height, a, b));
    var bd := if h[b] < bound then bound else h[b];
    assert h[a] == height[a] < h[b];
    forall x | 0 <= x < |parents|
      ensures p[x] < |p| && r[x] < |p| && h[x] <= bd
      ensures r[p[x]] == r[x] && p[r[x]] == r[x] && (p[x] == x ==> r[x] == x)
      ensures (p[x] != x ==> h[x] < h[p[x]]) && (r[x] != x ==> h[x] < h[r[x]])
    {
      assert root[parents[x]] == root[x] && parents[root[x]] == root[x];
      if x == b {
        assert parents[b] == b;
      } else {
        assert h[x] == height[x];
        if root[x] == a && x != a { assert height[x] < height[a]; }
      }
    }
  }

  class DisjointSets {
    var parents: seq<nat>
    /** Where following the parents from each element ends. */
    ghost var root: seq<nat>
    ghost var height: seq<nat>
    ghost var bound: nat

    ghost predicate Valid()
      reads this
    {
      Forest(parents, root, height, bound)
    }

    /** Every element is its own parent. */
    constructor (n: nat)
      ensures Valid() && |parents| == n && forall x :: 0 <= x < n ==> root[x] == x
    {
      parents := seq(n, i => i);
      root := seq(n, i => i);
      height := seq(n, _ => 0);
      bound := 0;
    }

    /** Finds the root and makes it the parent of every element on the way. */
    method Find(x: nat) returns (r: nat)
      requires Valid() && x < |parents|
      modifies this`parents
      ensures Valid() && |parents| == old(|parents|)
      ensures r == root[x] && parents[r] == r
      ensures forall z :: 0 <= z < |parents| ==>
        parents[z] == if OnPath(old(parents), root, height, bound, x, z) then root[x] else old(parents[z])
      decreases bound - height[x]
    {
      if parents[x] != x {
        r := Find(parents[x]);
        parents := parents[x := r];
        return;
      }
      r := x;
    }

    /** The root that both sets get; which of the two it is depends on a random bit. */
    method Union(x: nat, y: nat) returns (ghost w: nat)
      requires Valid() && x < |parents| && y < |parents|
      modifies this
      ensures Valid() && |parents| == old(|parents|)
      ensures w == old(root[x]) || w == old(root[y])
      ensures forall z :: 0 <= z < |parents| ==>
        root[z] == if old(root[z]) == old(root[x]) || old(root[z]) == old(root[y]) then w else old(root[z])
    {
      hide Forest;
      Lengths(parents, root, height, bound);
      var rx := Find(x);
      var ry := Find(y);
      Lengths(parents, root, height, bound);
      w := rx;
      if rx != ry {
        if * {
          Link(rx, ry);
          w := ry;
        } else {
          Link(ry, rx);
        }
      }
    }

    method Link(a: nat, b: nat)
      requires Valid() && |root| == |parents| == |height| && a < |parents| && b < |parents| && a != b
      requires root[a] == a && root[b] == b
      modifies this
      ensures Valid() && |parents| == old(|parents|)
      ensures forall z :: 0 <= z < |parents| ==> root[z] == if old(root[z]) == a then b else old(root[z])
    {
      hide Forest;
      LinkForest(parents, root, height, bound, a, b);
      parents := parents[a := b];
      root := Rerooted(root, a, b);
      height := Raised(height, a, b);
      bound := if height[b] < bound then bound else height[b];
    }
  }

  // ----- merging

  /** All elements of the first k lists share the root of the first element of their list. */
  ghost predicate Merged(root: seq<nat>, deps: seq<seq<nat>>, k: nat) {
    forall d, m :: 0 <= d < k && d < |deps| && 0 <= m < |deps[d]| ==>
      deps[d][0] < |root| && deps[d][m] < |root| && root[deps[d][m]] == root[deps[d][0]]
  }

  /** Elements with one root are linked. */
  ghost predicate Sound(root: seq<nat>, deps: seq<seq<nat>>) {
    forall i, j :: 0 <= i < |root| && 0 <= j < |root| && root[i] == root[j] ==> Linked(deps, i, j)
  }

  lemma UnionSound(root: seq<nat>, root': seq<nat>, deps: seq<seq<nat>>, x: nat, y: nat, w: nat)
    requires |root'| == |root| && Sound(root, deps) && x < |root| && y < |root| && Share(deps, x, y)
    requires w == root[x] || w == root[y]
    requires forall z :: 0 <= z < |root| ==> root'[z] == if root[z] == root[x] || root[z] == root[y] then w else root[z]
    ensures Sound(root', deps)
  {
    hide Linked;
    LinkedShared(deps, x, y);
    LinkedSymmetric(deps, x, y);
    forall i, j | 0 <= i < |root| && 0 <= j < |root| && root'[i] == root'[j] ensures Linked(deps, i, j) {
      if root[i] != root[j] {
        var (a, b) := if root[i] == root[x] then (x, y) else (y, x);
        assert Linked(deps, i, a) && Linked(deps, b, j);
        LinkedTransitive(deps, i, a, b);
        LinkedTransitive(deps, i, b, j);
      }
    }
  }

  /** A chain stays within one root once all lists are merged. */
  lemma {:induction false} ChainOneRoot(root: seq<nat>, deps: seq<seq<nat>>, path: seq<nat>)
    requires Merged(root, deps, |deps|) && IsChain(deps, path) && path[0] < |root|
    ensures path[|path| - 1] < |root| && root[path[|path| - 1]] == root[path[0]]
  {
    if |path| > 1 {
      var (a, b) := (path[0], path[1]);
      assert Share(deps, path[0], path[0 + 1]);
      var d :| d in deps && a in d && b in d;
      var k :| 0 <= k < |deps| && deps[k] == d;
      var m :| 0 <= m < |d| && d[m] == a;
      var m' :| 0 <= m' < |d| && d[m'] == b;
      assert root[deps[k][m]] == root[deps[k][0]] && root[deps[k][m']] == root[deps[k][0]];
      forall i | 0 <= i < |path[1..]| - 1 ensures Share(deps, path[1..][i], path[1..][i + 1]) {
        assert Share(deps, path[i + 1], path[i + 1 + 1]);
      }
      ChainOneRoot(root, deps, path[1..]);
    }
  }

  lemma MergedMeansLinked(root: seq<nat>, deps: seq<seq<nat>>)
    requires Merged(root, deps, |deps|) && Sound(root, deps)
    ensures forall i, j :: 0 <= i < |root| && 0 <= j < |root| ==> (root[i] == root[j] <==> Linked(deps, i, j))
  {
    forall i, j | 0 <= i < |root| && 0 <= j < |root| && Linked(deps, i, j) ensures root[i] == root[j] {
      var path: seq<nat> :| IsChain(deps, path) && path[0] == i && path[|path| - 1] == j;
      ChainOneRoot(root, deps, path);
    }
  }

  /** Unites the functions of every name; two functions get one root exactly when a chain links them. */
  method MergeDependencies(n: nat, deps: seq<seq<nat>>) returns (roots: seq<nat>)
    requires forall d, i :: d in deps && i in d ==> i < n
    ensures |roots| == n && forall i :: 0 <= i < n ==> roots[i] < n && roots[roots[i]] == roots[i]
    ensures forall i, j :: 0 <= i < n && 0 <= j < n ==> (roots[i] == roots[j] <==> Linked(deps, i, j))
  {
    hide Linked;
    var sets := new DisjointSets(n);
    forall i, j | 0 <= i < n && 0 <= j < n && sets.root[i] == sets.root[j] ensures Linked(deps, i, j) {
      LinkedReflexive(deps, i);
    }
    for k := 0 to |deps|
      invariant sets.Valid() && |sets.parents| == n && Sound(sets.root, deps) && Merged(sets.root, deps, k)
    {
      MergeNames(sets, deps, k);
    }
    MergedMeansLinked(sets.root, deps);
    Lengths(sets.parents, sets.root, sets.height, sets.bound);
    roots := FindAll(sets);
  }

  method FindAll(sets: DisjointSets) returns (roots: seq<nat>)
    requires sets.Valid()
    modifies sets
    ensures roots == old(sets.root) && |roots| == old(|sets.parents|)
  {
    hide Forest;
    var n := |sets.parents|;
    assert |sets.root| == n by { Lengths(sets.parents, sets.root, sets.height, sets.bound); }
    roots := [];
    ghost var final := sets.root;
    for i := 0 to n
      invariant sets.Valid() && |sets.parents| == n && |roots| == i && sets.root == final
      invariant forall k :: 0 <= k < i ==> roots[k] == sets.root[k]
    {
      var parent := sets.Find(i);
      roots := roots + [parent];
    }
  }

  lemma Lengths(parents: seq<nat>, root: seq<nat>, height: seq<nat>, bound: nat)
    requires Forest(parents, root, height, bound)
    ensures |root| == |parents| && |height| == |parents|
    ensures forall x :: 0 <= x < |root| ==> root[x] < |root| && root[root[x]] == root[x]
  {
    forall x | 0 <= x < |root| ensures root[x] < |root| && root[root[x]] == root[x] {
      assert parents[root[x]] == root[x];
    }
  }

  lemma UnionMerged(root: seq<nat>, root': seq<nat>, deps: seq<seq<nat>>, k: nat, x: nat, y: nat, w: nat)
    requires |root'| == |root| && x < |root| && y < |root| && Merged(root, deps, k)
    requires forall z :: 0 <= z < |root| ==> root'[z] == if root[z] == root[x] || root[z] == root[y] then w else root[z]
    ensures Merged(root', deps, k)
  {
  }

  /** The inner loop: unites the functions of one name with the first of them. */
  method MergeNames(sets: DisjointSets, deps: seq<seq<nat>>, k: nat)
    requires sets.Valid() && k < |deps| && Sound(sets.root, deps) && Merged(sets.root, deps, k)
    requires forall d, i :: d in deps && i in d ==> i < |sets.parents|
    modifies sets
    ensures sets.Valid() && |sets.parents| == old(|sets.parents|)
    ensures Sound(sets.root, deps) && Merged(sets.root, deps, k + 1)
  {
    hide Linked, Forest, Merged, Sound;
    var funcIds := deps[k];
    assert funcIds in deps;
    Lengths(sets.parents, sets.root, sets.height, sets.bound);
    ghost var n := |sets.root|;
    assert forall i :: 0 <= i < |funcIds| ==> funcIds[i] in funcIds;
    for m := 0 to |funcIds|
      invariant sets.Valid() && |sets.parents| == old(|sets.parents|) == n && |sets.root| == n
      invariant forall i :: 0 <= i < |funcIds| ==> funcIds[i] < n
      invariant Sound(sets.root, deps) && Merged(sets.root, deps, k)
      invariant forall i :: 0 <= i < m ==> sets.root[funcIds[i]] == sets.root[funcIds[0]]
    {
      ghost var before := sets.root;
      ghost var w := sets.Union(funcIds[0], funcIds[m]);
      Lengths(sets.parents, sets.root, sets.height, sets.bound);
      assert Share(deps, funcIds[0], funcIds[m]);
      UnionSound(before, sets.root, deps, funcIds[0], funcIds[m], w);
      UnionMerged(before, sets.root, deps, k, funcIds[0], funcIds[m], w);
    }
    MergedNext(sets.root, deps, k);
  }

  lemma MergedNext(root: seq<nat>, deps: seq<seq<nat>>, k: nat)
    requires Merged(root, deps, k) && k < |deps|
    requires forall i :: 0 <= i < |deps[k]| ==> deps[k][i] < |root|
    requires forall i :: 0 <= i < |deps[k]| ==> root[deps[k][i]] == root[deps[k][0]]
    ensures Merged(root, deps, k + 1)
  {
  }
}
