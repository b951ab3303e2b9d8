/** How SplitSource spreads the functions of a source file over smaller files. */
module SplitFile {
  import opened Packing
  import opened Sums
  import opened UnionFind

  // ----- what a split is

  /** Linked functions are in one file. */
  ghost predicate KeepsTogether(deps: seq<seq<nat>>, fileOf: seq<nat>) {
    forall i, j :: 0 <= i < |fileOf| && 0 <= j < |fileOf| && Linked(deps, i, j) ==> fileOf[i] == fileOf[j]
  }

  /** How often i is in s. */
  ghost function Occurrences(s: seq<nat>, i: nat): nat {
    multiset(s)[i]
  }

  /** Each function is once in its own file and in no other. */
  ghost predicate HoldsEachOnce(files: seq<seq<nat>>, fileOf: seq<nat>) {
    forall f: nat, i: nat :: f < |files| ==>
      Occurrences(files[f], i) == (if i < |fileOf| && fileOf[i] == f then 1 else 0)
  }

  /** Another way to split, none of whose files is longer than opt. */
  ghost predicate Rival(length: seq<nat>, deps: seq<seq<nat>>, other: seq<nat>, chunks: nat, opt: nat) {
    && |other| == |length| && IsAssignment(other, chunks) && KeepsTogether(deps, other)
    && forall f: nat :: f < chunks ==> Load(length, other, f) <= opt
  }

  /** The length of all functions linked to r. */
  ghost function LinkedLength(length: seq<nat>, deps: seq<seq<nat>>, r: nat): nat {
    if |length| == 0 then 0
    else LinkedLength(length[..|length| - 1], deps, r) +
         (if Linked(deps, |length| - 1, r) then length[|length| - 1] else 0)
  }

  ghost predicate SetsAtMost(length: seq<nat>, deps: seq<seq<nat>>, largest: nat) {
    forall r: nat :: r < |length| ==> LinkedLength(length, deps, r) <= largest
  }

  /** m times a file's length is at most the total length plus (m - 1) times the longest set of linked functions. */
  ghost predicate WithinBound(length: seq<nat>, deps: seq<seq<nat>>, fileOf: seq<nat>, m: nat)
    requires |fileOf| == |length|
  {
    forall f: nat, largest: nat :: f < m && SetsAtMost(length, deps, largest) ==>
      m * Load(length, fileOf, f) <= Total(length) + (m - 1) * largest
  }

  /** No file is longer than 4/3 - 1/(3m) of what any other split needs. */
  ghost predicate NearBest(length: seq<nat>, deps: seq<seq<nat>>, fileOf: seq<nat>, m: nat)
    requires |fileOf| == |length|
  {
    forall f: nat, other, opt: nat :: f < m && Rival(length, deps, other, m, opt) ==>
      3 * m * Load(length, fileOf, f) <= (4 * m - 1) * opt
  }

  // ----- grouping the functions by root

  predicate Distinct(s: seq<nat>) {
    forall i, j :: 0 <= i < j < |s| ==> s[i] != s[j]
  }

  /** The functions with root r, in order. */
  function Members(roots: seq<nat>, r: nat): seq<nat> {
    if |roots| == 0 then []
    else Members(roots[..|roots| - 1], r) + (if roots[|roots| - 1] == r then [|roots| - 1] else [])
  }

  /** The set of root r holds its functions and has their length; without functions there is none. */
  ghost predicate SetOf(length: seq<nat>, roots: seq<nat>, sets: map<nat, seq<nat>>, setSizes: map<nat, nat>, r: nat)
    requires |length| == |roots|
  {
    && (r in sets <==> r in roots) && (r in setSizes <==> r in roots)
    && (r in roots ==> sets[r] == Members(roots, r) && setSizes[r] == Load(length, roots, r))
  }

  /** The keys are the roots, each once, and every set is complete. */
  ghost predicate Grouped(length: seq<nat>, roots: seq<nat>, keys: seq<nat>, sets: map<nat, seq<nat>>,
      setSizes: map<nat, nat>)
    requires |length| == |roots|
  {
    && Distinct(keys) && (forall r :: r in keys <==> r in roots)
    && forall r: nat :: SetOf(length, roots, sets, setSizes, r)
  }

  function Entry<T>(m: map<nat, T>, r: nat, none: T): T {
    if r in m then m[r] else none
  }

  method Group(length: seq<nat>, roots: seq<nat>)
    returns (keys: seq<nat>, sets: map<nat, seq<nat>>, setSizes: map<nat, nat>)
    requires |length| == |roots|
    ensures Grouped(length, roots, keys, sets, setSizes)
  {
    hide Members, Load;
    keys, sets, setSizes := [], map[], map[];
    for i := 0 to |length|
      invariant Grouped(length[..i], roots[..i], keys, sets, setSizes)
    {
      var parent := roots[i];
      GroupNext(length, roots, i, keys, sets, setSizes);
      ghost var (before, sizesBefore) := (sets, setSizes);
      assert parent in sets <==> parent in setSizes by {
        assert SetOf(length[..i], roots[..i], sets, setSizes, parent);
      }
      hide Grouped;
      if parent !in sets {
        keys := keys + [parent];
        sets := sets[parent := []];
        setSizes := setSizes[parent := 0];
      }
      sets := sets[parent := sets[parent] + [i]];
      setSizes := setSizes[parent := setSizes[parent] + length[i]];
      assert sets == before[parent := Entry(before, parent, []) + [i]];
      assert setSizes == sizesBefore[parent := Entry(sizesBefore, parent, 0) + length[i]];
    }
    assert length[..|length|] == length && roots[..|length|] == roots;
  }

  lemma GroupNext(length: seq<nat>, roots: seq<nat>, i: nat, keys: seq<nat>, sets: map<nat, seq<nat>>,
      setSizes: map<nat, nat>)
    requires |length| == |roots| && i < |length| && Grouped(length[..i], roots[..i], keys, sets, setSizes)
    ensures var parent := roots[i];
      var (sets', sizes') := (sets[parent := Entry(sets, parent, []) + [i]],
                              setSizes[parent := Entry(setSizes, parent, 0) + length[i]]);
      Grouped(length[..i + 1], roots[..i + 1], if parent in sets then keys else keys + [parent], sets', sizes')
  {
    hide Members, Load;
    var parent := roots[i];
    assert roots[..i + 1] == roots[..i] + [parent];
    assert SetOf(length[..i], roots[..i], sets, setSizes, parent);
    var sets' := sets[parent := Entry(sets, parent, []) + [i]];
    var sizes' := setSizes[parent := Entry(setSizes, parent, 0) + length[i]];
    var (length', roots') := (length[..i + 1], roots[..i + 1]);
    if parent !in sets { NoMembers(length[..i], roots[..i], parent); }
    forall r: nat ensures SetOf(length', roots', sets', sizes', r) {
      assert SetOf(length[..i], roots[..i], sets, setSizes, r);
      SetNext(length, roots, i, r);
    }
  }

  lemma SetNext(length: seq<nat>, roots: seq<nat>, i: nat, r: nat)
    requires |length| == |roots| && i < |length|
    ensures Members(roots[..i + 1], r) == Members(roots[..i], r) + (if roots[i] == r then [i] else [])
    ensures Load(length[..i + 1], roots[..i + 1], r) ==
            Load(length[..i], roots[..i], r) + (if roots[i] == r then length[i] else 0)
  {
    assert length[..i + 1][..i] == length[..i] && roots[..i + 1][..i] == roots[..i];
  }

  lemma {:induction false} NoMembers(length: seq<nat>, roots: seq<nat>, r: nat)
    requires |length| == |roots| && r !in roots
    ensures Members(roots, r) == [] && Load(length, roots, r) == 0
  {
    if |roots| > 0 { NoMembers(length[..|roots| - 1], roots[..|roots| - 1], r); }
  }

  /** The keys by size, the largest first. */
  predicate Sorted(keys: seq<nat>, size: map<nat, nat>) {
    && Distinct(keys) && (forall i :: 0 <= i < |keys| ==> keys[i] in size)
    && forall i, j :: 0 <= i < j < |keys| ==> size[keys[i]] >= size[keys[j]]
  }

  /** `arsort` */
  method SortDescending(keys: seq<nat>, size: map<nat, nat>) returns (sorted: seq<nat>)
    requires Distinct(keys) && forall r :: r in keys ==> r in size
    ensures Sorted(sorted, size) && (forall r :: r in sorted <==> r in keys)
  {
    sorted := [];
    for k := 0 to |keys|
      invariant Sorted(sorted, size) && (forall r :: r in sorted <==> r in keys[..k])
    {
      var (x, p) := (keys[k], |sorted|);
      while p > 0 && size[sorted[p - 1]] < size[x]
        invariant 0 <= p <= |sorted|
        invariant forall j :: p <= j < |sorted| ==> size[sorted[j]] < size[x]
      {
        p := p - 1;
      }
      assert x !in keys[..k] && keys[..k + 1] == keys[..k] + [x];
      InsertSorted(sorted, size, x, p);
      hide Sorted;
      sorted := sorted[..p] + [x] + sorted[p..];
    }
    assert keys[..|keys|] == keys;
  }

  lemma InsertSorted(s: seq<nat>, size: map<nat, nat>, x: nat, p: nat)
    requires Sorted(s, size) && x in size && x !in s && p <= |s|
    requires p > 0 ==> size[s[p - 1]] >= size[x]
    requires forall j :: p <= j < |s| ==> size[s[j]] < size[x]
    ensures Sorted(s[..p] + [x] + s[p..], size)
    ensures forall r :: r in s[..p] + [x] + s[p..] <==> r in s || r == x
  {
    var t := s[..p] + [x] + s[p..];
    forall i, j | 0 <= i < j < |t| ensures t[i] != t[j] && t[i] in size && t[j] in size && size[t[i]] >= size[t[j]] {
      InsertOrder(s, size, x, p, i, j);
    }
    assert t[p] == x;
    forall i | 0 <= i < |t| ensures t[i] in size {
      assert t[i] == if i < p then s[i] else if i == p then x else s[i - 1];
    }
    forall r | r in s ensures r in t {
      var i :| 0 <= i < |s| && s[i] == r;
      assert t[if i < p then i else i + 1] == r;
    }
  }

  lemma InsertOrder(s: seq<nat>, size: map<nat, nat>, x: nat, p: nat, i: nat, j: nat)
    requires Sorted(s, size) && x in size && x !in s && p <= |s| && i < j <= |s|
    requires p > 0 ==> size[s[p - 1]] >= size[x]
    requires forall k :: p <= k < |s| ==> size[s[k]] < size[x]
    ensures var t := s[..p] + [x] + s[p..];
      t[i] != t[j] && t[i] in size && t[j] in size && size[t[i]] >= size[t[j]]
  {
    var t := s[..p] + [x] + s[p..];
    assert t[i] == if i < p then s[i] else if i == p then x else s[i - 1];
    assert t[j] == if j < p then s[j] else if j == p then x else s[j - 1];
  }

  // ----- from loads of sets to loads of functions

  function SizesOf(length: seq<nat>, roots: seq<nat>, keys: seq<nat>): (w: seq<nat>)
    requires |length| == |roots|
    ensures |w| == |keys|
  {
    seq(|keys|, j requires 0 <= j < |keys| => Load(length, roots, keys[j]))
  }

  predicate KeysBelow(keys: seq<nat>, n: nat) {
    forall j :: 0 <= j < |keys| ==> keys[j] < n
  }

  function FilesOf(other: seq<nat>, keys: seq<nat>): (a: seq<nat>)
    requires KeysBelow(keys, |other|)
    ensures |a| == |keys|
  {
    seq(|keys|, j requires 0 <= j < |keys| => other[keys[j]])
  }

  /** The assignment gives every function the file of its root. */
  predicate FollowsRoots(roots: seq<nat>, keys: seq<nat>, other: seq<nat>) {
    && |roots| <= |other| && Distinct(keys) && KeysBelow(keys, |other|)
    && forall k :: 0 <= k < |roots| ==> roots[k] in keys && other[k] == other[roots[k]]
  }

  /** A file's load is the same counted by sets or by functions. */
  lemma {:induction false} GroupLoad(length: seq<nat>, roots: seq<nat>, keys: seq<nat>, other: seq<nat>, f: nat)
    requires |length| == |roots| && FollowsRoots(roots, keys, other)
    ensures Load(SizesOf(length, roots, keys), FilesOf(other, keys), f) == Load(length, other[..|length|], f)
  {
    var w := SizesOf(length, roots, keys);
    if |length| == 0 {
      LoadOfZeros(w, FilesOf(other, keys), f);
    } else {
      var n := |length| - 1;
      var v := SizesOf(length[..n], roots[..n], keys);
      GroupLoad(length[..n], roots[..n], keys, other, f);
      assert roots[n] in keys;
      var j: nat :| j < |keys| && keys[j] == roots[n];
      assert w == v[j := v[j] + length[n]];
      LoadUpdate(v, FilesOf(other, keys), j, length[n], f);
      assert other[..|length|][..n] == other[..n];
    }
  }

  lemma {:induction false} MembersCount(roots: seq<nat>, r: nat, i: nat)
    ensures Occurrences(Members(roots, r), i) == (if i < |roots| && roots[i] == r then 1 else 0)
  {
    if |roots| > 0 { MembersCount(roots[..|roots| - 1], r, i); }
  }

  predicate GoesTo(keys: seq<nat>, a: seq<nat>, r: nat, f: nat)
    requires |a| == |keys|
  {
    exists j :: 0 <= j < |keys| && keys[j] == r && a[j] == f
  }

  lemma {:induction false} GatherCount(roots: seq<nat>, keys: seq<nat>, sets: seq<seq<nat>>, a: seq<nat>, f: nat,
      i: nat)
    requires |keys| == |sets| == |a| && Distinct(keys)
    requires forall j :: 0 <= j < |keys| ==> sets[j] == Members(roots, keys[j])
    ensures Occurrences(Gather(sets, a, f), i) == (if i < |roots| && GoesTo(keys, a, roots[i], f) then 1 else 0)
  {
    if |keys| > 0 {
      var n := |keys| - 1;
      GatherCount(roots, keys[..n], sets[..n], a[..n], f, i);
      MembersCount(roots, keys[n], i);
      if i < |roots| {
        assert GoesTo(keys, a, roots[i], f) <==>
          GoesTo(keys[..n], a[..n], roots[i], f) || (keys[n] == roots[i] && a[n] == f);
      }
    }
  }

  lemma {:induction false} LinkedLengthIsLoad(length: seq<nat>, roots: seq<nat>, deps: seq<seq<nat>>, r: nat, root: nat)
    requires |length| == |roots|
    requires forall i: nat :: i < |roots| ==> (roots[i] == root <==> Linked(deps, i, r))
    ensures LinkedLength(length, deps, r) == Load(length, roots, root)
  {
    hide Linked;
    if |length| > 0 {
      LinkedLengthIsLoad(length[..|length| - 1], roots[..|length| - 1], deps, r, root);
    }
  }

  // ----- splitting

  /** The keys are the roots, in order of falling set size. */
  ghost predicate KeysOf(length: seq<nat>, roots: seq<nat>, keys: seq<nat>) {
    && |length| == |roots| && Distinct(keys) && (forall r :: r in keys <==> r in roots)
    && (forall i :: 0 <= i < |roots| ==> roots[i] < |roots| && roots[roots[i]] == roots[i])
    && Descending(SizesOf(length, roots, keys))
  }

  ghost predicate RootsOf(deps: seq<seq<nat>>, roots: seq<nat>) {
    forall i, j :: 0 <= i < |roots| && 0 <= j < |roots| ==> (roots[i] == roots[j] <==> Linked(deps, i, j))
  }

  /** Each function has the file of its set. */
  ghost predicate Placed(roots: seq<nat>, keys: seq<nat>, fileIds: seq<nat>, fileOf: seq<nat>) {
    && |keys| == |fileIds| && |fileOf| == |roots|
    && forall i, j :: 0 <= i < |roots| && 0 <= j < |keys| && keys[j] == roots[i] ==> fileOf[i] == fileIds[j]
  }

  lemma Place(roots: seq<nat>, keys: seq<nat>, fileIds: seq<nat>) returns (fileOf: seq<nat>)
    requires |keys| == |fileIds| && Distinct(keys) && forall r :: r in roots ==> r in keys
    ensures Placed(roots, keys, fileIds, fileOf)
  {
    fileOf := [];
    for i := 0 to |roots|
      invariant |fileOf| == i
      invariant forall h, j :: 0 <= h < i && 0 <= j < |keys| && keys[j] == roots[h] ==> fileOf[h] == fileIds[j]
    {
      assert roots[i] in roots;
      var j: nat :| j < |keys| && keys[j] == roots[i];
      fileOf := fileOf + [fileIds[j]];
    }
  }

  lemma PlacedFollowsRoots(length: seq<nat>, roots: seq<nat>, keys: seq<nat>, fileIds: seq<nat>, fileOf: seq<nat>)
    requires KeysOf(length, roots, keys) && Placed(roots, keys, fileIds, fileOf)
    ensures FollowsRoots(roots, keys, fileOf) && FilesOf(fileOf, keys) == fileIds
  {
    KeysAreRoots(length, roots, keys);
    forall k | 0 <= k < |roots| ensures roots[k] in keys && fileOf[k] == fileOf[roots[k]] {
      assert roots[k] in keys;
      var j :| 0 <= j < |keys| && keys[j] == roots[k];
    }
  }

  lemma KeysAreRoots(length: seq<nat>, roots: seq<nat>, keys: seq<nat>)
    requires KeysOf(length, roots, keys)
    ensures KeysBelow(keys, |roots|) && forall j :: 0 <= j < |keys| ==> roots[keys[j]] == keys[j]
  {
    forall j | 0 <= j < |keys| ensures keys[j] < |roots| && roots[keys[j]] == keys[j] {
      assert keys[j] in keys;
      var i :| 0 <= i < |roots| && roots[i] == keys[j];
    }
  }

  lemma PlacedInRange(length: seq<nat>, roots: seq<nat>, keys: seq<nat>, fileIds: seq<nat>, fileOf: seq<nat>, m: nat)
    requires KeysOf(length, roots, keys) && Placed(roots, keys, fileIds, fileOf) && IsAssignment(fileIds, m)
    ensures IsAssignment(fileOf, m)
  {
    forall i | 0 <= i < |roots| ensures fileOf[i] < m {
      assert roots[i] in keys;
      var j :| 0 <= j < |keys| && keys[j] == roots[i];
    }
  }

  lemma PlacedTogether(deps: seq<seq<nat>>, length: seq<nat>, roots: seq<nat>, keys: seq<nat>,
                       fileIds: seq<nat>, fileOf: seq<nat>)
    requires KeysOf(length, roots, keys) && Placed(roots, keys, fileIds, fileOf) && RootsOf(deps, roots)
    ensures KeepsTogether(deps, fileOf)
  {
    hide Linked;
    forall i, j | 0 <= i < |fileOf| && 0 <= j < |fileOf| && Linked(deps, i, j) ensures fileOf[i] == fileOf[j] {
      assert roots[i] in keys;
      var h :| 0 <= h < |keys| && keys[h] == roots[i];
    }
  }

  lemma PlacedOnce(length: seq<nat>, roots: seq<nat>, keys: seq<nat>, sets: seq<seq<nat>>,
                   fileIds: seq<nat>, fileOf: seq<nat>, f: nat, i: nat)
    requires KeysOf(length, roots, keys) && Placed(roots, keys, fileIds, fileOf) && |sets| == |keys|
    requires forall j :: 0 <= j < |keys| ==> sets[j] == Members(roots, keys[j])
    ensures Occurrences(Gather(sets, fileIds, f), i) == (if i < |fileOf| && fileOf[i] == f then 1 else 0)
  {
    GatherCount(roots, keys, sets, fileIds, f, i);
    if i < |roots| {
      assert roots[i] in keys;
      var j :| 0 <= j < |keys| && keys[j] == roots[i];
      assert GoesTo(keys, fileIds, roots[i], f) <==> fileOf[i] == f;
    }
  }

  lemma LoadOfFile(length: seq<nat>, roots: seq<nat>, keys: seq<nat>, fileIds: seq<nat>, fileOf: seq<nat>, f: nat)
    requires KeysOf(length, roots, keys) && Placed(roots, keys, fileIds, fileOf)
    ensures Load(SizesOf(length, roots, keys), fileIds, f) == Load(length, fileOf, f)
  {
    PlacedFollowsRoots(length, roots, keys, fileIds, fileOf);
    GroupLoad(length, roots, keys, fileOf, f);
    assert fileOf[..|length|] == fileOf;
  }

  lemma {:induction false} SameLoadSum(length: seq<nat>, roots: seq<nat>, keys: seq<nat>,
                                       fileIds: seq<nat>, fileOf: seq<nat>, m: nat)
    requires KeysOf(length, roots, keys) && Placed(roots, keys, fileIds, fileOf)
    ensures LoadSum(SizesOf(length, roots, keys), fileIds, m) == LoadSum(length, fileOf, m)
  {
    if m > 0 {
      SameLoadSum(length, roots, keys, fileIds, fileOf, m - 1);
      LoadOfFile(length, roots, keys, fileIds, fileOf, m - 1);
    }
  }

  /** m times the longest file is at most the total length plus (m - 1) times the longest set. */
  lemma SplitBound(length: seq<nat>, deps: seq<seq<nat>>, roots: seq<nat>, keys: seq<nat>,
                   fileIds: seq<nat>, fileOf: seq<nat>, m: nat, f: nat, largest: nat)
    requires KeysOf(length, roots, keys) && Placed(roots, keys, fileIds, fileOf) && RootsOf(deps, roots)
    requires IsGreedy(SizesOf(length, roots, keys), fileIds, m) && f < m && SetsAtMost(length, deps, largest)
    ensures m * Load(length, fileOf, f) <= Total(length) + (m - 1) * largest
  {
    hide Linked, LoadSum, Load, IsGreedy;
    var w := SizesOf(length, roots, keys);
    forall j | 0 <= j < |keys| ensures w[j] <= largest {
      assert keys[j] in keys;
      var i :| 0 <= i < |roots| && roots[i] == keys[j];
      LinkedLengthIsLoad(length, roots, deps, keys[j], keys[j]);
    }
    LoadOfFile(length, roots, keys, fileIds, fileOf, f);
    GreedyAssigns(w, fileIds, m);
    PlacedInRange(length, roots, keys, fileIds, fileOf, m);
    LoadsAddUp(w, fileIds, m);
    LoadsAddUp(length, fileOf, m);
    SameLoadSum(length, roots, keys, fileIds, fileOf, m);
    GreedyBound(w, fileIds, m, f, largest);
  }

  /** No way to keep linked functions together has files shorter than 3m/(4m - 1) of the longest. */
  lemma SplitNearBest(length: seq<nat>, deps: seq<seq<nat>>, roots: seq<nat>, keys: seq<nat>,
                      fileIds: seq<nat>, fileOf: seq<nat>, m: nat, f: nat, other: seq<nat>, opt: nat)
    requires KeysOf(length, roots, keys) && Placed(roots, keys, fileIds, fileOf) && RootsOf(deps, roots)
    requires IsGreedy(SizesOf(length, roots, keys), fileIds, m) && f < m && Rival(length, deps, other, m, opt)
    ensures 3 * m * Load(length, fileOf, f) <= (4 * m - 1) * opt
  {
    hide LoadSum, Load, IsGreedy;
    var w := SizesOf(length, roots, keys);
    RivalFollowsRoots(length, deps, roots, keys, other);
    var b := FilesOf(other, keys);
    forall g: nat | g < m ensures Load(w, b, g) <= opt {
      GroupLoad(length, roots, keys, other, g);
      assert other[..|length|] == other;
    }
    LoadOfFile(length, roots, keys, fileIds, fileOf, f);
    LongestFirstBound(w, fileIds, b, m, opt, f);
  }

  lemma RivalFollowsRoots(length: seq<nat>, deps: seq<seq<nat>>, roots: seq<nat>, keys: seq<nat>, other: seq<nat>)
    requires KeysOf(length, roots, keys) && RootsOf(deps, roots) && KeepsTogether(deps, other) && |other| == |length|
    ensures FollowsRoots(roots, keys, other)
  {
    hide Linked;
    KeysAreRoots(length, roots, keys);
    forall k | 0 <= k < |roots| ensures roots[k] in keys && other[k] == other[roots[k]] {
      assert roots[k] == roots[roots[k]];
    }
  }

  lemma PlacedWithinBound(length: seq<nat>, deps: seq<seq<nat>>, roots: seq<nat>, keys: seq<nat>,
                          fileIds: seq<nat>, fileOf: seq<nat>, m: nat)
    requires KeysOf(length, roots, keys) && Placed(roots, keys, fileIds, fileOf) && RootsOf(deps, roots)
    requires IsGreedy(SizesOf(length, roots, keys), fileIds, m)
    ensures |fileOf| == |length| && WithinBound(length, deps, fileOf, m) && NearBest(length, deps, fileOf, m)
  {
    assert |fileOf| == |length|;
    hide Linked, Load, Total, IsGreedy, SizesOf, KeysOf, Placed, RootsOf, Rival, SetsAtMost;
    forall f: nat, largest: nat | f < m && SetsAtMost(length, deps, largest)
      ensures m * Load(length, fileOf, f) <= Total(length) + (m - 1) * largest
    {
      SplitBound(length, deps, roots, keys, fileIds, fileOf, m, f, largest);
    }
    forall f: nat, other, opt: nat | f < m && Rival(length, deps, other, m, opt)
      ensures 3 * m * Load(length, fileOf, f) <= (4 * m - 1) * opt
    {
      SplitNearBest(length, deps, roots, keys, fileIds, fileOf, m, f, other, opt);
    }
  }

  lemma PlacedEachOnce(length: seq<nat>, roots: seq<nat>, keys: seq<nat>, sets: seq<seq<nat>>,
                       fileIds: seq<nat>, fileOf: seq<nat>, files: seq<seq<nat>>)
    requires KeysOf(length, roots, keys) && Placed(roots, keys, fileIds, fileOf) && |sets| == |keys|
    requires forall j :: 0 <= j < |keys| ==> sets[j] == Members(roots, keys[j])
    requires forall f: nat :: f < |files| ==> files[f] == Gather(sets, fileIds, f)
    ensures HoldsEachOnce(files, fileOf)
  {
    forall f: nat, i: nat | f < |files|
      ensures Occurrences(files[f], i) == (if i < |fileOf| && fileOf[i] == f then 1 else 0)
    {
      PlacedOnce(length, roots, keys, sets, fileIds, fileOf, f, i);
      assert files[f] == Gather(sets, fileIds, f);
    }
  }

  /** Merges the dependencies, groups the functions by root and packs the sets, the largest first. */
  method SplitFunctions(length: seq<nat>, deps: seq<seq<nat>>, chunks: nat)
    returns (files: seq<seq<nat>>, fileSizes: seq<nat>, ghost fileOf: seq<nat>)
    requires chunks > 0 && forall d, i :: d in deps && i in d ==> i < |length|
    ensures |files| == |fileSizes| == chunks && |fileOf| == |length| && IsAssignment(fileOf, chunks)
    ensures HoldsEachOnce(files, fileOf) && KeepsTogether(deps, fileOf)
    ensures forall f: nat :: f < chunks ==> fileSizes[f] == Load(length, fileOf, f)
    ensures WithinBound(length, deps, fileOf, chunks) && NearBest(length, deps, fileOf, chunks)
  {
    hide Linked, Load, Gather, Members, IsGreedy, WithinBound, NearBest, HoldsEachOnce, KeepsTogether, IsAssignment;
    var roots := MergeDependencies(|length|, deps);
    var keys, sets, setSizes := Group(length, roots);
    assert forall r :: r in keys ==> r in sets && r in setSizes by {
      forall r | r in keys ensures r in sets && r in setSizes { assert SetOf(length, roots, sets, setSizes, r); }
    }
    var sorted := SortDescending(keys, setSizes);
    var parts := seq(|sorted|, j requires 0 <= j < |sorted| => sets[sorted[j]]);
    var sizes := seq(|sorted|, j requires 0 <= j < |sorted| => setSizes[sorted[j]]);
    ghost var fileIds;
    files, fileSizes, fileIds := Pack(parts, sizes, chunks);
    forall j | 0 <= j < |sorted|
      ensures parts[j] == Members(roots, sorted[j]) && sizes[j] == Load(length, roots, sorted[j])
    {
      assert SetOf(length, roots, sets, setSizes, sorted[j]);
    }
    assert sizes == SizesOf(length, roots, sorted);
    assert KeysOf(length, roots, sorted) && RootsOf(deps, roots);
    fileOf := Place(roots, sorted, fileIds);
    hide KeysOf, RootsOf, Placed, SizesOf, Distinct;
    GreedyAssigns(sizes, fileIds, chunks);
    PlacedInRange(length, roots, sorted, fileIds, fileOf, chunks);
    PlacedTogether(deps, length, roots, sorted, fileIds, fileOf);
    PlacedWithinBound(length, deps, roots, sorted, fileIds, fileOf, chunks);
    PlacedEachOnce(length, roots, sorted, parts, fileIds, fileOf, files);
    forall f: nat | f < chunks ensures fileSizes[f] == Load(length, fileOf, f) {
      LoadOfFile(length, roots, sorted, fileIds, fileOf, f);
    }
  }
}
