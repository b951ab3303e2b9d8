/** memprof's books: how much live memory each node of its hash table answers for. */
module AllocAccounting {
  import opened Outcomes
  import opened Sums

  const WORD: int := 0x1_0000_0000_0000_0000
  const HALF: int := 0x8000_0000

  /** `static_cast<std::int32_t>` of a size. */
  function ToInt32(size: nat): int {
    var low := size % 0x1_0000_0000;
    if low < HALF then low else low - 0x1_0000_0000
  }

  /** The recorded size is the one 32-bit value that is congruent to the size. */
  lemma ToInt32Congruent(size: nat, v: int)
    ensures v == ToInt32(size) <==> -0x8000_0000 <= v < 0x8000_0000 && (size - v) % 0x1_0000_0000 == 0
  {
    var (q, low) := (size / 0x1_0000_0000, size % 0x1_0000_0000);
    assert size == q * 0x1_0000_0000 + low;
    if -0x8000_0000 <= v < 0x8000_0000 && (size - v) % 0x1_0000_0000 == 0 {
      var k := (size - v) / 0x1_0000_0000;
      assert size - v == k * 0x1_0000_0000;
    }
  }

  /** What a caller asked for, and the malloc_info in front of it; freed blocks stay here, no longer live. */
  datatype Block = Block(asked: nat, size: int, htPos: nat, live: bool)

  function Recorded(blocks: seq<Block>): (w: seq<nat>)
    ensures |w| == |blocks|
  {
    seq(|blocks|, i requires 0 <= i < |blocks| => if blocks[i].live && blocks[i].size >= 0 then blocks[i].size else 0)
  }

  function Asked(blocks: seq<Block>): (w: seq<nat>)
    ensures |w| == |blocks|
  {
    seq(|blocks|, i requires 0 <= i < |blocks| => if blocks[i].live then blocks[i].asked else 0)
  }

  function Nodes(blocks: seq<Block>): (a: seq<nat>)
    ensures |a| == |blocks|
  {
    seq(|blocks|, i requires 0 <= i < |blocks| => blocks[i].htPos)
  }

  /** The live memory recorded at node p. */
  function LiveAt(blocks: seq<Block>, p: nat): nat {
    Load(Recorded(blocks), Nodes(blocks), p)
  }

  function Live(blocks: seq<Block>): nat {
    Total(Recorded(blocks))
  }

  ghost predicate GoodBlocks(blocks: seq<Block>, nodes: nat) {
    && (forall i :: 0 <= i < |blocks| ==> blocks[i].htPos < nodes && blocks[i].size == ToInt32(blocks[i].asked) >= 0)
    && Total(Asked(blocks)) < WORD
  }

  // ----- contents

  /** How many bytes `realloc` copies: the smaller of the two recorded sizes. */
  function Kept(asked: nat, n: nat): int {
    if ToInt32(n) < ToInt32(asked) then ToInt32(n) else ToInt32(asked)
  }

  function Min(a: nat, b: nat): nat {
    if a < b then a else b
  }

  /** The product of two sizes, which wraps around. */
  function Product(a: nat, b: nat): (n: nat)
    ensures n < WORD
  {
    a * b % WORD
  }

  lemma KeptInside(asked: nat, n: nat)
    requires ToInt32(asked) >= 0 && ToInt32(n) >= 0
    ensures 0 <= Kept(asked, n) <= Min(asked, n)
  {
  }

  /** All that both blocks have room for is copied exactly if it is below 2 GB and the larger size is recorded as no
    less. */
  lemma KeptAllIff(asked: nat, n: nat)
    requires ToInt32(asked) >= 0 && ToInt32(n) >= 0
    ensures Kept(asked, n) == Min(asked, n) <==>
      Min(asked, n) < HALF && ToInt32(if asked < n then n else asked) >= Min(asked, n)
  {
    hide ToInt32;
    AtMostAsked(asked);
    AtMostAsked(n);
  }

  /** What the new block holds after the copy into fresh memory. */
  function Copied(before: seq<bv8>, memory: seq<bv8>, k: nat): (after: seq<bv8>)
    requires k <= |before| && k <= |memory|
    ensures |after| == |memory| && after[..k] == before[..k] && after[k..] == memory[k..]
  {
    before[..k] + memory[k..]
  }

  predicate AllZero(bytes: seq<bv8>, n: nat) {
    |bytes| == n && forall k :: 0 <= k < n ==> bytes[k] == 0
  }

  function ZeroBytes(n: nat): seq<bv8> {
    seq(n, _ => 0)
  }

  class Profiler {
    /** The sizes of the table's nodes. */
    const size: array<nat>
    var blocks: seq<Block>
    /** The bytes of every block. */
    var data: seq<seq<bv8>>

    /** Every node holds exactly the live memory recorded at it. */
    ghost predicate Valid()
      reads this, size
    {
      && GoodBlocks(blocks, size.Length)
      && (forall p: nat :: p < size.Length ==> size[p] == LiveAt(blocks, p))
      && |data| == |blocks| && forall i :: 0 <= i < |data| ==> |data[i]| == blocks[i].asked
    }

    constructor (nodes: nat)
      ensures Valid() && blocks == [] && data == [] && size.Length == nodes && fresh(size)
    {
      size := new nat[nodes](_ => 0);
      blocks, data := [], [];
    }

    /** Adds to a node or takes from it, modulo 2^64; ok is false where the program aborts. */
    method RegisterXalloc(info: Block, diff: int) returns (ok: bool)
      requires info.htPos < size.Length
      modifies size
      ensures ok <==> info.size >= 0 && (diff > 0 || old(size[info.htPos]) >= info.size)
      ensures info.size >= 0 ==> size[..] == old(size[..])[info.htPos :=
        (if diff > 0 then old(size[info.htPos]) + info.size else old(size[info.htPos]) - info.size) % WORD]
      ensures info.size < 0 ==> size[..] == old(size[..])
    {
      if info.size < 0 {
        return false;
      }
      var oldValue := size[info.htPos];
      if diff > 0 {
        size[info.htPos] := (oldValue + info.size) % WORD;
        ok := true;
      } else {
        size[info.htPos] := (oldValue - info.size) % WORD;
        ok := oldValue >= info.size;
      }
    }

    /** None where the program aborts: a size whose low 32 bits read as a negative number. The memory that the
      system hands out holds any bytes. */
    method MallocWithFrame(n: nat, htPos: nat, memory: seq<bv8>) returns (r: Option<nat>)
      requires Valid() && htPos < size.Length && Total(Asked(blocks)) + n < WORD && |memory| == n
      modifies this, size
      ensures Valid()
      ensures r == if ToInt32(n) >= 0 then Some(|old(blocks)|) else None
      ensures blocks == if ToInt32(n) >= 0 then old(blocks) + [Block(n, ToInt32(n), htPos, true)] else old(blocks)
      ensures data == if ToInt32(n) >= 0 then old(data) + [memory] else old(data)
    {
      hide LiveAt, ToInt32;
      var info := Block(n, ToInt32(n), htPos, true);
      if info.size >= 0 { AddBlock(blocks, info, size.Length); }
      var ok := RegisterXalloc(info, 1);
      if !ok {
        return None;
      }
      r := Some(|blocks|);
      blocks, data := blocks + [info], data + [memory];
    }

    /** Of a live block; the subtraction never fails. */
    method Free(block: Option<nat>) returns (ok: bool)
      requires Valid() && (block.Some? ==> block.value < |blocks| && blocks[block.value].live)
      modifies this, size
      ensures Valid() && ok
      ensures blocks == if block == None then old(blocks)
        else old(blocks)[block.value := old(blocks)[block.value].(live := false)]
      ensures data == old(data)
    {
      hide LiveAt, ToInt32;
      if block == None {
        return true;
      }
      var info := blocks[block.value];
      DropBlock(blocks, block.value, size.Length);
      ok := RegisterXalloc(info, -1);
      blocks := blocks[block.value := info.(live := false)];
    }

    method Calloc(a: nat, b: nat, htPos: nat, memory: seq<bv8>) returns (r: Option<nat>)
      requires Valid() && htPos < size.Length && Total(Asked(blocks)) + Product(a, b) < WORD
      requires |memory| == Product(a, b)
      modifies this, size
      ensures Valid()
      ensures var n := Product(a, b);
        && r == (if ToInt32(n) >= 0 then Some(|old(blocks)|) else None)
        && blocks == (if ToInt32(n) >= 0 then old(blocks) + [Block(n, ToInt32(n), htPos, true)] else old(blocks))
        && (r == None ==> data == old(data))
        && (r != None ==> data == old(data) + [data[|old(data)|]] && AllZero(data[|old(data)|], n))
    {
      hide ToInt32, LiveAt, Product;
      var n := Product(a, b);
      r := MallocWithFrame(n, htPos, memory);
      if r != None {
        data := data[r.value := ZeroBytes(n)];
      }
    }

    /** Copies what both blocks have room for, as their recorded sizes say, and frees the old block. */
    method Realloc(block: Option<nat>, n: nat, htPos: nat, memory: seq<bv8>) returns (r: Option<nat>)
      requires Valid() && htPos < size.Length && Total(Asked(blocks)) + n < WORD && |memory| == n
      requires block.Some? ==> block.value < |blocks| && blocks[block.value].live
      modifies this, size
      ensures Valid()
      ensures r == if ToInt32(n) >= 0 then Some(|old(blocks)|) else None
      ensures blocks == if ToInt32(n) < 0 then old(blocks)
        else (if block == None then old(blocks)
              else old(blocks)[block.value := old(blocks)[block.value].(live := false)]) +
                [Block(n, ToInt32(n), htPos, true)]
      ensures r == None ==> data == old(data)
      ensures r.Some? && block == None ==> data == old(data) + [memory]
      ensures r.Some? && block.Some? ==>
        var (before, k) := (old(data)[block.value], Kept(old(blocks)[block.value].asked, n));
        0 <= k <= |before| && k <= n && data == old(data) + [Copied(before, memory, k)]
    {
      hide ToInt32, LiveAt;
      r := MallocWithFrame(n, htPos, memory);
      if block == None || r == None {
        return;
      }
      var info := blocks[block.value];
      KeptInside(info.asked, n);
      var toCopy := if ToInt32(n) < info.size then ToInt32(n) else info.size;
      data := data[r.value := Copied(data[block.value], data[r.value], toCopy)];
      var _ := Free(block);
    }

    /** The nodes with memory, in the order of the table. */
    method DumpAlloc() returns (infos: seq<(nat, nat)>)
      ensures forall k :: 0 <= k < |infos| ==> infos[k].0 < size.Length && size[infos[k].0] == infos[k].1 > 0
      ensures forall k, l :: 0 <= k < l < |infos| ==> infos[k].0 < infos[l].0
      ensures Total(Amounts(infos)) == Total(size[..])
    {
      hide Total, Amounts;
      infos := [];
      NothingListed();
      for p := 0 to size.Length
        invariant forall k :: 0 <= k < |infos| ==> infos[k].0 < p && size[infos[k].0] == infos[k].1 > 0
        invariant forall k, l :: 0 <= k < l < |infos| ==> infos[k].0 < infos[l].0
        invariant Total(Amounts(infos)) == Total(size[..p])
      {
        assert size[..p + 1] == size[..p] + [size[p]];
        TotalSnoc(size[..p], size[p]);
        if size[p] != 0 {
          ListedNext(infos, p, size[p]);
          infos := infos + [(p, size[p])];
        }
      }
      assert size[..size.Length] == size[..];
    }

    /** All live memory, as recorded. */
    method GetUsedMemorySize() returns (used: nat)
      requires Valid()
      ensures used == Live(blocks)
    {
      var infos := DumpAlloc();
      used := 0;
      for k := 0 to |infos|
        invariant used == Total(Amounts(infos)[..k]) <= Total(Amounts(infos))
      {
        assert Amounts(infos)[..k + 1][..k] == Amounts(infos)[..k];
        used := used + infos[k].1;
        TotalOfPrefix(Amounts(infos), k + 1);
      }
      assert Amounts(infos)[..|infos|] == Amounts(infos);
      NodesHoldAll(blocks, size[..]);
    }
  }

  function Amounts(infos: seq<(nat, nat)>): (w: seq<nat>)
    ensures |w| == |infos|
  {
    seq(|infos|, k requires 0 <= k < |infos| => infos[k].1)
  }

  // ----- the sums

  lemma TotalSnoc(w: seq<nat>, x: nat)
    ensures Total(w + [x]) == Total(w) + x
  {
    assert (w + [x])[..|w|] == w;
  }

  lemma NothingListed()
    ensures Total(Amounts([])) == 0 && Total([]) == 0
  {
  }

  lemma ListedNext(infos: seq<(nat, nat)>, p: nat, amount: nat)
    ensures Total(Amounts(infos + [(p, amount)])) == Total(Amounts(infos)) + amount
  {
    hide Total;
    assert Amounts(infos + [(p, amount)]) == Amounts(infos) + [amount];
    TotalSnoc(Amounts(infos), amount);
  }

  lemma {:induction false} TotalOfPrefix(w: seq<nat>, k: nat)
    requires k <= |w|
    ensures Total(w[..k]) <= Total(w)
    decreases |w|
  {
    if k < |w| {
      TotalOfPrefix(w[..|w| - 1], k);
      assert w[..|w| - 1][..k] == w[..k];
    } else {
      assert w[..k] == w;
    }
  }

  lemma {:induction false} TotalUpdate(w: seq<nat>, j: nat)
    requires j < |w|
    ensures Total(w[j := 0]) == Total(w) - w[j]
  {
    var n := |w| - 1;
    if j < n {
      assert w[j := 0][..n] == w[..n][j := 0];
      TotalUpdate(w[..n], j);
    } else {
      assert w[j := 0][..n] == w[..n];
    }
  }

  lemma {:induction false} LoadAtMostTotal(w: seq<nat>, a: seq<nat>, f: nat)
    requires |w| == |a|
    ensures Load(w, a, f) <= Total(w)
  {
    if |w| > 0 { LoadAtMostTotal(w[..|w| - 1], a[..|w| - 1], f); }
  }

  lemma {:induction false} TotalMono(v: seq<nat>, w: seq<nat>)
    requires |v| == |w| && forall i :: 0 <= i < |v| ==> v[i] <= w[i]
    ensures Total(v) <= Total(w)
    ensures Total(v) == Total(w) <==> v == w
  {
    if |v| > 0 {
      var n := |v| - 1;
      TotalMono(v[..n], w[..n]);
      assert v == v[..n] + [v[n]] && w == w[..n] + [w[n]];
    }
  }

  lemma AtMostAsked(n: nat)
    ensures ToInt32(n) <= n
    ensures ToInt32(n) == n <==> n < HALF
  {
  }

  lemma RecordedAtMostAsked(blocks: seq<Block>, nodes: nat)
    requires GoodBlocks(blocks, nodes)
    ensures forall i :: 0 <= i < |blocks| ==> Recorded(blocks)[i] <= Asked(blocks)[i]
  {
    forall i | 0 <= i < |blocks| ensures Recorded(blocks)[i] <= Asked(blocks)[i] { AtMostAsked(blocks[i].asked); }
  }

  lemma AddBlock(blocks: seq<Block>, info: Block, nodes: nat)
    requires GoodBlocks(blocks, nodes) && info.live && info.htPos < nodes && info.size == ToInt32(info.asked) >= 0
    requires Total(Asked(blocks)) + info.asked < WORD
    ensures GoodBlocks(blocks + [info], nodes)
    ensures forall p: nat ::
      LiveAt(blocks + [info], p) == LiveAt(blocks, p) + (if p == info.htPos then info.size else 0)
    ensures forall p: nat :: LiveAt(blocks, p) + info.size < WORD
  {
    hide ToInt32;
    var bs := blocks + [info];
    assert Recorded(bs) == Recorded(blocks) + [info.size] && Nodes(bs) == Nodes(blocks) + [info.htPos];
    assert Asked(bs) == Asked(blocks) + [info.asked] && Asked(bs)[..|blocks|] == Asked(blocks);
    LoadSnoc(Recorded(blocks), Nodes(blocks), info.size, info.htPos);
    RecordedAtMostAsked(blocks, nodes);
    AtMostAsked(info.asked);
    TotalMono(Recorded(blocks), Asked(blocks));
    forall p: nat ensures LiveAt(blocks, p) + info.size < WORD {
      LoadAtMostTotal(Recorded(blocks), Nodes(blocks), p);
    }
  }

  lemma DropBlock(blocks: seq<Block>, j: nat, nodes: nat)
    requires GoodBlocks(blocks, nodes) && j < |blocks| && blocks[j].live
    ensures var (bs, info) := (blocks[j := blocks[j].(live := false)], blocks[j]);
      && GoodBlocks(bs, nodes)
      && (forall p: nat :: LiveAt(blocks, p) == LiveAt(bs, p) + (if p == info.htPos then info.size else 0))
      && forall p: nat :: LiveAt(blocks, p) < WORD
  {
    hide ToInt32;
    var (bs, info) := (blocks[j := blocks[j].(live := false)], blocks[j]);
    assert Recorded(bs)[j := Recorded(bs)[j] + info.size] == Recorded(blocks) && Nodes(bs) == Nodes(blocks);
    assert Asked(bs) == Asked(blocks)[j := 0];
    TotalUpdate(Asked(blocks), j);
    RecordedAtMostAsked(blocks, nodes);
    TotalMono(Recorded(blocks), Asked(blocks));
    forall p: nat
      ensures LiveAt(blocks, p) == LiveAt(bs, p) + (if p == info.htPos then info.size else 0)
      ensures LiveAt(blocks, p) < WORD
    {
      LoadUpdate(Recorded(bs), Nodes(bs), j, info.size, p);
      LoadAtMostTotal(Recorded(blocks), Nodes(blocks), p);
    }
  }

  /** The nodes together hold all live memory. */
  lemma NodesHoldAll(blocks: seq<Block>, sizes: seq<nat>)
    requires GoodBlocks(blocks, |sizes|) && forall p: nat :: p < |sizes| ==> sizes[p] == LiveAt(blocks, p)
    ensures Total(sizes) == Live(blocks)
  {
    TotalOfLoads(Recorded(blocks), Nodes(blocks), sizes, |sizes|);
    assert sizes[..|sizes|] == sizes;
    LoadsAddUp(Recorded(blocks), Nodes(blocks), |sizes|);
  }

  lemma {:induction false} TotalOfLoads(w: seq<nat>, a: seq<nat>, sizes: seq<nat>, m: nat)
    requires |w| == |a| && m <= |sizes| && forall p: nat :: p < |sizes| ==> sizes[p] == Load(w, a, p)
    ensures Total(sizes[..m]) == LoadSum(w, a, m)
  {
    if m > 0 {
      assert sizes[..m][..m - 1] == sizes[..m - 1];
      TotalOfLoads(w, a, sizes, m - 1);
    }
  }

  /** The books show what callers asked for exactly when no live block has 2 GB or more. */
  lemma TruthfulIff(blocks: seq<Block>, nodes: nat)
    requires GoodBlocks(blocks, nodes)
    ensures Live(blocks) == Total(Asked(blocks)) <==>
            forall i :: 0 <= i < |blocks| && blocks[i].live ==> blocks[i].asked < HALF
    ensures Live(blocks) <= Total(Asked(blocks))
  {
    hide ToInt32;
    RecordedAtMostAsked(blocks, nodes);
    TotalMono(Recorded(blocks), Asked(blocks));
    forall i | 0 <= i < |blocks| && blocks[i].live
      ensures Recorded(blocks)[i] == Asked(blocks)[i] <==> blocks[i].asked < HALF
    {
      AtMostAsked(blocks[i].asked);
    }
  }

  /** A block of 4 GB is recorded as empty. */
  lemma FourGigabytesUncounted()
    ensures var blocks := [Block(0x1_0000_0000, ToInt32(0x1_0000_0000), 0, true)];
      GoodBlocks(blocks, 1) && Live(blocks) == 0 && Total(Asked(blocks)) == 0x1_0000_0000
  {
    var blocks := [Block(0x1_0000_0000, ToInt32(0x1_0000_0000), 0, true)];
    assert Asked(blocks) == [0x1_0000_0000] && Recorded(blocks) == [0];
  }
}
