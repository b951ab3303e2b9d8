/** Splitting data codewords into blocks, appending error correction, and interleaving: `addEccAndInterleave`. */
module Interleave {
  import opened GF256
  import opened Polynomial
  import opened ReedSolomon
  import opened CodeDistance
  import opened Outcomes

  /** The parameters a version and an error correction level select. */
  datatype Layout = Layout(numBlocks: nat, blockEccLen: nat, rawCodewords: nat) {
    predicate Valid() {
      1 <= numBlocks && 1 <= blockEccLen <= 255 && numBlocks * blockEccLen <= rawCodewords
    }

    function NumDataCodewords(): int {
      rawCodewords - blockEccLen * numBlocks
    }

    function Blocks(): (g: Shape)
      requires Valid()
      ensures g.Valid() && g.n == numBlocks && g.e == blockEccLen
      ensures g.Raw() == rawCodewords && g.Start(g.n) == NumDataCodewords()
    {
      ShapeFacts(rawCodewords, numBlocks, blockEccLen);
      Shape(numBlocks, numBlocks - rawCodewords % numBlocks, rawCodewords / numBlocks - blockEccLen, blockEccLen)
    }
  }

  /** n blocks with e error correction codewords each: h short ones with s data codewords, then long ones with s + 1. */
  datatype Shape = Shape(n: nat, h: nat, s: nat, e: nat) {
    predicate Valid() {
      1 <= h <= n && 1 <= e <= 255
    }

    function Raw(): int {
      n * (s + e + 1) - h
    }

    function DataLen(j: nat): nat {
      if j < h then s else s + 1
    }

    /** Where the data of block j starts. */
    function Start(j: nat): nat {
      j * s + (if j < h then 0 else j - h)
    }

    /** The short blocks carry a padding byte in row s. */
    predicate IsPadding(i: nat, j: nat) {
      i == s && j < h
    }

    /** How many padding bytes come before row i of block j. */
    function Skipped(i: nat, j: nat): nat {
      if i < s then 0 else if i == s && j < h then j else h
    }

    /** The output index of row i of block j. */
    function Position(i: nat, j: nat): int {
      RowBase(i) + j - Skipped(i, j)
    }

    function RowBase(i: nat): nat {
      i * n
    }

    /** The row of byte t of block j. */
    function Row(j: nat, t: nat): nat {
      if j < h && t >= s then t + 1 else t
    }
  }

  lemma MulMonotone(n: nat, a: nat, b: nat)
    requires a <= b
    ensures a * n <= b * n
  {
    assert b * n == a * n + (b - a) * n;
  }

  lemma MulNext(n: nat, a: nat)
    ensures (a + 1) * n == a * n + n && n * a == a * n
  {
  }

  lemma Division(p: nat, n: nat)
    requires 1 <= n
    ensures p == (p / n) * n + p % n
  {
  }

  lemma ShapeFacts(raw: nat, n: nat, e: nat)
    requires 1 <= n && n * e <= raw
    ensures e <= raw / n
    ensures n * (raw / n + 1) - (n - raw % n) == raw
    ensures n * (raw / n - e) + raw % n == raw - e * n
  {
    var q := raw / n;
    Division(raw, n);
    MulNext(n, q);
    MulNext(n, q + 1);
    MulNext(n, e);
    if e > q {
      MulMonotone(n, q + 1, e);
      assert false;
    }
    assert n * (q - e) == n * q - n * e;
  }

  lemma StartFacts(g: Shape, j: nat)
    ensures g.Start(j) + g.DataLen(j) == g.Start(j + 1)
    ensures g.Start(0) == 0
  {
    MulNext(g.s, j);
  }

  lemma {:induction false} StartMonotone(g: Shape, j: nat, j': nat)
    requires j <= j'
    ensures g.Start(j) <= g.Start(j')
    decreases j' - j
  {
    if j < j' {
      StartFacts(g, j);
      StartMonotone(g, j + 1, j');
    }
  }

  // ----- what the output is made of

  ghost predicate BlocksFit(g: Shape, data: seq<bv8>, divisor: seq<bv8>) {
    g.Valid() && |data| == g.Start(g.n) && |divisor| == g.e
  }

  function DataBlock(g: Shape, data: seq<bv8>, j: nat): (b: seq<bv8>)
    requires |data| == g.Start(g.n) && j < g.n
    ensures |b| == g.DataLen(j)
  {
    StartFacts(g, j);
    StartMonotone(g, j + 1, g.n);
    data[g.Start(j)..g.Start(j + 1)]
  }

  function EccBlock(g: Shape, data: seq<bv8>, divisor: seq<bv8>, j: nat): (b: seq<bv8>)
    requires |data| == g.Start(g.n) && j < g.n && |divisor| > 0
    ensures |b| == |divisor|
  {
    Remainder(DataBlock(g, data, j), divisor)
  }

  /** Block j as the encoder stores it: data, perhaps a padding byte, error correction. */
  function PaddedBlock(g: Shape, data: seq<bv8>, divisor: seq<bv8>, j: nat): (b: seq<bv8>)
    requires |data| == g.Start(g.n) && j < g.n && |divisor| > 0
    ensures |b| == g.s + 1 + |divisor|
  {
    DataBlock(g, data, j) + (if j < g.h then [0] else []) + EccBlock(g, data, divisor, j)
  }

  ghost predicate AreBlocks(g: Shape, blocks: seq<seq<bv8>>) {
    g.Valid() && |blocks| == g.n && forall b :: b in blocks ==> |b| == g.s + 1 + g.e
  }

  /** Row i of the first m blocks, without padding. */
  ghost function RowOut(g: Shape, blocks: seq<seq<bv8>>, i: nat, m: nat): seq<bv8>
    requires AreBlocks(g, blocks) && i <= g.s + g.e && m <= g.n
  {
    if m == 0 then []
    else RowOut(g, blocks, i, m - 1) + (if g.IsPadding(i, m - 1) then [] else [blocks[m - 1][i]])
  }

  ghost function Rows(g: Shape, blocks: seq<seq<bv8>>, i: nat): seq<bv8>
    requires AreBlocks(g, blocks) && i <= g.s + g.e + 1
  {
    if i == 0 then [] else Rows(g, blocks, i - 1) + RowOut(g, blocks, i - 1, g.n)
  }

  lemma {:induction false} RowOutLength(g: Shape, blocks: seq<seq<bv8>>, i: nat, m: nat)
    requires AreBlocks(g, blocks) && i <= g.s + g.e && m <= g.n
    ensures |RowOut(g, blocks, i, m)| == m - g.Skipped(i, m) + g.Skipped(i, 0)
  {
    if m > 0 {
      RowOutLength(g, blocks, i, m - 1);
    }
  }

  lemma {:induction false} RowOutIndex(g: Shape, blocks: seq<seq<bv8>>, i: nat, m: nat, j: nat)
    requires AreBlocks(g, blocks) && i <= g.s + g.e && j < m <= g.n && !g.IsPadding(i, j)
    ensures 0 <= j - g.Skipped(i, j) + g.Skipped(i, 0) < |RowOut(g, blocks, i, m)|
    ensures RowOut(g, blocks, i, m)[j - g.Skipped(i, j) + g.Skipped(i, 0)] == blocks[j][i]
  {
    RowOutLength(g, blocks, i, m - 1);
    if j < m - 1 {
      RowOutIndex(g, blocks, i, m - 1, j);
    }
  }

  lemma RowBaseNext(g: Shape, i: nat)
    ensures g.RowBase(i + 1) == g.RowBase(i) + g.n && g.RowBase(0) == 0
  {
  }

  lemma {:induction false} RowsLength(g: Shape, blocks: seq<seq<bv8>>, m: nat)
    requires AreBlocks(g, blocks) && m <= g.s + g.e + 1
    ensures |Rows(g, blocks, m)| == g.Position(m, 0)
  {
    hide Shape.RowBase;
    RowBaseNext(g, m);
    if m > 0 {
      RowsLength(g, blocks, m - 1);
      RowOutLength(g, blocks, m - 1, g.n);
      RowBaseNext(g, m - 1);
    }
  }

  lemma {:induction false} RowsIndex(g: Shape, blocks: seq<seq<bv8>>, m: nat, i: nat, j: nat)
    requires AreBlocks(g, blocks) && i < m <= g.s + g.e + 1 && j < g.n && !g.IsPadding(i, j)
    ensures 0 <= g.Position(i, j) < |Rows(g, blocks, m)| && Rows(g, blocks, m)[g.Position(i, j)] == blocks[j][i]
  {
    hide Shape.RowBase;
    if i < m - 1 {
      RowsIndex(g, blocks, m - 1, i, j);
      assert Rows(g, blocks, m - 1) <= Rows(g, blocks, m);
    } else {
      hide Shape.Skipped, RowOut;
      RowsLength(g, blocks, i);
      RowOutIndex(g, blocks, i, g.n, j);
      var k := j - g.Skipped(i, j) + g.Skipped(i, 0);
      assert Rows(g, blocks, m) == Rows(g, blocks, i) + RowOut(g, blocks, i, g.n);
      assert g.Position(i, j) == |Rows(g, blocks, i)| + k;
    }
  }

  lemma RawIsLastPosition(g: Shape)
    requires g.Valid()
    ensures g.Raw() == g.Position(g.s + g.e + 1, 0)
  {
    MulNext(g.n, g.s + g.e + 1);
  }

  // ----- the method

  method AddEccAndInterleave(l: Layout, data: seq<bv8>) returns (r: Result<seq<bv8>>)
    requires l.Valid()
    ensures r.Failure? <==> |data| != l.NumDataCodewords()
    ensures r.Success? ==> |r.value| == l.rawCodewords
    ensures r.Success? ==> exists divisor ::
      IsDivisor(divisor, l.blockEccLen) && Carries(l.Blocks(), data, divisor, r.value)
  {
    if |data| != l.NumDataCodewords() {
      return Failure(InvalidArgument);
    }
    var numBlocks := l.numBlocks;
    var blockEccLen := l.blockEccLen;
    var numShortBlocks := numBlocks - l.rawCodewords % numBlocks;
    var shortBlockLen := l.rawCodewords / numBlocks;
    ghost var g := l.Blocks();

    var div := ReedSolomonComputeDivisor(blockEccLen);
    var rsDiv := div.value;
    var blocks := SplitBlocks(g, data, rsDiv, numBlocks, shortBlockLen - blockEccLen, numShortBlocks);
    var result := InterleaveBlocks(g, blocks, shortBlockLen - blockEccLen, numShortBlocks);
    BlocksRecovered(g, data, rsDiv, blocks, result);
    assert IsDivisor(rsDiv, blockEccLen);
    r := Success(result);
  }

  ghost predicate IsDivisor(divisor: seq<bv8>, degree: nat) {
    |divisor| == degree && [1] + divisor == Generator(degree)
  }

  /** The first loop: splits the data into blocks and appends error correction to each. */
  method SplitBlocks(ghost g: Shape, data: seq<bv8>, rsDiv: seq<bv8>, numBlocks: nat, shortDataLen: nat,
      numShortBlocks: nat)
    returns (blocks: seq<seq<bv8>>)
    requires BlocksFit(g, data, rsDiv) && numBlocks == g.n && shortDataLen == g.s && numShortBlocks == g.h
    ensures AreBlocks(g, blocks)
    ensures forall j :: 0 <= j < g.n ==> blocks[j] == PaddedBlock(g, data, rsDiv, j)
  {
    hide Shape.Start;
    blocks := [];
    var k := 0;
    StartFacts(g, 0);
    for i := 0 to numBlocks
      invariant k == g.Start(i) && |blocks| == i
      invariant forall j :: 0 <= j < i ==> blocks[j] == PaddedBlock(g, data, rsDiv, j)
    {
      StartFacts(g, i);
      StartMonotone(g, i + 1, numBlocks);
      var dat := data[k..k + (shortDataLen + (if i < numShortBlocks then 0 else 1))];
      assert dat == DataBlock(g, data, i);
      k := k + |dat|;
      var ecc := ReedSolomonComputeRemainder(dat, rsDiv);
      if i < numShortBlocks {
        dat := dat + [0];
      }
      dat := dat + ecc;
      assert dat == PaddedBlock(g, data, rsDiv, i);
      blocks := blocks + [dat];
    }
  }

  /** The second loop: takes the blocks row by row, skipping the padding byte of the short blocks. */
  method InterleaveBlocks(ghost g: Shape, blocks: seq<seq<bv8>>, shortDataLen: nat, numShortBlocks: nat)
    returns (result: seq<bv8>)
    requires AreBlocks(g, blocks) && shortDataLen == g.s && numShortBlocks == g.h
    ensures result == Rows(g, blocks, g.s + g.e + 1) && |result| == g.Raw()
  {
    hide Shape.Raw, Shape.Position, Rows, RowOut;
    result := [];
    RowsStart(g, blocks);
    for i := 0 to |blocks[0]|
      invariant result == Rows(g, blocks, i)
    {
      RowsNext(g, blocks, i);
      for j := 0 to |blocks|
        invariant result == Rows(g, blocks, i) + RowOut(g, blocks, i, j)
      {
        RowOutNext(g, blocks, i, j);
        if i != shortDataLen || j >= numShortBlocks {
          result := result + [blocks[j][i]];
        }
      }
    }
    RowsLength(g, blocks, g.s + g.e + 1);
    RawIsLastPosition(g);
  }

  lemma RowsStart(g: Shape, blocks: seq<seq<bv8>>)
    requires AreBlocks(g, blocks)
    ensures Rows(g, blocks, 0) == []
  {
  }

  lemma RowsNext(g: Shape, blocks: seq<seq<bv8>>, i: nat)
    requires AreBlocks(g, blocks) && i <= g.s + g.e
    ensures RowOut(g, blocks, i, 0) == []
    ensures Rows(g, blocks, i + 1) == Rows(g, blocks, i) + RowOut(g, blocks, i, g.n)
  {
  }

  lemma RowOutNext(g: Shape, blocks: seq<seq<bv8>>, i: nat, j: nat)
    requires AreBlocks(g, blocks) && i <= g.s + g.e && j < g.n
    ensures RowOut(g, blocks, i, j + 1) ==
      RowOut(g, blocks, i, j) + (if i == g.s && j < g.h then [] else [blocks[j][i]])
  {
  }

  // ----- de-interleaving

  /** Every byte of every block has a place in the output ... */
  lemma PositionInRange(g: Shape, i: nat, j: nat)
    requires g.Valid() && j < g.n && i <= g.s + g.e && !g.IsPadding(i, j)
    ensures 0 <= g.Position(i, j) < g.Raw()
  {
    MulNext(g.n, i);
    MulNext(g.n, g.s + g.e + 1);
    MulNext(g.n, g.s + g.e);
    if i == g.s + g.e {
      MulMonotone(g.n, 1, i);
    } else {
      MulMonotone(g.n, i + 1, g.s + g.e);
      if i > g.s { MulMonotone(g.n, 1, i); }
    }
  }

  /** ... different bytes have different places ... */
  lemma PositionInjective(g: Shape, i: nat, j: nat, i': nat, j': nat)
    requires g.Valid() && j < g.n && j' < g.n
    requires !g.IsPadding(i, j) && !g.IsPadding(i', j')
    ensures g.Position(i, j) == g.Position(i', j') <==> i == i' && j == j'
  {
    if i < i' {
      RowsApart(g, i, j, i', j');
    } else if i' < i {
      RowsApart(g, i', j', i, j);
    }
  }

  lemma RowsApart(g: Shape, i: nat, j: nat, i': nat, j': nat)
    requires g.Valid() && j < g.n && j' < g.n && i < i'
    requires !g.IsPadding(i, j) && !g.IsPadding(i', j')
    ensures g.Position(i, j) < g.Position(i', j')
  {
    MulNext(g.n, i);
    MulMonotone(g.n, i + 1, i');
    if i + 1 < i' {
      MulNext(g.n, i + 1);
      MulMonotone(g.n, i + 2, i');
    }
  }

  /** ... and every place of the output holds such a byte. */
  lemma PositionSurjective(g: Shape, p: nat) returns (j: nat, t: nat)
    requires g.Valid() && p < g.Raw()
    ensures j < g.n && t < g.DataLen(j) + g.e && g.Position(g.Row(j, t), j) == p
  {
    var i := p / g.n;
    Division(p, g.n);
    if i < g.s {
      j, t := p % g.n, i;
    } else {
      assert p >= g.s * g.n by { MulMonotone(g.n, g.s, i); }
      if p < g.s * g.n + (g.n - g.h) {
        j, t := g.h + p - g.s * g.n, g.s;
      } else {
        i := (p + g.h) / g.n;
        j := (p + g.h) % g.n;
        Division(p + g.h, g.n);
        MulNext(g.n, g.s);
        MulNext(g.n, g.s + g.e + 1);
        if i <= g.s {
          MulMonotone(g.n, i, g.s);
          assert false;
        }
        if i > g.s + g.e {
          MulMonotone(g.n, g.s + g.e + 1, i);
          assert false;
        }
        t := if j < g.h then i - 1 else i;
      }
    }
  }

  predicate InOrder(u: nat, j: nat, u': nat, j': nat) {
    u < u' || (u == u' && j < j')
  }

  /** The places follow one another as the standard asks: the first data bytes of all blocks in order, then the second
    ones and so on, blocks that are too short left out; then, likewise, the error correction bytes. */
  lemma PlacesInOrder(g: Shape, j: nat, t: nat, j': nat, t': nat)
    requires g.Valid() && j < g.n && j' < g.n && t < g.DataLen(j) + g.e && t' < g.DataLen(j') + g.e
    ensures var (p, p') := (g.Position(g.Row(j, t), j), g.Position(g.Row(j', t'), j'));
      var (d, d') := (g.DataLen(j), g.DataLen(j'));
      if t < d && t' < d' then p < p' <==> InOrder(t, j, t', j')
      else if t >= d && t' >= d' then p < p' <==> InOrder(t - d, j, t' - d', j')
      else p < p' <==> t < d
  {
    var (i, i') := (g.Row(j, t), g.Row(j', t'));
    if i < i' {
      RowsApart(g, i, j, i', j');
    } else if i' < i {
      RowsApart(g, i', j', i, j);
    }
  }

  /** The blocks share the data as evenly as can be, shorter ones first. */
  lemma BlocksAreEven(l: Layout, j: nat, k: nat)
    requires l.Valid() && j <= k < l.numBlocks
    ensures l.Blocks().DataLen(j) <= l.Blocks().DataLen(k) <= l.Blocks().DataLen(j) + 1
    ensures l.Blocks().Start(l.numBlocks) == l.NumDataCodewords() && l.Blocks().n == l.numBlocks
    ensures l.Blocks().Start(0) == 0 && l.Blocks().Start(j + 1) == l.Blocks().Start(j) + l.Blocks().DataLen(j)
  {
    StartFacts(l.Blocks(), j);
  }

  /** Byte t of block j, read back from an interleaved sequence. */
  function ReadByte(g: Shape, codewords: seq<bv8>, j: nat, t: nat): bv8
    requires g.Valid() && |codewords| == g.Raw() && j < g.n && t < g.DataLen(j) + g.e
  {
    PositionInRange(g, g.Row(j, t), j);
    codewords[g.Position(g.Row(j, t), j)]
  }

  /** Block j, read back from an interleaved sequence. */
  function ReadBlock(g: Shape, codewords: seq<bv8>, j: nat): (b: seq<bv8>)
    requires g.Valid() && |codewords| == g.Raw() && j < g.n
    ensures |b| == g.DataLen(j) + g.e
  {
    seq(g.DataLen(j) + g.e, t requires 0 <= t < g.DataLen(j) + g.e => ReadByte(g, codewords, j, t))
  }

  /** The data codewords of the first m blocks, read back from an interleaved sequence. */
  function ReadData(g: Shape, codewords: seq<bv8>, m: nat): seq<bv8>
    requires g.Valid() && |codewords| == g.Raw() && m <= g.n
  {
    if m == 0 then [] else ReadData(g, codewords, m - 1) + ReadBlock(g, codewords, m - 1)[..g.DataLen(m - 1)]
  }

  /** The output carries, for every block, its data and its remainder, and the data blocks form the input. */
  ghost predicate Carries(g: Shape, data: seq<bv8>, divisor: seq<bv8>, codewords: seq<bv8>) {
    && BlocksFit(g, data, divisor) && |codewords| == g.Raw()
    && (forall j: nat | j < g.n ::
          ReadBlock(g, codewords, j) == DataBlock(g, data, j) + EccBlock(g, data, divisor, j))
    && ReadData(g, codewords, g.n) == data
  }

  lemma ByteRecovered(g: Shape, data: seq<bv8>, divisor: seq<bv8>, blocks: seq<seq<bv8>>, j: nat, t: nat)
    requires BlocksFit(g, data, divisor) && AreBlocks(g, blocks) && j < g.n && t < g.DataLen(j) + g.e
    requires blocks[j] == PaddedBlock(g, data, divisor, j)
    requires |Rows(g, blocks, g.s + g.e + 1)| == g.Raw()
    ensures ReadByte(g, Rows(g, blocks, g.s + g.e + 1), j, t)
         == (DataBlock(g, data, j) + EccBlock(g, data, divisor, j))[t]
  {
    hide Rows, DataBlock, EccBlock;
    PositionInRange(g, g.Row(j, t), j);
    RowsIndex(g, blocks, g.s + g.e + 1, g.Row(j, t), j);
  }

  lemma BlocksRecovered(g: Shape, data: seq<bv8>, divisor: seq<bv8>, blocks: seq<seq<bv8>>, result: seq<bv8>)
    requires BlocksFit(g, data, divisor) && AreBlocks(g, blocks)
    requires forall j :: 0 <= j < g.n ==> blocks[j] == PaddedBlock(g, data, divisor, j)
    requires result == Rows(g, blocks, g.s + g.e + 1) && |result| == g.Raw()
    ensures Carries(g, data, divisor, result)
  {
    forall j: nat | j < g.n
      ensures ReadBlock(g, result, j) == DataBlock(g, data, j) + EccBlock(g, data, divisor, j)
    {
      forall t: nat | t < g.DataLen(j) + g.e
        ensures ReadByte(g, result, j, t) == (DataBlock(g, data, j) + EccBlock(g, data, divisor, j))[t]
      {
        ByteRecovered(g, data, divisor, blocks, j, t);
      }
    }
    DataRecovered(g, data, divisor, result, g.n);
    assert data[..|data|] == data;
  }

  lemma {:induction false} DataRecovered(g: Shape, data: seq<bv8>, divisor: seq<bv8>, codewords: seq<bv8>, m: nat)
    requires BlocksFit(g, data, divisor) && |codewords| == g.Raw() && m <= g.n
    requires forall j: nat | j < g.n ::
          ReadBlock(g, codewords, j) == DataBlock(g, data, j) + EccBlock(g, data, divisor, j)
    ensures g.Start(m) <= |data| && ReadData(g, codewords, m) == data[..g.Start(m)]
  {
    hide Shape.Start, Shape.Raw, ReadBlock, EccBlock;
    StartFacts(g, 0);
    StartMonotone(g, m, g.n);
    if m > 0 {
      StartFacts(g, m - 1);
      DataRecovered(g, data, divisor, codewords, m - 1);
      assert ReadBlock(g, codewords, m - 1)[..g.DataLen(m - 1)] == DataBlock(g, data, m - 1);
    }
  }

  // ----- distance of whole messages

  /** Two different inputs leave a block in which the outputs differ by more than blockEccLen bytes. */
  lemma MessagesFarApart(g: Shape, a: seq<bv8>, b: seq<bv8>, divisor: seq<bv8>, u: seq<bv8>, v: seq<bv8>)
    requires Carries(g, a, divisor, u) && Carries(g, b, divisor, v) && a != b
    requires IsDivisor(divisor, g.e) && g.s + 1 + g.e <= 255
    ensures exists j: nat | j < g.n :: HammingDistance(ReadBlock(g, u, j), ReadBlock(g, v, j)) > g.e
  {
    var j := DifferingBlock(g, u, v, g.n);
    var (x, y) := (DataBlock(g, a, j), DataBlock(g, b, j));
    assert ReadBlock(g, u, j)[..g.DataLen(j)] == x && ReadBlock(g, v, j)[..g.DataLen(j)] == y;
    EncodedBlocksFarApart(x, y, g.e, divisor);
  }

  lemma {:induction false} DifferingBlock(g: Shape, u: seq<bv8>, v: seq<bv8>, m: nat) returns (j: nat)
    requires g.Valid() && |u| == |v| == g.Raw() && m <= g.n
    requires ReadData(g, u, m) != ReadData(g, v, m)
    ensures j < m && ReadBlock(g, u, j)[..g.DataLen(j)] != ReadBlock(g, v, j)[..g.DataLen(j)]
  {
    if ReadBlock(g, u, m - 1)[..g.DataLen(m - 1)] != ReadBlock(g, v, m - 1)[..g.DataLen(m - 1)] {
      j := m - 1;
    } else {
      j := DifferingBlock(g, u, v, m - 1);
    }
  }
}
