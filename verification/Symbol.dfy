/** From text to finished symbol, and back: the whole encoder composed. */
module Symbol {
  import opened GF256
  import opened Outcomes
  import opened Segments
  import opened SegmentReader
  import opened Codewords
  import opened EncodeSegments
  import opened Interleave
  import opened Zigzag
  import opened FormatInfo
  import opened QrCodes

  /** The modules and function modules of every version after its function patterns are drawn. */
  type PatternTable = nat -> (Grid, Grid)

  ghost predicate GoodPatterns(patterns: PatternTable, table: LayoutTable) {
    forall ver: nat :: 1 <= ver <= 40 ==>
      var size := 4 * ver + 17;
      && IsSquare(patterns(ver).0, size) && IsSquare(patterns(ver).1, size) && CoversFormat(patterns(ver).1, size)
      && forall ecl: Ecc :: 8 * table(ver, ecl).rawCodewords <= |FreeCells(size, patterns(ver).1)|
  }

  lemma TablesGive(table: LayoutTable, patterns: PatternTable, ver: nat, ecl: Ecc)
    requires GoodTable(table) && GoodPatterns(patterns, table) && 1 <= ver <= 40
    ensures var (size, l) := (4 * ver + 17, table(ver, ecl));
      && l.Valid() && IsSquare(patterns(ver).0, size) && IsSquare(patterns(ver).1, size)
      && CoversFormat(patterns(ver).1, size) && 8 * l.rawCodewords <= |FreeCells(size, patterns(ver).1)|
  {
    hide CoversFormat, FreeCells;
  }

  // ----- such tables exist

  function Plain(ver: nat): (Grid, Grid) {
    var size := 4 * ver + 17;
    var light := seq(size, _ => seq(size, _ => false));
    if ver == 0 then (light, light) else (light, Marked(light, size, NUM_SLOTS))
  }

  function NinthRow(k: nat): Cell {
    Cell(9 + k, 9)
  }

  /** What is asked of the tables can be met. */
  lemma TablesExist() returns (table: LayoutTable, patterns: PatternTable)
    ensures GoodTable(table) && GoodPatterns(patterns, table)
  {
    table := (_, _) => Layout(1, 1, 1);
    patterns := Plain;
    forall ver: nat | 1 <= ver <= 40
      ensures CoversFormat(Plain(ver).1, 4 * ver + 17) && |FreeCells(4 * ver + 17, Plain(ver).1)| >= 8
    {
      var size := 4 * ver + 17;
      MarkedCovers(seq(size, _ => seq(size, _ => false)), size);
      FreeCellsComplete(size, Plain(ver).1);
      forall k: nat | k < 8 ensures NinthRow(k) in FreeCells(size, Plain(ver).1) {
        assert Free(size, Plain(ver).1, NinthRow(k));
      }
      AtLeast(FreeCells(size, Plain(ver).1), 8);
    }
  }

  lemma {:induction false} AtLeast(cells: seq<Cell>, n: nat)
    requires forall k: nat :: k < n ==> NinthRow(k) in cells
    ensures |cells| >= n
  {
    if n > 0 {
      var i :| 0 <= i < |cells| && cells[i] == NinthRow(n - 1);
      var rest := cells[..i] + cells[i + 1..];
      forall k: nat | k < n - 1 ensures NinthRow(k) in rest {
        var j :| 0 <= j < |cells| && cells[j] == NinthRow(k);
        assert rest[if j < i then j else j - 1] == NinthRow(k);
      }
      AtLeast(rest, n - 1);
    }
  }

  // ----- the text of payloads

  function ReadText(ps: seq<Payload>): string {
    if |ps| == 0 then ""
    else (match ps[0]
      case Digits(d) => d
      case Text(t) => t
      case Octets(b) => seq(|b|, i requires 0 <= i < |b| => b[i] as char)
      case Designator(_) => "") + ReadText(ps[1..])
  }

  lemma TextReadsBack(text: string)
    requires IsCString(text)
    ensures ReadText(PayloadsOf(text)) == text
  {
    hide AllDigits, AllAlphanumeric;
    if text != "" {
      var p := PayloadsOf(text)[0];
      assert PayloadsOf(text) == [p] && ReadText([p][1..]) == "";
      if p.Octets? {
        var chars := seq(|p.data|, i requires 0 <= i < |p.data| => p.data[i] as char);
        forall i | 0 <= i < |text| ensures chars[i] == text[i] {
          assert text[i] in text;
        }
        assert chars == text;
      }
    }
  }

  // ----- the symbol

  /** Every block of the codewords is followed by its remainder. */
  ghost predicate IsProtected(l: Layout, codewords: seq<bv8>)
    requires l.Valid()
  {
    exists data, divisor :: IsDivisor(divisor, l.blockEccLen) && Carries(l.Blocks(), data, divisor, codewords)
  }

  /** A reader that takes level and mask from the symbol, unmasks, follows the zigzag, de-interleaves and parses
    the stream gets the payloads. */
  ghost predicate SymbolReads(modules: Grid, isFunction: Grid, ver: nat, table: LayoutTable, ps: seq<Payload>) {
    var size := 4 * ver + 17;
    && 1 <= ver <= 40 && IsSquare(modules, size) && IsSquare(isFunction, size)
    && BlocksRead(modules, isFunction, ver, table(ver, ReadLevel(modules, size)), ps)
  }

  ghost predicate BlocksRead(modules: Grid, isFunction: Grid, ver: nat, l: Layout, ps: seq<Payload>)
    requires 1 <= ver <= 40 && IsSquare(modules, 4 * ver + 17) && IsSquare(isFunction, 4 * ver + 17)
  {
    var size := 4 * ver + 17;
    && l.Valid() && 8 * l.rawCodewords <= |FreeCells(size, isFunction)|
    && var bits := ScanBits(modules, isFunction, size, 8 * l.rawCodewords);
      && (exists codewords :: Unpack(codewords) == bits)
      && (forall codewords :: Unpack(codewords) == bits ==>
            && |codewords| == l.rawCodewords && IsProtected(l, codewords)
            && ReadStream(ver, Unpack(ReadData(l.Blocks(), codewords, l.numBlocks))) == Some(ps))
  }

  /** The codewords carry the data with a proper divisor, and the data reads back as the payloads. */
  ghost predicate CarriesPayloads(l: Layout, e: EncodedData, all: seq<bv8>, ps: seq<Payload>) {
    && l.Valid() && 1 <= e.version <= 40 && ReadStream(e.version, Unpack(e.dataCodewords)) == Some(ps)
    && exists divisor :: IsDivisor(divisor, l.blockEccLen) && Carries(l.Blocks(), e.dataCodewords, divisor, all)
  }

  lemma CarriedFacts(l: Layout, e: EncodedData, all: seq<bv8>, ps: seq<Payload>)
    requires CarriesPayloads(l, e, all, ps)
    ensures |all| == l.rawCodewords && IsProtected(l, all)
    ensures ReadStream(e.version, Unpack(ReadData(l.Blocks(), all, l.numBlocks))) == Some(ps)
  {
    hide ReadStream, Unpack, ReadData, IsDivisor;
  }

  /** Scanning the symbol gives the bits of these codewords. */
  ghost predicate ScansAs(modules: Grid, isFunction: Grid, size: nat, all: seq<bv8>) {
    && IsSize(size) && IsSquare(modules, size) && IsSquare(isFunction, size)
    && 8 * |all| <= |FreeCells(size, isFunction)| && ScanBits(modules, isFunction, size, 8 * |all|) == Unpack(all)
  }

  lemma FinishedReads(modules: Grid, isFunction: Grid, l: Layout, e: EncodedData, all: seq<bv8>, ps: seq<Payload>)
    requires 1 <= e.version <= 40 && IsSquare(modules, 4 * e.version + 17) && IsSquare(isFunction, 4 * e.version + 17)
    requires ScansAs(modules, isFunction, 4 * e.version + 17, all) && CarriesPayloads(l, e, all, ps)
    ensures BlocksRead(modules, isFunction, e.version, l, ps)
  {
    hide FreeCells, ScanBits, ReadStream, ReadData, Unpack, IsProtected, CarriesPayloads, Layout.Blocks, Layout.Valid;
    VersionAndLayout(l, e, all, ps);
    CarriedFacts(l, e, all, ps);
    forall codewords | Unpack(codewords) == Unpack(all) ensures codewords == all {
      UnpackInjective(codewords, all);
    }
  }

  lemma VersionAndLayout(l: Layout, e: EncodedData, all: seq<bv8>, ps: seq<Payload>)
    requires CarriesPayloads(l, e, all, ps)
    ensures 1 <= e.version <= 40 && l.Valid()
  {
  }

  /** All bits of the codewords are drawn on the first free cells. */
  ghost predicate IsDrawn(g: Grid, isFunction: Grid, size: nat, all: seq<bv8>, drawn: Grid) {
    && IsSize(size) && IsSquare(g, size) && IsSquare(isFunction, size) && IsSquare(drawn, size)
    && 8 * |all| <= |FreeCells(size, isFunction)| && InGrid(size, FreeCells(size, isFunction)[..8 * |all|])
    && drawn == Draw(g, size, FreeCells(size, isFunction)[..8 * |all|], Unpack(all))
  }

  lemma DrawnScans(g: Grid, isFunction: Grid, size: nat, ecl: Ecc, mask: nat, all: seq<bv8>, drawn: Grid)
    requires IsDrawn(g, isFunction, size, all, drawn) && CoversFormat(isFunction, size) && mask < 8
    ensures ScansAs(Trial(drawn, isFunction, size, ecl, mask), isFunction, size, all)
    ensures KeepsPatterns(g, Trial(drawn, isFunction, size, ecl, mask), isFunction, size)
  {
    hide FreeCells, Trial, ScanBits, Draw, Unpack, CoversFormat, KeepsPatterns;
    TrialReadsBack(g, isFunction, size, ecl, mask, Unpack(all));
    TrialKeepsPatterns(g, isFunction, size, ecl, mask, Unpack(all));
  }

  /** The format information of the symbol announces its level and its mask. */
  ghost predicate Announces(modules: Grid, size: nat, ecl: Ecc, mask: int) {
    IsSize(size) && IsSquare(modules, size) && ReadLevel(modules, size) == ecl && ReadMask(modules, size) == mask
  }

  lemma TrialAnnounces(g: Grid, isFunction: Grid, size: nat, ecl: Ecc, mask: nat)
    requires IsSize(size) && IsSquare(g, size) && IsSquare(isFunction, size) && mask < 8
    ensures Announces(Trial(g, isFunction, size, ecl, mask), size, ecl, mask)
  {
    hide Masked, WithFormat, ReadLevel, ReadMask;
    LevelReadsBack(Masked(g, isFunction, size, mask), size, ecl, mask);
    MaskReadsBack(Masked(g, isFunction, size, mask), size, ecl, mask);
  }

  lemma DataReadsBack(e: EncodedData, segs: seq<Segment>, ps: seq<Payload>)
    requires ReadsBack(segs, e) && MadeFrom(segs, ps)
    ensures 1 <= e.version <= 40 && ReadStream(e.version, Unpack(e.dataCodewords)) == Some(ps)
  {
    hide ReadStream, Unpack, MadeFrom;
  }

  /** The rest of the constructor: error correction, placement and masking. */
  method FillSymbol(qr: QrCode, table: LayoutTable, e: EncodedData, msk: int,
                    ghost segs: seq<Segment>, ghost ps: seq<Payload>)
    requires qr.Valid() && e.version == qr.version && IsLayoutFor(table(qr.version, qr.errorCorrectionLevel), e, qr)
    requires CoversFormat(qr.isFunction, qr.size)
    requires ReadsBack(segs, e) && MadeFrom(segs, ps) && -1 <= msk <= 7
    modifies qr
    ensures qr.Valid() && qr.isFunction == old(qr.isFunction)
    ensures Announces(qr.modules, qr.size, qr.errorCorrectionLevel, qr.mask)
    ensures SymbolReads(qr.modules, qr.isFunction, qr.version, table, ps)
    ensures KeepsPatterns(old(qr.modules), qr.modules, qr.isFunction, qr.size)
    ensures if msk != -1 then qr.mask == msk else HasBestMask(qr.modules, qr.isFunction, qr.size)
  {
    hide ReadsBack, MadeFrom, CoversFormat, FreeCells, Carries, BlocksRead, Draw, Trial, IsDivisor, Unpack;
    hide ReadStream, ReadLevel, ReadMask, HasBestMask;
    DataReadsBack(e, segs, ps);
    hide Layout.NumDataCodewords, Layout.Blocks, FirstBest, KeepsPatterns;
    ghost var (g, ecl) := (qr.modules, qr.errorCorrectionLevel);
    var l := table(qr.version, qr.errorCorrectionLevel);
    var all := AddEccAndInterleave(l, e.dataCodewords);
    var count := qr.DrawCodewords(all.value, l.rawCodewords);
    assert Unpack(all.value)[..count.value] == Unpack(all.value);
    ghost var drawn := qr.modules;
    qr.DoMasking(msk);
    DrawnScans(g, qr.isFunction, qr.size, ecl, qr.mask, all.value, drawn);
    TrialAnnounces(drawn, qr.isFunction, qr.size, ecl, qr.mask);
    FinishedReads(qr.modules, qr.isFunction, l, e, all.value, ps);
    if msk == -1 { FirstBestIsBest(drawn, qr.isFunction, qr.size, ecl, qr.mask); }
  }

  /** The layout fits the data, and the symbol has room for all its codewords. */
  ghost predicate IsLayoutFor(l: Layout, e: EncodedData, qr: QrCode)
    requires qr.Valid()
    reads qr
  {
    && l.Valid() && |e.dataCodewords| == l.NumDataCodewords()
    && 8 * l.rawCodewords <= |FreeCells(qr.size, qr.isFunction)|
  }

  /** `encodeText`: the segments for the text, in the smallest symbol and with the best mask. */
  method EncodeText(table: LayoutTable, patterns: PatternTable, text: string, ecl: Ecc) returns (r: Result<QrCode>)
    requires IsCString(text) && GoodTable(table) && GoodPatterns(patterns, table)
    ensures r.Failure? ==> |text| > INT_MAX || forall v :: 1 <= v <= 40 ==>
      !Fits(table, SegmentsOf(PayloadsOf(text)), v, ecl)
    ensures r.Success? ==> var qr := r.value;
      && fresh(qr) && qr.Valid() && qr.isFunction == patterns(qr.version).1
      && SmallestVersion(table, SegmentsOf(PayloadsOf(text)), ecl, 1, 40, qr.version)
      && BoostedLevel(table, SegmentsOf(PayloadsOf(text)), qr.version, ecl, true, qr.errorCorrectionLevel)
      && Announces(qr.modules, qr.size, qr.errorCorrectionLevel, qr.mask)
      && SymbolReads(qr.modules, qr.isFunction, qr.version, table, PayloadsOf(text))
      && KeepsPatterns(patterns(qr.version).0, qr.modules, qr.isFunction, qr.size)
      && HasBestMask(qr.modules, qr.isFunction, qr.size)
  {
    hide ReadsBack, MadeFrom, Fits, CoversFormat, FreeCells, SymbolReads, HoldsStream, SegmentsOf, KeepsPatterns;
    hide Layout.NumDataCodewords, HasBestMask, SmallestVersion, BoostedLevel, Announces, GoodTable, GoodPatterns;
    var segments := MakeSegments(text);
    if segments.Failure? {
      return Failure(segments.error);
    }
    var segs := segments.value;
    var encoded := Encode(table, segs, ecl, 1, 40, -1, true);
    if encoded.Failure? {
      return Failure(encoded.error);
    }
    var e := encoded.value;
    VersionInRange(table, segs, ecl, e.version);
    TablesGive(table, patterns, e.version, e.ecl);
    ghost var l := table(e.version, e.ecl);
    var qr := new QrCode(e.version, e.ecl, patterns(e.version).0, patterns(e.version).1);
    RightLength(segs, e, l, Capacity(table, e.version, e.ecl));
    PayloadsMakeSegments(segs, text);
    FillSymbol(qr, table, e, -1, segs, PayloadsOf(text));
    r := Success(qr);
  }

  lemma VersionInRange(table: LayoutTable, segs: seq<Segment>, ecl: Ecc, ver: int)
    requires SmallestVersion(table, segs, ecl, 1, 40, ver)
    ensures 1 <= ver <= 40
  {
  }

  lemma RightLength(segs: seq<Segment>, e: EncodedData, l: Layout, capacity: int)
    requires HoldsStream(segs, e, capacity) && capacity == l.NumDataCodewords() * 8
    ensures |e.dataCodewords| == l.NumDataCodewords()
  {
  }

  lemma PayloadsMakeSegments(segs: seq<Segment>, text: string)
    requires IsCString(text) && segs == SegmentsOf(PayloadsOf(text))
    ensures MadeFrom(segs, PayloadsOf(text))
  {
  }
}
