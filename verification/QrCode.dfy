/** The symbol under construction: codeword placement, trial masks and the final mask. */
module QrCodes {
  import opened GF256
  import opened Outcomes
  import opened Zigzag
  import opened MaskPatterns
  import opened FormatInfo
  import opened Codewords
  import opened EncodeSegments
  import opened Interleave
  import opened Score

  /** The grid that mask number `mask` is judged by, and that becomes the symbol if it is chosen. */
  function Trial(g: Grid, isFunction: Grid, size: nat, ecl: Ecc, mask: nat): (r: Grid)
    requires IsSize(size) && IsSquare(g, size) && IsSquare(isFunction, size) && mask < 8
    ensures IsSquare(r, size)
  {
    WithFormat(Masked(g, isFunction, size, mask), size, ecl, mask)
  }

  function TrialPenalty(g: Grid, isFunction: Grid, size: nat, ecl: Ecc, mask: nat): int
    requires IsSize(size) && IsSquare(g, size) && IsSquare(isFunction, size) && mask < 8
  {
    PenaltyScore(Trial(g, isFunction, size, ecl, mask), size)
  }

  /** Among the masks below `limit`, `mask` is the first one of least penalty. */
  ghost predicate FirstBest(g: Grid, isFunction: Grid, size: nat, ecl: Ecc, limit: nat, mask: nat)
    requires IsSize(size) && IsSquare(g, size) && IsSquare(isFunction, size) && limit <= 8
  {
    && mask < limit
    && (forall m: nat | m < limit ::
          TrialPenalty(g, isFunction, size, ecl, mask) <= TrialPenalty(g, isFunction, size, ecl, m))
    && (forall m: nat | m < mask ::
          TrialPenalty(g, isFunction, size, ecl, mask) < TrialPenalty(g, isFunction, size, ecl, m))
  }

  /** The masking loops have handled the rows above y, and the cells left of x in row y. */
  function PartlyMasked(g: Grid, isFunction: Grid, size: nat, mask: nat, y: nat, x: nat): (r: Grid)
    requires IsSquare(g, size) && IsSquare(isFunction, size) && mask < 8
    ensures IsSquare(r, size)
  {
    seq(size, v requires 0 <= v < size => seq(size, u requires 0 <= u < size =>
      if v < y || (v == y && u < x) then g[v][u] != (MaskBit(mask, u, v) && !isFunction[v][u]) else g[v][u]))
  }

  lemma MaskNext(g: Grid, isFunction: Grid, size: nat, mask: nat, y: nat, x: nat)
    requires IsSquare(g, size) && IsSquare(isFunction, size) && mask < 8 && y < size && x < size
    ensures var p := PartlyMasked(g, isFunction, size, mask, y, x);
      PartlyMasked(g, isFunction, size, mask, y, x + 1)
        == Set(p, size, x, y, p[y][x] != (MaskBit(mask, x, y) && !isFunction[y][x]))
  {
    hide MaskBit;
    var p := PartlyMasked(g, isFunction, size, mask, y, x);
    GridsEqual(PartlyMasked(g, isFunction, size, mask, y, x + 1),
      Set(p, size, x, y, p[y][x] != (MaskBit(mask, x, y) && !isFunction[y][x])), size);
  }

  lemma MaskRow(g: Grid, isFunction: Grid, size: nat, mask: nat, y: nat)
    requires IsSquare(g, size) && IsSquare(isFunction, size) && mask < 8 && y < size
    ensures PartlyMasked(g, isFunction, size, mask, y, size) == PartlyMasked(g, isFunction, size, mask, y + 1, 0)
  {
    hide MaskBit;
    GridsEqual(PartlyMasked(g, isFunction, size, mask, y, size),
               PartlyMasked(g, isFunction, size, mask, y + 1, 0), size);
  }

  lemma MaskEnds(g: Grid, isFunction: Grid, size: nat, mask: nat)
    requires IsSquare(g, size) && IsSquare(isFunction, size) && mask < 8
    ensures PartlyMasked(g, isFunction, size, mask, 0, 0) == g
    ensures PartlyMasked(g, isFunction, size, mask, size, 0) == Masked(g, isFunction, size, mask)
  {
    hide MaskBit;
    GridsEqual(PartlyMasked(g, isFunction, size, mask, 0, 0), g, size);
    GridsEqual(PartlyMasked(g, isFunction, size, mask, size, 0), Masked(g, isFunction, size, mask), size);
  }

  // ----- what a reader of the symbol gets

  /** The bits on the free cells, unmasked with the mask that the format information announces. */
  function ScanBits(modules: Grid, isFunction: Grid, size: nat, n: nat): seq<bool>
    requires IsSize(size) && IsSquare(modules, size) && IsSquare(isFunction, size)
    requires n <= |FreeCells(size, isFunction)|
  {
    FreeCellsInGrid(size, isFunction, n);
    Read(Unmask(modules, isFunction, size, ReadMask(modules, size)), size, FreeCells(size, isFunction)[..n])
  }

  lemma FreeCellsInGrid(size: nat, isFunction: Grid, n: nat)
    requires IsSize(size) && IsSquare(isFunction, size) && n <= |FreeCells(size, isFunction)|
    ensures InGrid(size, FreeCells(size, isFunction)[..n]) && Distinct(FreeCells(size, isFunction)[..n])
    ensures forall c :: c in FreeCells(size, isFunction)[..n] ==> Free(size, isFunction, c)
  {
    FreeCellsComplete(size, isFunction);
    assert forall c :: c in FreeCells(size, isFunction)[..n] ==> c in FreeCells(size, isFunction);
  }

  /** The symbol that mask m turns drawn bits into reads back as those bits, whatever m is. */
  lemma TrialReadsBack(g: Grid, isFunction: Grid, size: nat, ecl: Ecc, mask: nat, bits: seq<bool>)
    requires IsSize(size) && IsSquare(g, size) && IsSquare(isFunction, size) && mask < 8
    requires CoversFormat(isFunction, size) && |bits| <= |FreeCells(size, isFunction)|
    ensures InGrid(size, FreeCells(size, isFunction)[..|bits|])
    ensures var drawn := Draw(g, size, FreeCells(size, isFunction)[..|bits|], bits);
      ScanBits(Trial(drawn, isFunction, size, ecl, mask), isFunction, size, |bits|) == bits
  {
    hide FreeCells, Draw, Read, Masked, Unmask, WithFormat, ReadMask, CoversFormat;
    FreeCellsInGrid(size, isFunction, |bits|);
    var cells := FreeCells(size, isFunction)[..|bits|];
    var drawn := Draw(g, size, cells, bits);
    UnmaskIsMasked(Trial(drawn, isFunction, size, ecl, mask), isFunction, size, mask);
    MaskReadsBack(Masked(drawn, isFunction, size, mask), size, ecl, mask);
    UnmaskKeepsFormat(drawn, isFunction, size, ecl, mask);
    FormatKeepsFree(drawn, isFunction, size, ecl, mask, cells);
    ReadDrawn(g, size, cells, bits);
  }

  // ----- the mask of the finished symbol

  /** The symbol with its mask undone and mask m, with its format bits, put in its place. */
  function Remasked(modules: Grid, isFunction: Grid, size: nat, m: nat): (r: Grid)
    requires IsSize(size) && IsSquare(modules, size) && IsSquare(isFunction, size) && m < 8
    ensures IsSquare(r, size)
  {
    var plain := Unmask(modules, isFunction, size, ReadMask(modules, size));
    Trial(plain, isFunction, size, ReadLevel(modules, size), m)
  }

  /** No other mask would give the symbol a lower penalty, and none of smaller number as low a one. */
  ghost predicate HasBestMask(modules: Grid, isFunction: Grid, size: nat) {
    && IsSize(size) && IsSquare(modules, size) && IsSquare(isFunction, size)
    && forall m: nat :: m < 8 ==>
      var penalty := PenaltyScore(Remasked(modules, isFunction, size, m), size);
      && PenaltyScore(modules, size) <= penalty
      && (m < ReadMask(modules, size) ==> PenaltyScore(modules, size) < penalty)
  }

  /** Whatever mask a drawn symbol got, changing it later gives what that other mask would have given at once. */
  lemma RemaskedIsTrial(g: Grid, isFunction: Grid, size: nat, ecl: Ecc, mask: nat, m: nat)
    requires IsSize(size) && IsSquare(g, size) && IsSquare(isFunction, size) && CoversFormat(isFunction, size)
    requires mask < 8 && m < 8
    ensures Remasked(Trial(g, isFunction, size, ecl, mask), isFunction, size, m) == Trial(g, isFunction, size, ecl, m)
  {
    hide Masked, Unmask, WithFormat, CoversFormat, ReadMask, ReadLevel;
    UnmaskIsMasked(Trial(g, isFunction, size, ecl, mask), isFunction, size, mask);
    MaskReadsBack(Masked(g, isFunction, size, mask), size, ecl, mask);
    LevelReadsBack(Masked(g, isFunction, size, mask), size, ecl, mask);
    UnmaskKeepsFormat(g, isFunction, size, ecl, mask);
    FormatReplaces(g, isFunction, size, ecl, mask, m);
  }

  /** The first best of the trials is the best mask of the finished symbol. */
  lemma FirstBestIsBest(g: Grid, isFunction: Grid, size: nat, ecl: Ecc, mask: nat)
    requires IsSize(size) && IsSquare(g, size) && IsSquare(isFunction, size) && CoversFormat(isFunction, size)
    requires FirstBest(g, isFunction, size, ecl, 8, mask)
    ensures HasBestMask(Trial(g, isFunction, size, ecl, mask), isFunction, size)
  {
    hide PenaltyScore, CoversFormat, Remasked, ReadMask, Masked, WithFormat;
    MaskReadsBack(Masked(g, isFunction, size, mask), size, ecl, mask);
    var modules := Trial(g, isFunction, size, ecl, mask);
    assert ReadMask(modules, size) == mask;
    forall m: nat | m < 8
      ensures PenaltyScore(Remasked(modules, isFunction, size, m), size) == TrialPenalty(g, isFunction, size, ecl, m)
    {
      RemaskedIsTrial(g, isFunction, size, ecl, mask, m);
    }
  }

  /** The function modules, other than those of the format information, are as they were. */
  ghost predicate KeepsPatterns(before: Grid, after: Grid, isFunction: Grid, size: nat) {
    && IsSize(size) && IsSquare(before, size) && IsSquare(after, size) && IsSquare(isFunction, size)
    && forall x, y :: 0 <= x < size && 0 <= y < size && isFunction[y][x] && SlotOf(size, x, y) == NUM_SLOTS ==>
      after[y][x] == before[y][x]
  }

  /** Neither codewords nor masks touch the function patterns. */
  lemma TrialKeepsPatterns(g: Grid, isFunction: Grid, size: nat, ecl: Ecc, mask: nat, bits: seq<bool>)
    requires IsSize(size) && IsSquare(g, size) && IsSquare(isFunction, size) && mask < 8
    requires |bits| <= |FreeCells(size, isFunction)|
    ensures InGrid(size, FreeCells(size, isFunction)[..|bits|])
    ensures var drawn := Draw(g, size, FreeCells(size, isFunction)[..|bits|], bits);
      KeepsPatterns(g, Trial(drawn, isFunction, size, ecl, mask), isFunction, size)
  {
    hide FreeCells, Draw, Read, MaskBit, FormatWord, SlotOf;
    FreeCellsInGrid(size, isFunction, |bits|);
    var cells := FreeCells(size, isFunction)[..|bits|];
    ReadDrawn(g, size, cells, bits);
    forall x: nat, y: nat | x < size && y < size && isFunction[y][x] ensures Cell(x, y) !in cells {
      assert !Free(size, isFunction, Cell(x, y));
    }
  }

  // ----- the class

  class QrCode {
    const version: nat
    const size: nat
    const errorCorrectionLevel: Ecc
    var mask: int
    var modules: Grid
    var isFunction: Grid

    predicate Valid()
      reads this
    {
      && size == 4 * version + 17 && 1 <= version <= 40
      && IsSquare(modules, size) && IsSquare(isFunction, size)
    }

    /** The symbol after the function patterns have been drawn. */
    constructor (ver: nat, ecl: Ecc, patterns: Grid, functionModules: Grid)
      requires 1 <= ver <= 40 && IsSquare(patterns, 4 * ver + 17) && IsSquare(functionModules, 4 * ver + 17)
      ensures Valid() && version == ver && errorCorrectionLevel == ecl && modules == patterns
      ensures isFunction == functionModules
    {
      version := ver;
      size := 4 * ver + 17;
      errorCorrectionLevel := ecl;
      mask := -1;
      modules := patterns;
      isFunction := functionModules;
    }

    method SetFunctionModule(x: nat, y: nat, isDark: bool)
      requires Valid() && x < size && y < size
      modifies this`modules, this`isFunction
      ensures Valid()
      ensures modules == Set(old(modules), size, x, y, isDark)
      ensures isFunction == Set(old(isFunction), size, x, y, true)
    {
      modules := modules[y := modules[y][x := isDark]];
      isFunction := isFunction[y := isFunction[y][x := true]];
    }

    /** Draws the next slot of the format information. */
    method DrawSlot(ghost g: Grid, ghost f: Grid, x: nat, y: nat, word: bv32, bit: bool, ghost s: nat)
      requires Valid() && IsSquare(g, size) && IsSquare(f, size) && s < NUM_SLOTS
      requires Cell(x, y) == SlotCell(size, s) && bit == SlotValue(word, s)
      requires modules == Stamped(g, size, word, s) && isFunction == Marked(f, size, s)
      modifies this`modules, this`isFunction
      ensures Valid()
      ensures modules == Stamped(g, size, word, s + 1) && isFunction == Marked(f, size, s + 1)
    {
      hide SlotCell, SlotValue, Stamped, Marked;
      StampNext(g, size, word, s);
      MarkNext(f, size, s);
      SetFunctionModule(x, y, bit);
    }

    method DrawFormatBits(msk: nat)
      requires Valid() && msk < 8
      modifies this`modules, this`isFunction
      ensures Valid()
      ensures modules == WithFormat(old(modules), size, errorCorrectionLevel, msk)
      ensures isFunction == Marked(old(isFunction), size, NUM_SLOTS)
    {
      hide Stamped, Marked, WordBit, Combine, NextRemainder, FormatData;
      ghost var (g, f) := (modules, isFunction);
      var data := FormatData(errorCorrectionLevel, msk);
      var rem := data;
      for i := 0 to 10
        invariant rem == FormatRemainder(data, i)
      {
        rem := NextRemainder(rem);
      }
      var bits := Combine(data, rem);
      FormatRemainderBound(data, 10);
      CombineBound(data, rem);
      assert bits >> 15 == 0;
      DrawFirstCopy(g, f, bits);
      DrawSecondCopy(g, f, bits);
    }

    method DrawFirstCopy(ghost g: Grid, ghost f: Grid, bits: bv32)
      requires Valid() && IsSquare(g, size) && IsSquare(f, size) && modules == g && isFunction == f
      modifies this`modules, this`isFunction
      ensures Valid() && modules == Stamped(g, size, bits, 15) && isFunction == Marked(f, size, 15)
    {
      hide Stamped, Marked, WordBit;
      NothingStamped(g, size, bits);
      NothingStamped(f, size, bits);
      for i := 0 to 6
        invariant Valid() && modules == Stamped(g, size, bits, i) && isFunction == Marked(f, size, i)
      {
        DrawSlot(g, f, 8, i, bits, WordBit(bits, i), i);
      }
      DrawSlot(g, f, 8, 7, bits, WordBit(bits, 6), 6);
      DrawSlot(g, f, 8, 8, bits, WordBit(bits, 7), 7);
      DrawSlot(g, f, 7, 8, bits, WordBit(bits, 8), 8);
      for i := 9 to 15
        invariant Valid() && modules == Stamped(g, size, bits, i) && isFunction == Marked(f, size, i)
      {
        DrawSlot(g, f, 14 - i, 8, bits, WordBit(bits, i), i);
      }
    }

    method DrawSecondCopy(ghost g: Grid, ghost f: Grid, bits: bv32)
      requires Valid() && IsSquare(g, size) && IsSquare(f, size)
      requires modules == Stamped(g, size, bits, 15) && isFunction == Marked(f, size, 15)
      modifies this`modules, this`isFunction
      ensures Valid() && modules == Stamped(g, size, bits, NUM_SLOTS) && isFunction == Marked(f, size, NUM_SLOTS)
    {
      hide Stamped, Marked, WordBit;
      for i := 0 to 8
        invariant Valid() && modules == Stamped(g, size, bits, 15 + i) && isFunction == Marked(f, size, 15 + i)
      {
        DrawSlot(g, f, size - 1 - i, 8, bits, WordBit(bits, i), 15 + i);
      }
      for i := 8 to 15
        invariant Valid() && modules == Stamped(g, size, bits, 15 + i) && isFunction == Marked(f, size, 15 + i)
      {
        DrawSlot(g, f, 8, size - 15 + i, bits, WordBit(bits, i), 15 + i);
      }
      DrawSlot(g, f, 8, size - 8, bits, true, 30);
    }

    /** Places the bits of the codewords on the free cells along the zigzag; returns how many it placed. */
    method DrawCodewords(data: seq<bv8>, rawCodewords: nat) returns (r: Result<nat>)
      requires Valid()
      modifies this`modules
      ensures Valid()
      ensures r.Failure? <==> |data| != rawCodewords
      ensures r.Failure? ==> modules == old(modules) && r.error == InvalidArgument
      ensures r.Success? ==> var (cells, i) := (FreeCells(size, isFunction), r.value);
        && i == (if |cells| < 8 * |data| then |cells| else 8 * |data|)
        && InGrid(size, cells[..i])
        && modules == Draw(old(modules), size, cells[..i], Unpack(data)[..i])
    {
      hide StreamBit, FreeCells, Draw, Placed, CellAt, Unpack, InGrid;
      if |data| != rawCodewords {
        return Failure(InvalidArgument);
      }
      ghost var g := modules;
      var i: nat := 0;
      var right := size - 1;
      ghost var c := 0;
      DrawStart(g, size, isFunction, data);
      while right >= 1
        invariant c <= size / 2 && right == size - 1 - 2 * c - (if size - 1 - 2 * c < 6 then 1 else 0)
        invariant Valid() && Placed(g, size, isFunction, data, c, 0, 0, i, modules)
        decreases right
      {
        if right == 6 {
          right := 5;
        }
        for vert := 0 to size
          invariant Valid() && Placed(g, size, isFunction, data, c, vert, 0, i, modules)
        {
          for j := 0 to 2
            invariant Valid() && Placed(g, size, isFunction, data, c, vert, j, i, modules)
          {
            var x := right - j;
            var upward := (right + 1) / 2 % 2 == 0;
            var y := if upward then size - 1 - vert else vert;
            ghost var before := modules;
            CellOfLoop(size, c, vert, j, right);
            PlaceNext(g, size, isFunction, data, c, vert, j, i, before);
            if !isFunction[y][x] && i < |data| * 8 {
              modules := modules[y := modules[y][x := StreamBit(data, i)]];
              i := i + 1;
            }
          }
          PlaceRow(g, size, isFunction, data, c, vert, i, modules);
        }
        PlacePair(g, size, isFunction, data, c, i, modules);
        right := right - 2;
        c := c + 1;
      }
      PlacedAll(g, size, isFunction, data, i, modules);
      r := Success(i);
    }

    method ApplyMask(msk: int) returns (e: Option<Error>)
      requires Valid()
      modifies this`modules
      ensures Valid()
      ensures e.Some? <==> msk < 0 || msk > 7
      ensures e.Some? ==> modules == old(modules)
      ensures e.None? ==> modules == Masked(old(modules), isFunction, size, msk)
    {
      hide MaskBit, Masked, PartlyMasked;
      if msk < 0 || msk > 7 {
        return Some(DomainError);
      }
      ghost var g := modules;
      MaskEnds(g, isFunction, size, msk);
      for y := 0 to size
        invariant Valid() && modules == PartlyMasked(g, isFunction, size, msk, y, 0)
      {
        for x := 0 to size
          invariant Valid() && modules == PartlyMasked(g, isFunction, size, msk, y, x)
        {
          MaskNext(g, isFunction, size, msk, y, x);
          var invert := MaskBit(msk, x, y);
          modules := modules[y := modules[y][x := modules[y][x] != (invert && !isFunction[y][x])]];
        }
        MaskRow(g, isFunction, size, msk, y);
      }
      e := None;
    }

    /** One trial: masks, draws the format, takes the score and masks again, which undoes the mask. */
    method TryMask(i: nat, ghost g: Grid) returns (penalty: int)
      requires Valid() && i < 8 && CoversFormat(isFunction, size) && IsSquare(g, size)
      requires Unmasked(g, modules, size, errorCorrectionLevel)
      modifies this`modules, this`isFunction
      ensures Valid() && isFunction == old(isFunction)
      ensures modules == WithFormat(g, size, errorCorrectionLevel, i)
      ensures penalty == TrialPenalty(g, isFunction, size, errorCorrectionLevel, i) < 0x7FFF_FFFF
    {
      hide Masked, WithFormat, Marked, CoversFormat, PenaltyScore, Unmasked;
      MarkedCovers(isFunction, size);
      TrialFromUnmasked(g, modules, isFunction, size, errorCorrectionLevel, i);
      var e := ApplyMask(i);
      DrawFormatBits(i);
      penalty := GetPenaltyScore(modules, size);
      ScoreBound(modules, size);
      UnmaskKeepsFormat(g, isFunction, size, errorCorrectionLevel, i);
      e := ApplyMask(i);
    }

    /** Tries all masks if msk is -1, then applies the chosen one. */
    method DoMasking(msk: int)
      requires Valid() && -1 <= msk <= 7 && CoversFormat(isFunction, size)
      modifies this`modules, this`isFunction, this`mask
      ensures Valid() && isFunction == old(isFunction) && 0 <= mask <= 7
      ensures modules == Trial(old(modules), isFunction, size, errorCorrectionLevel, mask)
      ensures msk != -1 ==> mask == msk
      ensures msk == -1 ==> FirstBest(old(modules), isFunction, size, errorCorrectionLevel, 8, mask)
    {
      hide Masked, WithFormat, Marked, CoversFormat, PenaltyScore, TrialPenalty;
      ghost var (g, f, ecl) := (modules, isFunction, errorCorrectionLevel);
      MarkedCovers(f, size);
      var best := msk;
      if msk == -1 {
        var minPenalty := 0x7FFF_FFFF;
        for i := 0 to 8
          invariant Valid() && isFunction == f && Unmasked(g, modules, size, ecl)
          invariant i == 0 ==> best == -1 && minPenalty == 0x7FFF_FFFF
          invariant i > 0 ==> 0 <= best && FirstBest(g, f, size, ecl, i, best)
          invariant i > 0 ==> minPenalty == TrialPenalty(g, f, size, ecl, best)
        {
          var penalty := TryMask(i, g);
          if penalty < minPenalty {
            best := i;
            minPenalty := penalty;
          }
        }
      }
      assert 0 <= best <= 7;
      mask := best;
      TrialFromUnmasked(g, modules, f, size, ecl, best);
      var e := ApplyMask(best);
      DrawFormatBits(best);
    }
  }

  /** No mask is applied, though some format may have been drawn. */
  ghost predicate Unmasked(g: Grid, modules: Grid, size: nat, ecl: Ecc)
    requires IsSize(size) && IsSquare(g, size)
  {
    modules == g || exists k: nat :: k < 8 && modules == WithFormat(g, size, ecl, k)
  }

  lemma TrialFromUnmasked(g: Grid, modules: Grid, isFunction: Grid, size: nat, ecl: Ecc, mask: nat)
    requires IsSize(size) && IsSquare(g, size) && IsSquare(modules, size) && IsSquare(isFunction, size)
    requires CoversFormat(isFunction, size) && mask < 8 && Unmasked(g, modules, size, ecl)
    ensures WithFormat(Masked(modules, isFunction, size, mask), size, ecl, mask) ==
      Trial(g, isFunction, size, ecl, mask)
  {
    hide WithFormat, Masked, CoversFormat;
    if modules != g {
      var k: nat :| k < 8 && modules == WithFormat(g, size, ecl, k);
      FormatReplaces(g, isFunction, size, ecl, k, mask);
    }
  }

  // ----- the placement loop

  /** After the steps before (c, vert, j), the first i bits are drawn on the free cells met so far. */
  ghost predicate Placed(g: Grid, size: nat, isFunction: Grid, data: seq<bv8>, c: nat, vert: nat, j: nat, i: nat,
      modules: Grid) {
    && IsSize(size) && IsSquare(g, size) && IsSquare(isFunction, size)
    && c <= size / 2 && vert <= size && j <= 2
    && (c == size / 2 ==> vert == 0 && j == 0) && (vert == size ==> j == 0)
    && var cells := FreeBefore(size, isFunction, c, vert, j);
      && i == (if |cells| < 8 * |data| then |cells| else 8 * |data|)
      && InGrid(size, cells)
      && InGrid(size, cells[..i])
      && modules == Draw(g, size, cells[..i], Unpack(data)[..i])
  }

  lemma DrawStart(g: Grid, size: nat, isFunction: Grid, data: seq<bv8>)
    requires IsSize(size) && IsSquare(g, size) && IsSquare(isFunction, size)
    ensures Placed(g, size, isFunction, data, 0, 0, 0, 0, g)
  {
  }

  lemma PlaceRow(g: Grid, size: nat, isFunction: Grid, data: seq<bv8>, c: nat, vert: nat, i: nat, modules: Grid)
    requires Placed(g, size, isFunction, data, c, vert, 2, i, modules)
    ensures Placed(g, size, isFunction, data, c, vert + 1, 0, i, modules)
  {
    hide Draw, Unpack;
    assert FreeBefore(size, isFunction, c, vert + 1, 0) == FreeBefore(size, isFunction, c, vert, 2);
  }

  lemma PlacePair(g: Grid, size: nat, isFunction: Grid, data: seq<bv8>, c: nat, i: nat, modules: Grid)
    requires c < size / 2 && Placed(g, size, isFunction, data, c, size, 0, i, modules)
    ensures Placed(g, size, isFunction, data, c + 1, 0, 0, i, modules)
  {
    hide Draw, Unpack;
    assert FreeBefore(size, isFunction, c + 1, 0, 0) == FreeBefore(size, isFunction, c, size, 0);
  }

  lemma PlacedAll(g: Grid, size: nat, isFunction: Grid, data: seq<bv8>, i: nat, modules: Grid)
    requires Placed(g, size, isFunction, data, size / 2, 0, 0, i, modules)
    ensures var cells := FreeCells(size, isFunction);
      && i == (if |cells| < 8 * |data| then |cells| else 8 * |data|)
      && InGrid(size, cells[..i])
      && modules == Draw(g, size, cells[..i], Unpack(data)[..i])
  {
    hide Draw, Unpack, InGrid;
  }

  lemma CellOfLoop(size: nat, c: nat, vert: nat, j: nat, right: nat)
    requires IsSize(size) && c < size / 2 && vert < size && j < 2
    requires right == size - 1 - 2 * c - (if size - 1 - 2 * c <= 6 then 1 else 0)
    ensures right >= j
    ensures CellAt(size, c, vert, j) == Cell(right - j, if (right + 1) / 2 % 2 == 0 then size - 1 - vert else vert)
  {
  }

  lemma FreeBeforeNext(size: nat, isFunction: Grid, c: nat, vert: nat, j: nat)
    requires IsSize(size) && IsSquare(isFunction, size) && j < 2 && c < size / 2 && vert < size
    ensures var cell := CellAt(size, c, vert, j);
      FreeBefore(size, isFunction, c, vert, j + 1)
        == FreeBefore(size, isFunction, c, vert, j) + (if Free(size, isFunction, cell) then [cell] else [])
  {
    hide CellAt, Free;
  }

  lemma PlaceNext(g: Grid, size: nat, isFunction: Grid, data: seq<bv8>, c: nat, vert: nat, j: nat, i: nat,
      modules: Grid)
    requires j < 2 && c < size / 2 && vert < size && Placed(g, size, isFunction, data, c, vert, j, i, modules)
    ensures var cell := CellAt(size, c, vert, j);
      if Free(size, isFunction, cell) && i < 8 * |data|
      then IsSquare(modules, size)
        && Placed(g, size, isFunction, data, c, vert, j + 1, i + 1,
          Set(modules, size, cell.x, cell.y, StreamBit(data, i)))
      else Placed(g, size, isFunction, data, c, vert, j + 1, i, modules)
  {
    hide StreamBit, CellAt, Set, FreeBefore, Free, Unpack, Draw, InGrid;
    var cell := CellAt(size, c, vert, j);
    var (cells, next) := (FreeBefore(size, isFunction, c, vert, j), FreeBefore(size, isFunction, c, vert, j + 1));
    FreeBeforeNext(size, isFunction, c, vert, j);
    if Free(size, isFunction, cell) {
      InGridNext(size, cells, cell);
    } else {
      assert next == cells;
    }
    if Free(size, isFunction, cell) && i < 8 * |data| {
      var bits := Unpack(data);
      UnpackAt(data, i);
      assert next[..i + 1] == cells + [cell] && cells[..i] == cells && bits[..i + 1] == bits[..i] + [bits[i]];
      DrawNext(g, size, cells, cell, bits[..i], bits[i]);
    } else {
      assert next[..i] == cells[..i];
    }
  }

  lemma InGridNext(size: nat, cells: seq<Cell>, cell: Cell)
    requires InGrid(size, cells) && cell.x < size && cell.y < size
    ensures InGrid(size, cells + [cell])
  {
  }

  lemma DrawNext(g: Grid, size: nat, cells: seq<Cell>, cell: Cell, bits: seq<bool>, b: bool)
    requires IsSquare(g, size) && InGrid(size, cells + [cell]) && InGrid(size, cells) && |bits| == |cells|
    requires cell.x < size && cell.y < size
    ensures Draw(g, size, cells + [cell], bits + [b]) == Set(Draw(g, size, cells, bits), size, cell.x, cell.y, b)
  {
    hide Set;
    assert (cells + [cell])[..|cells|] == cells && (bits + [b])[..|bits|] == bits;
  }

  lemma UnpackAt(data: seq<bv8>, i: nat)
    requires i < 8 * |data|
    ensures Unpack(data)[i] == StreamBit(data, i)
  {
  }
}
