/** The format information of a symbol: its fifteen bits and the cells that hold them. */
module FormatInfo {
  import opened Zigzag
  import opened EncodeSegments

  // ----- the bits

  function LevelBits(ecl: Ecc): bv32 {
    match ecl
    case Low => 1
    case Medium => 0
    case Quartile => 3
    case High => 2
  }

  function MaskBits(mask: nat): (m: bv32)
    requires mask < 8
    ensures m < 8
  {
    if mask == 0 then 0 else if mask == 1 then 1 else if mask == 2 then 2 else if mask == 3 then 3
    else if mask == 4 then 4 else if mask == 5 then 5 else if mask == 6 then 6 else 7
  }

  function FormatData(ecl: Ecc, mask: nat): (d: bv32)
    requires mask < 8
    ensures d < 32
  {
    (LevelBits(ecl) << 3) | MaskBits(mask)
  }

  function NextRemainder(rem: bv32): bv32 {
    (rem << 1) ^ ((rem >> 9) * 0x537)
  }

  function FormatRemainder(data: bv32, i: nat): bv32 {
    if i == 0 then data else NextRemainder(FormatRemainder(data, i - 1))
  }

  function Combine(data: bv32, rem: bv32): bv32 {
    ((data << 10) | rem) ^ 0x5412
  }

  function FormatWord(ecl: Ecc, mask: nat): bv32
    requires mask < 8
  {
    Combine(FormatData(ecl, mask), FormatRemainder(FormatData(ecl, mask), 10))
  }

  predicate WordBit(word: bv32, i: nat)
    requires i < 32
  {
    (word >> i) & 1 != 0
  }

  lemma NextRemainderBound(rem: bv32)
    requires rem < 1024
    ensures NextRemainder(rem) < 1024
  {
  }

  lemma {:induction false} FormatRemainderBound(data: bv32, i: nat)
    requires data < 32
    ensures FormatRemainder(data, i) < 1024
  {
    hide NextRemainder;
    if i == 0 {
      assert data < 1024;
    } else {
      FormatRemainderBound(data, i - 1);
      NextRemainderBound(FormatRemainder(data, i - 1));
    }
  }

  lemma CombineBound(data: bv32, rem: bv32)
    requires data < 32 && rem < 1024
    ensures Combine(data, rem) >> 15 == 0
  {
  }

  lemma CombineBit10(data: bv32, rem: bv32)
    requires data < 32 && rem < 1024
    ensures WordBit(Combine(data, rem), 10) == (data & 1 == 0)
  {
  }

  lemma CombineBit11(data: bv32, rem: bv32)
    requires data < 32 && rem < 1024
    ensures WordBit(Combine(data, rem), 11) == (data & 2 != 0)
  {
  }

  lemma CombineBit12(data: bv32, rem: bv32)
    requires data < 32 && rem < 1024
    ensures WordBit(Combine(data, rem), 12) == (data & 4 == 0)
  {
  }

  /** The mask number that bits 10, 11 and 12 of a format word announce. */
  function AnnouncedMask(bit10: bool, bit11: bool, bit12: bool): (m: nat)
    ensures m < 8
  {
    (if bit10 then 0 else 1) + (if bit11 then 2 else 0) + (if bit12 then 0 else 4)
  }

  lemma DataLowBits(level: bv32, m: bv32)
    requires m < 8
    ensures ((level << 3) | m) & 7 == m
  {
  }

  lemma LowBits(d: bv32)
    ensures d & 1 == (d & 7) & 1 && d & 2 == (d & 7) & 2 && d & 4 == (d & 7) & 4
  {
  }

  lemma WordAnnouncesMask(ecl: Ecc, mask: nat)
    requires mask < 8
    ensures var w := FormatWord(ecl, mask);
      AnnouncedMask(WordBit(w, 10), WordBit(w, 11), WordBit(w, 12)) == mask
  {
    hide Combine, FormatRemainder, WordBit, LevelBits;
    var d := FormatData(ecl, mask);
    var rem := FormatRemainder(d, 10);
    FormatRemainderBound(d, 10);
    CombineBit10(d, rem);
    CombineBit11(d, rem);
    CombineBit12(d, rem);
    DataLowBits(LevelBits(ecl), MaskBits(mask));
    LowBits(d);
    if mask < 4 {
      if mask < 2 { if mask == 0 {} else {} } else { if mask == 2 {} else {} }
    } else {
      if mask < 6 { if mask == 4 {} else {} } else { if mask == 6 {} else {} }
    }
  }

  lemma CombineBit13(data: bv32, rem: bv32)
    requires data < 32 && rem < 1024
    ensures WordBit(Combine(data, rem), 13) == (data & 8 != 0)
  {
  }

  lemma CombineBit14(data: bv32, rem: bv32)
    requires data < 32 && rem < 1024
    ensures WordBit(Combine(data, rem), 14) == (data & 16 == 0)
  {
  }

  /** The level that bits 13 and 14 of a format word announce. */
  function AnnouncedLevel(bit13: bool, bit14: bool): Ecc {
    if bit14 then (if bit13 then Low else Medium) else (if bit13 then Quartile else High)
  }

  lemma DataHighBits(level: bv32, m: bv32)
    requires m < 8 && level < 4
    ensures (((level << 3) | m) & 8 != 0) == (level & 1 != 0)
    ensures (((level << 3) | m) & 16 != 0) == (level & 2 != 0)
  {
  }

  lemma WordAnnouncesLevel(ecl: Ecc, mask: nat)
    requires mask < 8
    ensures var w := FormatWord(ecl, mask);
      AnnouncedLevel(WordBit(w, 13), WordBit(w, 14)) == ecl
  {
    hide Combine, FormatRemainder, WordBit, MaskBits;
    var d := FormatData(ecl, mask);
    var rem := FormatRemainder(d, 10);
    FormatRemainderBound(d, 10);
    CombineBit13(d, rem);
    CombineBit14(d, rem);
    DataHighBits(LevelBits(ecl), MaskBits(mask));
  }

  // ----- the cells

  const NUM_SLOTS: nat := 31

  /** Two copies of the fifteen bits, in drawing order, then the module that is always dark. */
  function SlotCell(size: nat, s: nat): (cell: Cell)
    requires IsSize(size) && s < NUM_SLOTS
    ensures cell.x < size && cell.y < size
  {
    if s <= 5 then Cell(8, s)
    else if s == 6 then Cell(8, 7)
    else if s == 7 then Cell(8, 8)
    else if s == 8 then Cell(7, 8)
    else if s < 15 then Cell(14 - s, 8)
    else if s < 23 then Cell(size - 1 - (s - 15), 8)
    else if s < 30 then Cell(8, size - 15 + (s - 15))
    else Cell(8, size - 8)
  }

  /** The slot of a cell, or NUM_SLOTS. */
  function SlotOf(size: nat, x: nat, y: nat): nat
    requires IsSize(size)
  {
    if x == 8 && y <= 5 then y
    else if x == 8 && y == 7 then 6
    else if x == 8 && y == 8 then 7
    else if x == 7 && y == 8 then 8
    else if y == 8 && x <= 5 then 14 - x
    else if y == 8 && size - 8 <= x < size then 15 + (size - 1 - x)
    else if x == 8 && size - 7 <= y < size then y + 30 - size
    else if x == 8 && y == size - 8 then 30
    else NUM_SLOTS
  }

  lemma SlotsAndCells(size: nat, x: nat, y: nat, s: nat)
    requires IsSize(size) && x < size && y < size && s < NUM_SLOTS
    ensures SlotCell(size, s) == Cell(x, y) <==> SlotOf(size, x, y) == s
  {
  }

  function SlotValue(word: bv32, s: nat): bool
    requires s < NUM_SLOTS
  {
    s == 30 || WordBit(word, s % 15)
  }

  /** The grid with the first n slots overwritten with the bits of a format word. */
  function Stamped(g: Grid, size: nat, word: bv32, n: nat): (r: Grid)
    requires IsSize(size) && IsSquare(g, size) && n <= NUM_SLOTS
    ensures IsSquare(r, size)
  {
    seq(size, y requires 0 <= y < size => seq(size, x requires 0 <= x < size =>
      if SlotOf(size, x, y) < n then SlotValue(word, SlotOf(size, x, y)) else g[y][x]))
  }

  /** The grid with the first n slots marked. */
  function Marked(g: Grid, size: nat, n: nat): (r: Grid)
    requires IsSize(size) && IsSquare(g, size) && n <= NUM_SLOTS
    ensures IsSquare(r, size)
  {
    seq(size, y requires 0 <= y < size => seq(size, x requires 0 <= x < size =>
      g[y][x] || SlotOf(size, x, y) < n))
  }

  lemma StampNext(g: Grid, size: nat, word: bv32, n: nat)
    requires IsSize(size) && IsSquare(g, size) && n < NUM_SLOTS
    ensures var c := SlotCell(size, n);
      Stamped(g, size, word, n + 1) == Set(Stamped(g, size, word, n), size, c.x, c.y, SlotValue(word, n))
  {
    hide SlotOf, SlotCell, SlotValue;
    var c := SlotCell(size, n);
    var (r, q) := (Stamped(g, size, word, n + 1), Set(Stamped(g, size, word, n), size, c.x, c.y, SlotValue(word, n)));
    forall x, y | 0 <= x < size && 0 <= y < size ensures r[y][x] == q[y][x] {
      SlotsAndCells(size, x, y, n);
    }
    GridsEqual(r, q, size);
  }

  lemma MarkNext(g: Grid, size: nat, n: nat)
    requires IsSize(size) && IsSquare(g, size) && n < NUM_SLOTS
    ensures var c := SlotCell(size, n);
      Marked(g, size, n + 1) == Set(Marked(g, size, n), size, c.x, c.y, true)
  {
    hide SlotOf, SlotCell;
    var c := SlotCell(size, n);
    var (r, q) := (Marked(g, size, n + 1), Set(Marked(g, size, n), size, c.x, c.y, true));
    forall x, y | 0 <= x < size && 0 <= y < size ensures r[y][x] == q[y][x] {
      SlotsAndCells(size, x, y, n);
    }
    GridsEqual(r, q, size);
  }

  lemma GridsEqual(r: Grid, q: Grid, size: nat)
    requires IsSquare(r, size) && IsSquare(q, size)
    requires forall x, y :: 0 <= x < size && 0 <= y < size ==> r[y][x] == q[y][x]
    ensures r == q
  {
    forall y | 0 <= y < size ensures r[y] == q[y] {
      assert forall x :: 0 <= x < size ==> r[y][x] == q[y][x];
    }
  }

  /** The grid with all format modules drawn. */
  function WithFormat(g: Grid, size: nat, ecl: Ecc, mask: nat): (r: Grid)
    requires IsSize(size) && IsSquare(g, size) && mask < 8
    ensures IsSquare(r, size)
  {
    Stamped(g, size, FormatWord(ecl, mask), NUM_SLOTS)
  }

  /** All format modules are function modules. */
  predicate CoversFormat(isFunction: Grid, size: nat)
    requires IsSize(size) && IsSquare(isFunction, size)
  {
    forall x, y :: 0 <= x < size && 0 <= y < size && SlotOf(size, x, y) < NUM_SLOTS ==> isFunction[y][x]
  }

  lemma MarkedCovers(isFunction: Grid, size: nat)
    requires IsSize(size) && IsSquare(isFunction, size)
    ensures CoversFormat(Marked(isFunction, size, NUM_SLOTS), size)
    ensures CoversFormat(isFunction, size) ==> Marked(isFunction, size, NUM_SLOTS) == isFunction
  {
    hide SlotOf;
    if CoversFormat(isFunction, size) {
      GridsEqual(Marked(isFunction, size, NUM_SLOTS), isFunction, size);
    }
  }

  lemma NothingStamped(g: Grid, size: nat, word: bv32)
    requires IsSize(size) && IsSquare(g, size)
    ensures Stamped(g, size, word, 0) == g && Marked(g, size, 0) == g
  {
    hide SlotOf, SlotValue;
    GridsEqual(Stamped(g, size, word, 0), g, size);
    GridsEqual(Marked(g, size, 0), g, size);
  }

  // ----- reading mask and level back

  /** The mask number that the first copy of the format information announces. */
  function ReadMask(g: Grid, size: nat): (m: nat)
    requires IsSize(size) && IsSquare(g, size)
    ensures m < 8
  {
    AnnouncedMask(g[8][4], g[8][3], g[8][2])
  }

  lemma MaskReadsBack(g: Grid, size: nat, ecl: Ecc, mask: nat)
    requires IsSize(size) && IsSquare(g, size) && mask < 8
    ensures ReadMask(WithFormat(g, size, ecl, mask), size) == mask
  {
    hide FormatWord, WordBit;
    WordAnnouncesMask(ecl, mask);
  }

  /** The level that the first copy of the format information announces. */
  function ReadLevel(g: Grid, size: nat): Ecc
    requires IsSize(size) && IsSquare(g, size)
  {
    AnnouncedLevel(g[8][1], g[8][0])
  }

  lemma LevelReadsBack(g: Grid, size: nat, ecl: Ecc, mask: nat)
    requires IsSize(size) && IsSquare(g, size) && mask < 8
    ensures ReadLevel(WithFormat(g, size, ecl, mask), size) == ecl
  {
    hide FormatWord, WordBit;
    WordAnnouncesLevel(ecl, mask);
  }

  // ----- format modules and masking

  /** Drawing the format again replaces it, and masking before drawing it does not see it. */
  lemma FormatReplaces(g: Grid, isFunction: Grid, size: nat, ecl: Ecc, before: nat, mask: nat)
    requires IsSize(size) && IsSquare(g, size) && IsSquare(isFunction, size) && CoversFormat(isFunction, size)
    requires before < 8 && mask < 8
    ensures WithFormat(Masked(WithFormat(g, size, ecl, before), isFunction, size, mask), size, ecl, mask)
         == WithFormat(Masked(g, isFunction, size, mask), size, ecl, mask)
  {
    hide SlotOf, SlotValue, MaskBit, FormatWord;
    GridsEqual(WithFormat(Masked(WithFormat(g, size, ecl, before), isFunction, size, mask), size, ecl, mask),
      WithFormat(Masked(g, isFunction, size, mask), size, ecl, mask), size);
  }

  /** Masking again removes the mask and keeps the format modules. */
  lemma UnmaskKeepsFormat(g: Grid, isFunction: Grid, size: nat, ecl: Ecc, mask: nat)
    requires IsSize(size) && IsSquare(g, size) && IsSquare(isFunction, size) && CoversFormat(isFunction, size)
    requires mask < 8
    ensures Masked(WithFormat(Masked(g, isFunction, size, mask), size, ecl, mask), isFunction, size, mask)
         == WithFormat(g, size, ecl, mask)
  {
    hide SlotOf, SlotValue, MaskBit, FormatWord;
    GridsEqual(Masked(WithFormat(Masked(g, isFunction, size, mask), size, ecl, mask), isFunction, size, mask),
      WithFormat(g, size, ecl, mask), size);
  }

  /** Format modules do not disturb what is read on free cells. */
  lemma FormatKeepsFree(g: Grid, isFunction: Grid, size: nat, ecl: Ecc, mask: nat, cells: seq<Cell>)
    requires IsSize(size) && IsSquare(g, size) && IsSquare(isFunction, size) && CoversFormat(isFunction, size)
    requires mask < 8 && InGrid(size, cells) && forall c :: c in cells ==> Free(size, isFunction, c)
    ensures Read(WithFormat(g, size, ecl, mask), size, cells) == Read(g, size, cells)
  {
    hide SlotOf, SlotValue, FormatWord;
    forall k | 0 <= k < |cells|
      ensures Read(WithFormat(g, size, ecl, mask), size, cells)[k] == Read(g, size, cells)[k]
    {
      assert cells[k] in cells;
    }
  }
}
