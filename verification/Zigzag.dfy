/** Grids of modules, the zigzag along which codewords are placed, and the mask patterns. */
module Zigzag {

  /** Rows of modules; true is dark. */
  type Grid = seq<seq<bool>>

  predicate IsSquare(g: Grid, size: nat) {
    |g| == size && forall y :: 0 <= y < size ==> |g[y]| == size
  }

  function Set(g: Grid, size: nat, x: nat, y: nat, dark: bool): (r: Grid)
    requires IsSquare(g, size) && x < size && y < size
    ensures IsSquare(r, size)
  {
    g[y := g[y][x := dark]]
  }

  /** The sizes of symbols: odd, from version 1 on. */
  predicate IsSize(size: nat) {
    size % 2 == 1 && 21 <= size
  }

  // ----- the zigzag

  datatype Cell = Cell(x: nat, y: nat)

  /** The right column of column pair c, counted from the right edge; column 6 is skipped. */
  function RightColumn(size: nat, c: nat): (right: nat)
    requires IsSize(size) && c < size / 2
    ensures 1 <= right < size
  {
    var right := size - 1 - 2 * c;
    if right <= 6 then right - 1 else right
  }

  predicate Upward(right: nat) {
    (right + 1) / 2 % 2 == 0
  }

  function CellAt(size: nat, c: nat, vert: nat, j: nat): (cell: Cell)
    requires IsSize(size) && c < size / 2 && vert < size && j < 2
    ensures cell.x < size && cell.y < size && cell.x != 6
  {
    var right := RightColumn(size, c);
    Cell(right - j, if Upward(right) then size - 1 - vert else vert)
  }

  /** Steps of the scan: column pair, then row, then side of the pair. */
  datatype Step = Step(c: nat, vert: nat, j: nat)

  predicate IsStep(size: nat, s: Step) {
    s.c < size / 2 && s.vert < size && s.j < 2
  }

  /** The step at which the scan visits a cell outside column 6. */
  function StepOf(size: nat, cell: Cell): (s: Step)
    requires IsSize(size) && cell.x < size && cell.y < size && cell.x != 6
    ensures IsStep(size, s)
  {
    var x' := if cell.x > 6 then cell.x else cell.x + 1;
    var c := (size - 1 - x') / 2;
    Step(c, if Upward(RightColumn(size, c)) then size - 1 - cell.y else cell.y, (size - 1 - x') % 2)
  }

  /** The scan visits every cell outside column 6 at exactly one step. */
  lemma VisitedOnce(size: nat, cell: Cell, s: Step)
    requires IsSize(size) && cell.x < size && cell.y < size && cell.x != 6 && IsStep(size, s)
    ensures CellAt(size, s.c, s.vert, s.j) == cell <==> s == StepOf(size, cell)
  {
  }

  /** The scan starts at the lower right corner and goes up the first pair of columns, down the next one and so on;
    a pair starts in the row where the one before it ended, two columns further left, or three across column 6. */
  lemma ScanTurns(size: nat, c: nat, vert: nat, j: nat)
    requires IsSize(size) && size % 4 == 1 && c < size / 2 && vert < size && j < 2
    ensures CellAt(size, c, vert, j).y == if c % 2 == 0 then size - 1 - vert else vert
    ensures CellAt(size, 0, vert, j).x == size - 1 - j
    ensures c + 1 < size / 2 ==>
      CellAt(size, c + 1, vert, j).x == CellAt(size, c, vert, j).x - (if CellAt(size, c, vert, 0).x == 8 then 3 else 2)
  {
    hide CellAt;
    CellIs(size, c, vert, j);
    CellIs(size, c, vert, 0);
    CellIs(size, 0, vert, j);
    UpwardIsEven(size, c);
    if c + 1 < size / 2 { CellIs(size, c + 1, vert, j); }
  }

  lemma CellIs(size: nat, c: nat, vert: nat, j: nat)
    requires IsSize(size) && c < size / 2 && vert < size && j < 2
    ensures var right := RightColumn(size, c);
      CellAt(size, c, vert, j) == Cell(right - j, if Upward(right) then size - 1 - vert else vert)
  {
  }

  lemma UpwardIsEven(size: nat, c: nat)
    requires IsSize(size) && size % 4 == 1 && c < size / 2
    ensures Upward(RightColumn(size, c)) <==> c % 2 == 0
  {
    var m := size / 4;
    assert size == 4 * m + 1 && size - 1 - 2 * c == 2 * (2 * m - c);
    HalfOfOdd(2 * m - c);
  }

  lemma HalfOfOdd(n: nat)
    ensures (2 * n + 1) / 2 == n && (2 * n) / 2 == n
  {
  }

  // ----- the free cells in scan order

  predicate Valid(size: nat, g: Grid, isFunction: Grid) {
    IsSize(size) && IsSquare(g, size) && IsSquare(isFunction, size)
  }

  predicate Free(size: nat, isFunction: Grid, cell: Cell)
    requires IsSquare(isFunction, size)
  {
    cell.x < size && cell.y < size && !isFunction[cell.y][cell.x]
  }

  /** The free cells visited before side j of row vert of pair c; j == 2 and vert == size stand for the ends. */
  function FreeBefore(size: nat, isFunction: Grid, c: nat, vert: nat, j: nat): seq<Cell>
    requires IsSize(size) && IsSquare(isFunction, size)
    requires c <= size / 2 && vert <= size && j <= 2
    requires (c == size / 2 ==> vert == 0 && j == 0) && (vert == size ==> j == 0)
    decreases c, vert, j
  {
    if j > 0 then
      var cell := CellAt(size, c, vert, j - 1);
      FreeBefore(size, isFunction, c, vert, j - 1) + (if Free(size, isFunction, cell) then [cell] else [])
    else if vert > 0 then FreeBefore(size, isFunction, c, vert - 1, 2)
    else if c > 0 then FreeBefore(size, isFunction, c - 1, size, 0)
    else []
  }

  /** All free cells, in the order of the scan. */
  function FreeCells(size: nat, isFunction: Grid): seq<Cell>
    requires IsSize(size) && IsSquare(isFunction, size)
  {
    FreeBefore(size, isFunction, size / 2, 0, 0)
  }

  predicate Earlier(s: Step, c: nat, vert: nat, j: nat) {
    s.c < c || (s.c == c && (s.vert < vert || (s.vert == vert && s.j < j)))
  }

  /** The list holds exactly the free cells of earlier steps, each once. */
  lemma {:induction false} FreeBeforeCells(size: nat, isFunction: Grid, c: nat, vert: nat, j: nat)
    requires IsSize(size) && IsSquare(isFunction, size)
    requires c <= size / 2 && vert <= size && j <= 2
    requires (c == size / 2 ==> vert == 0 && j == 0) && (vert == size ==> j == 0)
    ensures forall cell: Cell :: cell in FreeBefore(size, isFunction, c, vert, j) <==>
              Free(size, isFunction, cell) && cell.x != 6 && Earlier(StepOf(size, cell), c, vert, j)
    ensures Distinct(FreeBefore(size, isFunction, c, vert, j))
    decreases c, vert, j
  {
    hide StepOf, CellAt;
    if j > 0 {
      FreeBeforeCells(size, isFunction, c, vert, j - 1);
      var last := CellAt(size, c, vert, j - 1);
      forall cell: Cell | Free(size, isFunction, cell) && cell.x != 6
        ensures Earlier(StepOf(size, cell), c, vert, j) <==> Earlier(StepOf(size, cell), c, vert, j - 1) || cell == last
      {
        VisitedOnce(size, cell, Step(c, vert, j - 1));
      }
      VisitedOnce(size, last, Step(c, vert, j - 1));
    } else if vert > 0 {
      FreeBeforeCells(size, isFunction, c, vert - 1, 2);
    } else if c > 0 {
      FreeBeforeCells(size, isFunction, c - 1, size, 0);
    }
  }

  predicate Distinct(cells: seq<Cell>) {
    forall k, m :: 0 <= k < m < |cells| ==> cells[k] != cells[m]
  }

  /** The scan meets each free cell outside column 6 exactly once, and no other cell. */
  lemma FreeCellsComplete(size: nat, isFunction: Grid)
    requires IsSize(size) && IsSquare(isFunction, size)
    ensures Distinct(FreeCells(size, isFunction))
    ensures forall cell: Cell :: cell in FreeCells(size, isFunction) <==> Free(size, isFunction, cell) && cell.x != 6
  {
    hide StepOf;
    FreeBeforeCells(size, isFunction, size / 2, 0, 0);
  }

  // ----- drawing and reading along a list of cells

  predicate InGrid(size: nat, cells: seq<Cell>) {
    forall cell :: cell in cells ==> cell.x < size && cell.y < size
  }

  function Draw(g: Grid, size: nat, cells: seq<Cell>, bits: seq<bool>): (r: Grid)
    requires IsSquare(g, size) && InGrid(size, cells) && |bits| == |cells|
    ensures IsSquare(r, size)
  {
    if |cells| == 0 then g
    else
      var n := |cells| - 1;
      assert cells[n] in cells;
      Set(Draw(g, size, cells[..n], bits[..n]), size, cells[n].x, cells[n].y, bits[n])
  }

  function Read(g: Grid, size: nat, cells: seq<Cell>): (bits: seq<bool>)
    requires IsSquare(g, size) && InGrid(size, cells)
    ensures |bits| == |cells|
  {
    seq(|cells|, k requires 0 <= k < |cells| => assert cells[k] in cells; g[cells[k].y][cells[k].x])
  }

  /** What was drawn on distinct cells is read back, and all other cells are as before. */
  lemma {:induction false} ReadDrawn(g: Grid, size: nat, cells: seq<Cell>, bits: seq<bool>)
    requires IsSquare(g, size) && InGrid(size, cells) && |bits| == |cells| && Distinct(cells)
    ensures Read(Draw(g, size, cells, bits), size, cells) == bits
    ensures forall x, y :: 0 <= x < size && 0 <= y < size && Cell(x, y) !in cells ==>
      Draw(g, size, cells, bits)[y][x] == g[y][x]
  {
    if |cells| > 0 {
      var n := |cells| - 1;
      ReadDrawn(g, size, cells[..n], bits[..n]);
      var before := Draw(g, size, cells[..n], bits[..n]);
      assert cells[n] in cells;
      assert Draw(g, size, cells, bits) == Set(before, size, cells[n].x, cells[n].y, bits[n]);
      hide Draw;
      forall k | 0 <= k < n ensures Read(Draw(g, size, cells, bits), size, cells)[k] == bits[k] {
        assert Read(before, size, cells[..n])[k] == bits[k];
        assert cells[k] in cells[..n] && cells[k] != cells[n];
      }
    }
  }

  // ----- masks

  predicate MaskBit(mask: nat, x: nat, y: nat)
    requires mask < 8
  {
    match mask
    case 0 => (x + y) % 2 == 0
    case 1 => y % 2 == 0
    case 2 => x % 3 == 0
    case 3 => (x + y) % 3 == 0
    case 4 => (x / 3 + y / 2) % 2 == 0
    case 5 => x * y % 2 + x * y % 3 == 0
    case 6 => (x * y % 2 + x * y % 3) % 2 == 0
    case _ => ((x + y) % 2 + x * y % 3) % 2 == 0
  }

  /** Exclusive or with the mask on the cells that are not function modules. */
  function Masked(g: Grid, isFunction: Grid, size: nat, mask: nat): (r: Grid)
    requires IsSquare(g, size) && IsSquare(isFunction, size) && mask < 8
    ensures IsSquare(r, size)
  {
    seq(size, y requires 0 <= y < size => seq(size, x requires 0 <= x < size =>
      g[y][x] != (MaskBit(mask, x, y) && !isFunction[y][x])))
  }

  lemma MaskedTwice(g: Grid, isFunction: Grid, size: nat, mask: nat)
    requires IsSquare(g, size) && IsSquare(isFunction, size) && mask < 8
    ensures Masked(Masked(g, isFunction, size, mask), isFunction, size, mask) == g
  {
    hide MaskBit;
    var r := Masked(Masked(g, isFunction, size, mask), isFunction, size, mask);
    forall y | 0 <= y < size ensures r[y] == g[y] {
    }
  }
}
