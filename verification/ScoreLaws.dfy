/** The penalty score read off the modules of a symbol, and its symmetry in rows and columns. */
module ScoreLaws {
  import opened Zigzag
  import opened Penalty
  import opened Score

  // ----- long runs

  predicate SameColored(line: seq<bool>, from: nat)
    requires from < |line|
  {
    forall k :: from <= k < |line| ==> line[k] == line[from]
  }

  /** Three points for the first five modules of a run of one color and one for each further module, as the five
    modules that end at each place of the line tell. */
  function LongRuns(line: seq<bool>): nat {
    if |line| < 5 then 0
    else
      var first := |line| - 5;
      LongRuns(line[..|line| - 1])
        + if !SameColored(line, first) then 0 else if first == 0 || line[first - 1] != line[first] then 3 else 1
  }

  /** The last n modules, and no more, have one color. */
  predicate EndsInRun(line: seq<bool>, n: nat, dark: bool) {
    && 0 < n <= |line| && line[|line| - 1] == dark && SameColored(line, |line| - n)
    && (n < |line| ==> line[|line| - n - 1] != dark)
  }

  lemma RunGoesOn(line: seq<bool>, n: nat, dark: bool)
    requires EndsInRun(line, n, dark)
    ensures EndsInRun(line + [dark], n + 1, dark) && EndsInRun(line + [!dark], 1, !dark)
  {
  }

  /** The last run is as long as there are modules of one color at the end. */
  lemma {:induction false} LastRun(line: seq<bool>)
    requires |line| > 0
    ensures EndsInRun(line, Runs(line)[|Runs(line)| - 1], LastColor(Runs(line)))
  {
    hide Runs, EndsInRun;
    var (front, b) := (line[..|line| - 1], line[|line| - 1]);
    assert line == front + [b];
    RunsSnoc(front, b);
    if |front| == 0 {
      RunsEmpty();
      FirstRun(b);
    } else {
      LastRun(front);
      RunGoesOn(front, Runs(front)[|Runs(front)| - 1], LastColor(Runs(front)));
    }
  }

  lemma FirstRun(b: bool)
    ensures EndsInRun([b], 1, b)
  {
  }

  lemma RunCostGrows(n: nat)
    ensures RunCost(n + 1) == RunCost(n) + (if n + 1 < 5 then 0 else if n + 1 == 5 then 3 else 1)
  {
  }

  lemma {:induction false} NoLongRuns(line: seq<bool>)
    requires |line| < 5
    ensures RunCosts(Runs(line)) == 0
  {
    hide RunCosts, Runs;
    if |line| == 0 {
      NoRunCosts();
      RunsEmpty();
    } else {
      NoLongRuns(line[..|line| - 1]);
      CostOfNext(line);
      RunBound(line, |Runs(line)| - 1);
    }
  }

  /** What the last module of a line adds to the cost of its runs. */
  lemma CostOfNext(line: seq<bool>)
    requires |line| > 0
    ensures var n := Runs(line)[|Runs(line)| - 1];
      RunCosts(Runs(line)) == RunCosts(Runs(line[..|line| - 1]))
        + (if n < 5 then 0 else if n == 5 then 3 else 1)
  {
    hide RunCosts, Runs, RunCost, LastColor;
    var (front, b) := (line[..|line| - 1], line[|line| - 1]);
    assert line == front + [b];
    RunsSnoc(front, b);
    var r := Runs(front);
    var n := |r| - 1;
    assert r == r[..n] + [r[n]] && r[n := r[n] + 1] == r[..n] + [r[n] + 1];
    RunCostsSnoc(r, 1);
    RunCostsSnoc(r[..n], r[n]);
    RunCostsSnoc(r[..n], r[n] + 1);
    RunCostGrows(r[n]);
    RunCostGrows(0);
    NoCost();
  }

  lemma NoCost()
    ensures RunCost(0) == 0
  {
  }

  /** The cost of the maximal runs is L - 2 for every run of L >= 5 modules: three points where the fifth one ends, one
    where each further one ends. */
  lemma {:induction false} RunCostsAreLongRuns(line: seq<bool>)
    ensures RunCosts(Runs(line)) == LongRuns(line)
  {
    hide RunCosts, Runs;
    if |line| < 5 {
      NoLongRuns(line);
    } else {
      RunCostsAreLongRuns(line[..|line| - 1]);
      CostOfNext(line);
      LastRun(line);
      var n := Runs(line)[|Runs(line)| - 1];
      assert n < 5 ==> line[|line| - n - 1] != line[|line| - 1];
    }
  }

  /** The penalty of a line, in points. */
  lemma LinePenaltyPoints(line: seq<bool>)
    ensures LinePenalty(line) == LongRuns(line) + 40 * LineFinders(line, |line|)
  {
    RunCostsAreLongRuns(line);
  }

  // ----- counting cells

  function RowCount(p: (nat, nat) -> bool, y: nat, width: nat): nat {
    if width == 0 then 0 else RowCount(p, y, width - 1) + (if p(width - 1, y) then 1 else 0)
  }

  function Count(p: (nat, nat) -> bool, height: nat, width: nat): nat {
    if height == 0 then 0 else Count(p, height - 1, width) + RowCount(p, height - 1, width)
  }

  ghost function CellsOf(p: (nat, nat) -> bool, height: nat, width: nat): set<Cell> {
    set x: nat, y: nat | x < width && y < height && p(x, y) :: Cell(x, y)
  }

  ghost function RowOf(p: (nat, nat) -> bool, y: nat, width: nat): set<Cell> {
    set x: nat | x < width && p(x, y) :: Cell(x, y)
  }

  lemma {:induction false} RowCountIsCardinality(p: (nat, nat) -> bool, y: nat, width: nat)
    ensures RowCount(p, y, width) == |RowOf(p, y, width)|
  {
    if width > 0 {
      RowCountIsCardinality(p, y, width - 1);
      var (before, last) := (RowOf(p, y, width - 1), Cell(width - 1, y));
      assert last !in before;
      assert RowOf(p, y, width) == if p(width - 1, y) then before + {last} else before;
    }
  }

  lemma {:induction false} CountIsCardinality(p: (nat, nat) -> bool, height: nat, width: nat)
    ensures Count(p, height, width) == |CellsOf(p, height, width)|
  {
    if height > 0 {
      CountIsCardinality(p, height - 1, width);
      RowCountIsCardinality(p, height - 1, width);
      var (above, row) := (CellsOf(p, height - 1, width), RowOf(p, height - 1, width));
      assert above !! row;
      assert CellsOf(p, height, width) == above + row;
    }
  }

  function Mirror(c: Cell): Cell {
    Cell(c.y, c.x)
  }

  lemma {:induction false} MirroredAsMany(cells: set<Cell>, mirrored: set<Cell>)
    requires forall c: Cell :: c in cells <==> Mirror(c) in mirrored
    ensures |mirrored| == |cells|
  {
    forall d | d in mirrored ensures Mirror(d) in cells {
      assert Mirror(Mirror(d)) == d;
    }
    if cells != {} {
      var c :| c in cells;
      assert forall d: Cell :: Mirror(d) == Mirror(c) ==> d == c;
      MirroredAsMany(cells - {c}, mirrored - {Mirror(c)});
    }
  }

  // ----- dark modules and blocks as sets of cells

  ghost function DarkCells(g: Grid, size: nat): set<Cell>
    requires IsSquare(g, size)
  {
    set x: nat, y: nat | x < size && y < size && g[y][x] :: Cell(x, y)
  }

  /** The upper left corners of the two-by-two blocks of one color. */
  ghost function BlockCorners(g: Grid, size: nat): set<Cell>
    requires IsSquare(g, size)
  {
    set x: nat, y: nat | x + 1 < size && y + 1 < size
      && g[y][x] == g[y][x + 1] && g[y][x] == g[y + 1][x] && g[y][x] == g[y + 1][x + 1] :: Cell(x, y)
  }

  function DarkAt(g: Grid): (nat, nat) -> bool {
    (x: nat, y: nat) => y < |g| && x < |g[y]| && g[y][x]
  }

  function CornerAt(g: Grid, size: nat): (nat, nat) -> bool
    requires IsSquare(g, size)
  {
    (x: nat, y: nat) => x + 1 < size && y + 1 < size && IsBlock(g, size, x, y)
  }

  lemma {:induction false} DarkInIsRowCount(g: Grid, y: nat, n: nat)
    requires y < |g| && n <= |g[y]|
    ensures DarkIn(g[y][..n]) == RowCount(DarkAt(g), y, n)
  {
    if n > 0 {
      DarkInIsRowCount(g, y, n - 1);
      assert g[y][..n][..n - 1] == g[y][..n - 1];
    }
  }

  lemma {:induction false} DarkIsCount(g: Grid, size: nat, n: nat)
    requires IsSquare(g, size) && n <= size
    ensures Dark(g[..n]) == Count(DarkAt(g), n, size)
  {
    if n > 0 {
      DarkIsCount(g, size, n - 1);
      assert g[..n][..n - 1] == g[..n - 1];
      DarkInIsRowCount(g, n - 1, size);
      assert g[n - 1][..size] == g[n - 1];
    }
  }

  lemma DarkIsCardinality(g: Grid, size: nat)
    requires IsSquare(g, size)
    ensures Dark(g) == |DarkCells(g, size)|
  {
    hide Dark, Count;
    DarkIsCount(g, size, size);
    assert g[..size] == g;
    CountIsCardinality(DarkAt(g), size, size);
    assert CellsOf(DarkAt(g), size, size) == DarkCells(g, size);
  }

  lemma {:induction false} BlocksInRowIsRowCount(g: Grid, size: nat, y: nat, n: nat)
    requires IsSquare(g, size) && n < size && y + 1 < size
    ensures BlocksInRow(g, size, y, n) == RowCount(CornerAt(g, size), y, n)
  {
    hide IsBlock;
    if n > 0 {
      BlocksInRowIsRowCount(g, size, y, n - 1);
    }
  }

  lemma {:induction false} BlocksIsCount(g: Grid, size: nat, n: nat)
    requires IsSquare(g, size) && n < size
    ensures Blocks(g, size, n) == Count(CornerAt(g, size), n, size - 1)
  {
    hide IsBlock;
    if n > 0 {
      BlocksIsCount(g, size, n - 1);
      BlocksInRowIsRowCount(g, size, n - 1, size - 1);
    }
  }

  lemma BlocksIsCardinality(g: Grid, size: nat)
    requires IsSquare(g, size) && size > 0
    ensures Blocks(g, size, size - 1) == |BlockCorners(g, size)|
  {
    hide Blocks, Count;
    BlocksIsCount(g, size, size - 1);
    CountIsCardinality(CornerAt(g, size), size - 1, size - 1);
    assert CellsOf(CornerAt(g, size), size - 1, size - 1) == BlockCorners(g, size);
  }

  // ----- the whole score

  /** The points of a list of lines. */
  function LinesPoints(lines: seq<seq<bool>>): nat {
    if |lines| == 0 then 0
    else
      var line := lines[|lines| - 1];
      LineFindersNonNegative(line);
      LinesPoints(lines[..|lines| - 1]) + LongRuns(line) + 40 * LineFinders(line, |line|)
  }

  lemma LineFindersNonNegative(line: seq<bool>)
    ensures LineFinders(line, |line|) >= 0
  {
    FindersBound(Runs(Bordered(line, |line|)), |Runs(Bordered(line, |line|))|);
  }

  ghost predicate Transposed(rows: Grid, columns: Grid, size: nat) {
    && IsSquare(rows, size) && IsSquare(columns, size)
    && forall x, y :: 0 <= x < size && 0 <= y < size ==> rows[y][x] == columns[x][y]
  }

  lemma {:induction false} RowsPoints(g: Grid, n: nat)
    requires n <= |g|
    ensures RowsCost(g, n) == LinesPoints(g[..n])
  {
    hide LinePenalty, LongRuns, LineFinders;
    if n > 0 {
      RowsPoints(g, n - 1);
      assert g[..n][..n - 1] == g[..n - 1];
      LinePenaltyPoints(g[n - 1]);
    }
  }

  lemma {:induction false} ColumnsAreRows(rows: Grid, columns: Grid, size: nat, n: nat)
    requires Transposed(rows, columns, size) && n <= size
    ensures ColumnsCost(rows, size, n) == RowsCost(columns, n)
  {
    hide LinePenalty;
    if n > 0 {
      ColumnsAreRows(rows, columns, size, n - 1);
      assert Column(rows, size, n - 1) == columns[n - 1];
    }
  }

  /** The score is the points of the rows, those of the columns, three for each block and ten for each level of
    imbalance: the least that puts the share of dark modules between 45 - 5k and 55 + 5k percent. */
  lemma ScoreByCells(rows: Grid, columns: Grid, size: nat) returns (k: nat)
    requires Transposed(rows, columns, size) && IsSize(size)
    ensures k <= 9 && LeastBalanced(|DarkCells(rows, size)|, size * size, k)
    ensures PenaltyScore(rows, size)
         == LinesPoints(rows) + LinesPoints(columns) + 3 * |BlockCorners(rows, size)| + 10 * k
  {
    hide LinesPoints, RowsCost, ColumnsCost, Blocks, Dark, BalanceLevel, LeastBalanced, DarkCells, BlockCorners;
    assert rows[..size] == rows && columns[..size] == columns;
    RowsPoints(rows, size);
    RowsPoints(columns, size);
    ColumnsAreRows(rows, columns, size, size);
    BlocksIsCardinality(rows, size);
    DarkIsCardinality(rows, size);
    OddSquare(size);
    DarkBound(rows, size);
    BalanceLevelIsLeast(Dark(rows), size * size);
    k := BalanceLevel(Dark(rows), size * size);
  }

  // ----- symmetry

  function Transpose(g: Grid, size: nat): (r: Grid)
    requires IsSquare(g, size)
    ensures IsSquare(r, size)
  {
    seq(size, y requires 0 <= y < size => seq(size, x requires 0 <= x < size => g[x][y]))
  }

  lemma MirrorsCells(rows: Grid, columns: Grid, size: nat)
    requires Transposed(rows, columns, size)
    ensures |DarkCells(rows, size)| == |DarkCells(columns, size)|
    ensures |BlockCorners(rows, size)| == |BlockCorners(columns, size)|
  {
    MirroredAsMany(DarkCells(rows, size), DarkCells(columns, size));
    MirroredAsMany(BlockCorners(rows, size), BlockCorners(columns, size));
  }

  /** Rows and columns count alike. */
  lemma TransposeKeepsScore(g: Grid, size: nat)
    requires IsSquare(g, size) && IsSize(size)
    ensures PenaltyScore(Transpose(g, size), size) == PenaltyScore(g, size)
  {
    hide PenaltyScore, DarkCells, BlockCorners, LinesPoints;
    var t := Transpose(g, size);
    var a := ScoreByCells(g, t, size);
    var b := ScoreByCells(t, g, size);
    MirrorsCells(g, t, size);
  }

  // ----- the assertion on the result

  function TotalRuns(r: seq<nat>): nat {
    if |r| == 0 then 0 else TotalRuns(r[..|r| - 1]) + r[|r| - 1]
  }

  /** The modules of the dark runs among the first n runs. */
  function DarkRuns(r: seq<nat>, n: nat): nat
    requires n <= |r|
  {
    if n == 0 then 0 else DarkRuns(r, n - 1) + (if n % 2 == 0 then r[n - 1] else 0)
  }

  lemma {:induction false} TotalRunsIsLength(r: seq<nat>)
    ensures TotalRuns(r) == |Expand(r)|
  {
    if |r| > 0 { TotalRunsIsLength(r[..|r| - 1]); }
  }

  lemma {:induction false} CostsAtMostTotal(r: seq<nat>)
    ensures RunCosts(r) <= TotalRuns(r)
  {
    if |r| > 0 { CostsAtMostTotal(r[..|r| - 1]); }
  }

  /** A finder-like pattern has three dark modules or more in its middle, which no other one has in its middle. */
  lemma {:induction false} FindersNeedDark(r: seq<nat>, end: nat)
    requires 3 <= end <= |r|
    ensures 3 * Finders(r, end) <= 2 * DarkRuns(r, end - 3)
  {
    if end >= 7 {
      FindersNeedDark(r, end - 1);
      if end % 2 == 1 { FindersAtNeeds(r, end - 6); }
    }
  }

  lemma FindersAtNeeds(r: seq<nat>, k: nat)
    requires 0 < k && k + 5 < |r|
    ensures 3 * FindersAt(r, k) <= 2 * r[k + 2]
  {
  }

  lemma DarkInNext(line: seq<bool>, b: bool)
    ensures DarkIn(line + [b]) == DarkIn(line) + if b then 1 else 0
  {
    assert (line + [b])[..|line|] == line;
  }

  lemma {:induction false} DarkInAppend(line: seq<bool>, more: seq<bool>)
    ensures DarkIn(line + more) == DarkIn(line) + DarkIn(more)
  {
    if |more| == 0 {
      assert line + more == line;
    } else {
      DarkInAppend(line, more[..|more| - 1]);
      assert line + more == (line + more[..|more| - 1]) + [more[|more| - 1]];
      DarkInNext(line + more[..|more| - 1], more[|more| - 1]);
    }
  }

  lemma {:induction false} DarkInRepeat(color: bool, n: nat)
    ensures DarkIn(Repeat(color, n)) == if color then n else 0
  {
    if n > 0 {
      DarkInRepeat(color, n - 1);
      assert Repeat(color, n)[..n - 1] == Repeat(color, n - 1);
    }
  }

  lemma {:induction false} DarkRunsAreDark(r: seq<nat>)
    ensures DarkRuns(r, |r|) == DarkIn(Expand(r))
  {
    hide DarkIn, Repeat;
    if |r| == 0 {
      DarkInRepeat(true, 0);
      assert Expand(r) == Repeat(true, 0) by { RepeatNone(true); }
    } else {
      var (front, n) := (r[..|r| - 1], r[|r| - 1]);
      DarkRunsAreDark(front);
      DarkRunsPrefix(front, r, |front|);
      DarkInAppend(Expand(front), Repeat(|r| % 2 == 0, n));
      DarkInRepeat(|r| % 2 == 0, n);
    }
  }

  lemma RepeatNone(color: bool)
    ensures Repeat(color, 0) == []
  {
  }

  lemma {:induction false} DarkRunsPrefix(r: seq<nat>, q: seq<nat>, n: nat)
    requires n <= |r| && r <= q
    ensures DarkRuns(r, n) == DarkRuns(q, n)
  {
    if n > 0 { DarkRunsPrefix(r, q, n - 1); }
  }

  lemma {:induction false} DarkRunsGrow(r: seq<nat>, n: nat, m: nat)
    requires n <= m <= |r|
    ensures DarkRuns(r, n) <= DarkRuns(r, m)
  {
    if n < m { DarkRunsGrow(r, n, m - 1); }
  }

  /** The points of a line: at most one for each module, and 80 for every three. */
  lemma LinePointsBound(line: seq<bool>)
    ensures 0 <= LinePenalty(line) && 3 * LinePenalty(line) <= 83 * |line|
  {
    hide Runs, Finders, RunCosts, Expand, DarkIn, TotalRuns, DarkRuns;
    RunsExpand(line);
    TotalRunsIsLength(Runs(line));
    CostsAtMostTotal(Runs(line));
    LinePenaltyBound(line);
    FewFinders(line);
  }

  lemma FewFinders(line: seq<bool>)
    ensures 3 * LineFinders(line, |line|) <= 2 * |line|
  {
    hide Runs, Finders, Expand, DarkIn, Repeat;
    var b := Bordered(line, |line|);
    var r := Runs(b);
    RunsExpand(b);
    DarkRunsAreDark(r);
    DarkInAppend(Repeat(false, |line|) + line, Repeat(false, |line|));
    DarkInAppend(Repeat(false, |line|), line);
    DarkInRepeat(false, |line|);
    if |r| >= 3 {
      FindersNeedDark(r, |r|);
      DarkRunsGrow(r, |r| - 3, |r|);
    } else {
      NoFinders(r, |r|);
    }
  }

  lemma NoFinders(r: seq<nat>, end: nat)
    requires end <= |r| && end < 7
    ensures Finders(r, end) == 0
  {
  }

  lemma {:induction false} RowsBound(g: Grid, size: nat, n: nat)
    requires IsSquare(g, size) && n <= size
    ensures 3 * RowsCost(g, n) <= 83 * (n * size)
  {
    hide LinePenalty;
    if n > 0 {
      RowsBound(g, size, n - 1);
      LinePointsBound(g[n - 1]);
      assert n * size == (n - 1) * size + size;
    }
  }

  lemma SquareGrows(size: nat, most: nat)
    requires size <= most
    ensures size * size <= most * most
  {
  }

  /** Both assertions on the result hold for every symbol. */
  lemma ScoreAssertion(g: Grid, size: nat)
    requires IsSquare(g, size) && IsSize(size) && size <= 177
    ensures 0 <= PenaltyScore(g, size) <= 2568888
  {
    hide RowsCost, ColumnsCost, Blocks, Dark, BalanceLevel;
    ScoreBound(g, size);
    var t := Transpose(g, size);
    ColumnsAreRows(g, t, size, size);
    RowsBound(g, size, size);
    RowsBound(t, size, size);
    BlocksBound(g, size, size - 1);
    SquareGrows(size, 177);
    OddSquare(size);
    DarkBound(g, size);
    BalanceLevelIsLeast(Dark(g), size * size);
  }
}
