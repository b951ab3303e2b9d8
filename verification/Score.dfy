/** The whole penalty score of a symbol: lines, blocks and balance, as `getPenaltyScore` adds them up. */
module Score {
  import opened Zigzag
  import opened Penalty

  function Column(g: Grid, size: nat, x: nat): (c: seq<bool>)
    requires IsSquare(g, size) && x < size
    ensures |c| == size
  {
    seq(size, y requires 0 <= y < size => g[y][x])
  }

  function RowsCost(g: Grid, n: nat): int
    requires n <= |g|
  {
    if n == 0 then 0 else RowsCost(g, n - 1) + LinePenalty(g[n - 1])
  }

  function ColumnsCost(g: Grid, size: nat, n: nat): int
    requires IsSquare(g, size) && n <= size
  {
    if n == 0 then 0 else ColumnsCost(g, size, n - 1) + LinePenalty(Column(g, size, n - 1))
  }

  /** The two-by-two block with its upper left corner at (x, y) has one color. */
  predicate IsBlock(g: Grid, size: nat, x: nat, y: nat)
    requires IsSquare(g, size) && x + 1 < size && y + 1 < size
  {
    g[y][x] == g[y][x + 1] == g[y + 1][x] == g[y + 1][x + 1]
  }

  function BlocksInRow(g: Grid, size: nat, y: nat, n: nat): nat
    requires IsSquare(g, size) && n < size && y + 1 < size
  {
    if n == 0 then 0 else BlocksInRow(g, size, y, n - 1) + (if IsBlock(g, size, n - 1, y) then 1 else 0)
  }

  function Blocks(g: Grid, size: nat, n: nat): nat
    requires IsSquare(g, size) && n < size
  {
    if n == 0 then 0 else Blocks(g, size, n - 1) + BlocksInRow(g, size, n - 1, size - 1)
  }

  function DarkIn(row: seq<bool>): (n: nat)
    ensures n <= |row|
  {
    if |row| == 0 then 0 else DarkIn(row[..|row| - 1]) + (if row[|row| - 1] then 1 else 0)
  }

  function Dark(g: Grid): nat {
    if |g| == 0 then 0 else Dark(g[..|g| - 1]) + DarkIn(g[|g| - 1])
  }

  // ----- balance

  /** The share of dark modules is between (45 - 5k) and (55 + 5k) percent. */
  predicate Balanced(dark: nat, total: nat, k: int) {
    (45 - 5 * k) * total <= 100 * dark <= (55 + 5 * k) * total
  }

  ghost predicate LeastBalanced(dark: nat, total: nat, k: nat) {
    Balanced(dark, total, k) && forall m: nat :: Balanced(dark, total, m) ==> k <= m
  }

  function Imbalance(dark: nat, total: nat): nat {
    if 20 * dark >= 10 * total then 20 * dark - 10 * total else 10 * total - 20 * dark
  }

  function BalanceLevel(dark: nat, total: nat): int
    requires total > 0
  {
    (Imbalance(dark, total) + total - 1) / total - 1
  }

  lemma BalanceLevelBounds(dark: nat, total: nat)
    requires total > 0
    ensures var (a, k) := (Imbalance(dark, total), BalanceLevel(dark, total));
      a <= (k + 1) * total && (a > 0 ==> k * total < a)
  {
    var (a, q) := (Imbalance(dark, total), (Imbalance(dark, total) + total - 1) / total);
    assert a + total - 1 == total * q + (a + total - 1) % total;
    assert (q - 1) * total == total * q - total && q * total == total * q;
  }

  /** On an odd number of modules the level is the least k >= 0 that balances, and at most 9. */
  lemma BalanceLevelIsLeast(dark: nat, total: nat)
    requires dark <= total && total % 2 == 1
    ensures 0 <= BalanceLevel(dark, total) <= 9
    ensures LeastBalanced(dark, total, BalanceLevel(dark, total))
  {
    hide BalanceLevel, Balanced;
    var (a, k) := (Imbalance(dark, total), BalanceLevel(dark, total));
    assert 0 < a <= 10 * total;
    BalanceLevelBounds(dark, total);
    if k >= 10 {
      LevelOrder(10, k, total);
      assert false;
    }
    if k < 0 {
      LevelOrder(k + 1, 0, total);
      assert false;
    }
    BalancedMeansImbalance(dark, total, k);
    forall m: nat | Balanced(dark, total, m) ensures k <= m {
      BalancedMeansImbalance(dark, total, m);
      if m < k {
        LevelOrder(m + 1, k, total);
        assert false;
      }
    }
  }

  lemma LevelOrder(m: int, k: int, total: nat)
    requires m <= k
    ensures m * total <= k * total
  {
  }

  lemma BalancedMeansImbalance(dark: nat, total: nat, k: int)
    ensures Balanced(dark, total, k) <==> Imbalance(dark, total) <= (k + 1) * total
  {
    assert (45 - 5 * k) * total == 45 * total - 5 * (k * total);
    assert (55 + 5 * k) * total == 55 * total + 5 * (k * total);
    assert (k + 1) * total == k * total + total;
  }

  // ----- the score

  function PenaltyScore(g: Grid, size: nat): int
    requires IsSquare(g, size) && size > 0
  {
    RowsCost(g, size) + ColumnsCost(g, size, size) + Blocks(g, size, size - 1) * PENALTY_N2
      + BalanceLevel(Dark(g), size * size) * PENALTY_N4
  }

  lemma {:induction false} DarkBound(g: Grid, size: nat)
    requires forall y :: 0 <= y < |g| ==> |g[y]| == size
    ensures Dark(g) <= |g| * size
  {
    if |g| > 0 {
      DarkBound(g[..|g| - 1], size);
      assert |g| * size == (|g| - 1) * size + size;
    }
  }

  lemma OddSquare(size: nat)
    requires size % 2 == 1
    ensures size * size % 2 == 1 && size * size > 0
  {
    var h := size / 2;
    assert size * size == 2 * (2 * h * h + 2 * h) + 1;
  }

  /** All rows, then all columns. */
  method LineScore(modules: Grid, size: nat) returns (result: int)
    requires IsSquare(modules, size) && size > 0
    ensures result == RowsCost(modules, size) + ColumnsCost(modules, size, size)
  {
    hide LinePenalty;
    result := 0;
    for y := 0 to size
      invariant result == RowsCost(modules, y)
    {
      var cost := ScanLine(modules[y]);
      result := result + cost;
    }
    for x := 0 to size
      invariant result == RowsCost(modules, size) + ColumnsCost(modules, size, x)
    {
      var cost := ScanLine(Column(modules, size, x));
      result := result + cost;
    }
  }

  method BlockCount(modules: Grid, size: nat) returns (count: nat)
    requires IsSquare(modules, size) && size > 0
    ensures count == Blocks(modules, size, size - 1)
  {
    count := 0;
    for y := 0 to size - 1
      invariant count == Blocks(modules, size, y)
    {
      for x := 0 to size - 1
        invariant count == Blocks(modules, size, y) + BlocksInRow(modules, size, y, x)
      {
        var color := modules[y][x];
        if color == modules[y][x + 1] && color == modules[y + 1][x] && color == modules[y + 1][x + 1] {
          count := count + 1;
        }
      }
    }
  }

  method DarkCount(modules: Grid) returns (dark: nat)
    ensures dark == Dark(modules)
  {
    dark := 0;
    for y := 0 to |modules|
      invariant dark == Dark(modules[..y])
    {
      assert modules[..y + 1][..y] == modules[..y];
      var row := modules[y];
      for x := 0 to |row|
        invariant dark == Dark(modules[..y]) + DarkIn(row[..x])
      {
        assert row[..x + 1][..x] == row[..x];
        if row[x] {
          dark := dark + 1;
        }
      }
      assert row[..|row|] == row;
    }
    assert modules[..|modules|] == modules;
  }

  method GetPenaltyScore(modules: Grid, size: nat) returns (result: int)
    requires IsSquare(modules, size) && IsSize(size)
    ensures result == PenaltyScore(modules, size)
    ensures exists k: nat :: (k <= 9 && LeastBalanced(Dark(modules), size * size, k) &&
      result == RowsCost(modules, size) + ColumnsCost(modules, size, size) +
        Blocks(modules, size, size - 1) * 3 + k * 10)
  {
    hide RowsCost, ColumnsCost, Blocks, Dark, BalanceLevel, Balanced;
    result := LineScore(modules, size);
    var blocks := BlockCount(modules, size);
    result := result + blocks * PENALTY_N2;
    var dark := DarkCount(modules);
    var total := size * size;
    OddSquare(size);
    DarkBound(modules, size);
    BalanceLevelIsLeast(dark, total);
    var k := BalanceLevel(dark, total);
    assert 0 <= k <= 9;
    assert LeastBalanced(Dark(modules), size * size, k);
    result := result + k * PENALTY_N4;
  }

  // ----- a bound, so that the first penalty is below the initial minimum

  lemma ExtendCost(r: seq<nat>, b: bool)
    requires |r| > 0
    ensures RunCosts(r) <= RunCosts(Extend(r, b)) <= RunCosts(r) + 3 && |Extend(r, b)| <= |r| + 1
  {
    hide RunCosts, LastColor;
    var n := |r| - 1;
    assert r == r[..n] + [r[n]] && r[n := r[n] + 1] == r[..n] + [r[n] + 1];
    RunCostsSnoc(r, 1);
    RunCostsSnoc(r[..n], r[n]);
    RunCostsSnoc(r[..n], r[n] + 1);
  }

  lemma {:induction false} RunCostsBound(line: seq<bool>)
    ensures 0 <= RunCosts(Runs(line)) <= 3 * |line| && |Runs(line)| <= |line| + 1
  {
    hide RunCosts, Extend;
    if |line| == 0 {
      NoRunCosts();
    } else {
      RunCostsBound(line[..|line| - 1]);
      ExtendCost(Runs(line[..|line| - 1]), line[|line| - 1]);
    }
  }

  lemma NoRunCosts()
    ensures RunCosts([0]) == 0
  {
    assert [0][..0] == [];
  }

  lemma {:induction false} FindersBound(r: seq<nat>, end: nat)
    requires end <= |r|
    ensures 0 <= Finders(r, end) <= 2 * end
  {
    if end >= 7 { FindersBound(r, end - 1); }
  }

  lemma LinePenaltyBound(line: seq<bool>)
    ensures 0 <= LinePenalty(line) <= 243 * |line| + 80
  {
    hide RunCosts, Runs, Finders;
    RunCostsBound(line);
    RunCostsBound(Bordered(line, |line|));
    FindersBound(Runs(Bordered(line, |line|)), |Runs(Bordered(line, |line|))|);
  }

  lemma {:induction false} LinesBound(g: Grid, size: nat, n: nat)
    requires IsSquare(g, size) && n <= size <= 177
    ensures 0 <= RowsCost(g, n) <= 44000 * n && 0 <= ColumnsCost(g, size, n) <= 44000 * n
  {
    hide LinePenalty;
    if n > 0 {
      LinesBound(g, size, n - 1);
      LinePenaltyBound(g[n - 1]);
      LinePenaltyBound(Column(g, size, n - 1));
    }
  }

  lemma {:induction false} BlocksInRowBound(g: Grid, size: nat, y: nat, n: nat)
    requires IsSquare(g, size) && n < size && y + 1 < size
    ensures BlocksInRow(g, size, y, n) <= n
  {
    if n > 0 { BlocksInRowBound(g, size, y, n - 1); }
  }

  lemma {:induction false} BlocksBound(g: Grid, size: nat, n: nat)
    requires IsSquare(g, size) && n < size <= 177
    ensures Blocks(g, size, n) <= 177 * n
  {
    if n > 0 {
      BlocksBound(g, size, n - 1);
      BlocksInRowBound(g, size, n - 1, size - 1);
    }
  }

  /** Every score of a symbol is below the least value that LONG_MAX may have. */
  lemma ScoreBound(g: Grid, size: nat)
    requires IsSquare(g, size) && IsSize(size) && size <= 177
    ensures 0 <= PenaltyScore(g, size) < 0x7FFF_FFFF
  {
    hide RowsCost, ColumnsCost, Blocks, BalanceLevel, Dark;
    LinesBound(g, size, size);
    BlocksBound(g, size, size - 1);
    OddSquare(size);
    DarkBound(g, size);
    BalanceLevelIsLeast(Dark(g), size * size);
  }
}
