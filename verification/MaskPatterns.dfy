/** The eight mask patterns, drawn out as in table 10 of ISO/IEC 18004:2015, and what a reader unmasks with. */
module MaskPatterns {
  import opened Zigzag

  /** How many rows a pattern has before it repeats. */
  function Rows(mask: nat): nat {
    if mask == 4 then 4 else 6
  }

  /** A row of a pattern, 6 modules wide; the pattern repeats in both directions. */
  function Row(mask: nat, y: nat): (row: string)
    requires mask < 8 && y < Rows(mask)
    ensures |row| == 6
  {
    match mask
    case 0 =>
      (match y case 0 => "#.#.#." case 1 => ".#.#.#" case 2 => "#.#.#."
       case 3 => ".#.#.#" case 4 => "#.#.#." case _ => ".#.#.#")
    case 1 =>
      (match y case 0 => "######" case 1 => "......" case 2 => "######"
       case 3 => "......" case 4 => "######" case _ => "......")
    case 2 =>
      (match y case 0 => "#..#.." case 1 => "#..#.." case 2 => "#..#.."
       case 3 => "#..#.." case 4 => "#..#.." case _ => "#..#..")
    case 3 =>
      (match y case 0 => "#..#.." case 1 => "..#..#" case 2 => ".#..#."
       case 3 => "#..#.." case 4 => "..#..#" case _ => ".#..#.")
    case 4 =>
      (match y case 0 => "###..." case 1 => "###..."
       case 2 => "...###" case _ => "...###")
    case 5 =>
      (match y case 0 => "######" case 1 => "#....." case 2 => "#..#.."
       case 3 => "#.#.#." case 4 => "#..#.." case _ => "#.....")
    case 6 =>
      (match y case 0 => "######" case 1 => "###..." case 2 => "##.##."
       case 3 => "#.#.#." case 4 => "#.##.#" case _ => "#...##")
    case _ =>
      (match y case 0 => "#.#.#." case 1 => "...###" case 2 => "#...##"
       case 3 => ".#.#.#" case 4 => "###..." case _ => ".###..")
  }

  /** The pattern inverts the module in column x of row y. */
  predicate Inverts(mask: nat, x: nat, y: nat)
    requires mask < 8
  {
    Row(mask, y % Rows(mask))[x % 6] == '#'
  }

  lemma Tile0(x: nat, y: nat)
    requires x < 6 && y < 6
    ensures MaskBit(0, x, y) == Inverts(0, x, y)
  {
  }

  lemma Tile1(x: nat, y: nat)
    requires x < 6 && y < 6
    ensures MaskBit(1, x, y) == Inverts(1, x, y)
  {
  }

  lemma Tile2(x: nat, y: nat)
    requires x < 6 && y < 6
    ensures MaskBit(2, x, y) == Inverts(2, x, y)
  {
  }

  lemma Tile3(x: nat, y: nat)
    requires x < 6 && y < 6
    ensures MaskBit(3, x, y) == Inverts(3, x, y)
  {
  }

  lemma Tile4(x: nat, y: nat)
    requires x < 6 && y < 4
    ensures MaskBit(4, x, y) == Inverts(4, x, y)
  {
  }

  lemma Tile5(x: nat, y: nat)
    requires x < 6 && y < 6
    ensures MaskBit(5, x, y) == Inverts(5, x, y)
  {
    hide MaskBit;
    Products(x, y);
    MaskProducts(x, y);
  }

  lemma Tile6Left(x: nat, y: nat)
    requires x < 3 && y < 6
    ensures MaskBit(6, x, y) == Inverts(6, x, y)
  {
    hide MaskBit;
    Products(x, y);
    MaskProducts(x, y);
  }

  lemma Tile6Right(x: nat, y: nat)
    requires 3 <= x < 6 && y < 6
    ensures MaskBit(6, x, y) == Inverts(6, x, y)
  {
    hide MaskBit;
    Products(x, y);
    MaskProducts(x, y);
  }

  lemma Tile6(x: nat, y: nat)
    requires x < 6 && y < 6
    ensures MaskBit(6, x, y) == Inverts(6, x, y)
  {
    hide MaskBit, Inverts;
    if x < 3 {
      Tile6Left(x, y);
    } else {
      Tile6Right(x, y);
    }
  }

  lemma Tile7Left(x: nat, y: nat)
    requires x < 3 && y < 6
    ensures MaskBit(7, x, y) == Inverts(7, x, y)
  {
    hide MaskBit;
    Products(x, y);
    MaskProducts(x, y);
  }

  lemma Tile7Right(x: nat, y: nat)
    requires 3 <= x < 6 && y < 6
    ensures MaskBit(7, x, y) == Inverts(7, x, y)
  {
    hide MaskBit;
    Products(x, y);
    MaskProducts(x, y);
  }

  lemma Tile7(x: nat, y: nat)
    requires x < 6 && y < 6
    ensures MaskBit(7, x, y) == Inverts(7, x, y)
  {
    hide MaskBit, Inverts;
    if x < 3 {
      Tile7Left(x, y);
    } else {
      Tile7Right(x, y);
    }
  }

  lemma MaskProducts(x: nat, y: nat)
    ensures MaskBit(5, x, y) == (x * y % 2 + x * y % 3 == 0)
    ensures MaskBit(6, x, y) == ((x * y % 2 + x * y % 3) % 2 == 0)
    ensures MaskBit(7, x, y) == (((x + y) % 2 + x * y % 3) % 2 == 0)
  {
  }

  lemma Products(x: nat, y: nat)
    requires x < 6
    ensures x == 0 ==> x * y == 0
    ensures x == 1 ==> x * y == y
    ensures x == 2 ==> x * y == 2 * y
    ensures x == 3 ==> x * y == 3 * y
    ensures x == 4 ==> x * y == 4 * y
    ensures x == 5 ==> x * y == 5 * y
  {
  }

  /** The encoder's formula inverts exactly the modules that the drawn pattern inverts. */
  lemma PatternIsMask(mask: nat, x: nat, y: nat)
    requires mask < 8
    ensures MaskBit(mask, x, y) == Inverts(mask, x, y)
  {
    var (u, v) := (x % 6, y % Rows(mask));
    Periodic(mask, x, y);
    InvertsPeriodic(mask, x, y);
    hide MaskBit, Inverts;
    match mask
    case 0 => Tile0(u, v);
    case 1 => Tile1(u, v);
    case 2 => Tile2(u, v);
    case 3 => Tile3(u, v);
    case 4 => Tile4(u, v);
    case 5 => Tile5(u, v);
    case 6 => Tile6(u, v);
    case _ => Tile7(u, v);
  }

  lemma InvertsPeriodic(mask: nat, x: nat, y: nat)
    requires mask < 8
    ensures Inverts(mask, x, y) == Inverts(mask, x % 6, y % Rows(mask))
  {
    hide Row;
  }

  lemma Periodic(mask: nat, x: nat, y: nat)
    requires mask < 8
    ensures MaskBit(mask, x, y) == MaskBit(mask, x % 6, y % Rows(mask))
  {
    if mask == 4 {
      PeriodicBlocks(x, y);
    } else if mask < 4 {
      PeriodicSums(mask, x, y);
    } else {
      PeriodicProducts(mask, x, y);
    }
  }

  lemma PeriodicBlocks(x: nat, y: nat)
    ensures MaskBit(4, x, y) == MaskBit(4, x % 6, y % 4)
  {
    assert x / 3 == 2 * (x / 6) + x % 6 / 3 && y / 2 == 2 * (y / 4) + y % 4 / 2;
  }

  lemma PeriodicSums(mask: nat, x: nat, y: nat)
    requires mask < 4
    ensures MaskBit(mask, x, y) == MaskBit(mask, x % 6, y % 6)
  {
    SumMod(x, y);
    ModSix(x / 6, x % 6);
    ModSix(y / 6, y % 6);
  }

  lemma PeriodicProducts(mask: nat, x: nat, y: nat)
    requires 5 <= mask < 8
    ensures MaskBit(mask, x, y) == MaskBit(mask, x % 6, y % 6)
  {
    hide MaskBit;
    MaskProducts(x, y);
    MaskProducts(x % 6, y % 6);
    ProductMod(x / 6, x % 6, y / 6, y % 6);
    SumMod(x, y);
  }

  lemma SumMod(x: nat, y: nat)
    ensures (x + y) % 2 == (x % 6 + y % 6) % 2 && (x + y) % 3 == (x % 6 + y % 6) % 3
  {
    ModSix(x / 6 + y / 6, x % 6 + y % 6);
  }

  lemma ProductMod(a: nat, u: nat, b: nat, v: nat)
    ensures ((6 * a + u) * (6 * b + v)) % 2 == (u * v) % 2
    ensures ((6 * a + u) * (6 * b + v)) % 3 == (u * v) % 3
  {
    var k := a * (6 * b + v) + b * u;
    assert (6 * a + u) * (6 * b + v) == 6 * k + u * v;
    ModSix(k, u * v);
  }

  lemma ModSix(k: int, w: int)
    ensures (6 * k + w) % 2 == w % 2 && (6 * k + w) % 3 == w % 3
  {
    ModTwo(3 * k, w);
    ModThree(2 * k, w);
  }

  lemma ModTwo(k: int, w: int)
    ensures (2 * k + w) % 2 == w % 2
  {
  }

  lemma ModThree(k: int, w: int)
    ensures (3 * k + w) % 3 == w % 3
  {
  }

  // ----- the reader

  /** The symbol with the mask taken off: outside the function modules, what the pattern inverts is inverted back. */
  function Unmask(g: Grid, isFunction: Grid, size: nat, mask: nat): (r: Grid)
    requires IsSquare(g, size) && IsSquare(isFunction, size) && mask < 8
    ensures IsSquare(r, size)
  {
    seq(size, y requires 0 <= y < size => seq(size, x requires 0 <= x < size =>
      if Inverts(mask, x, y) && !isFunction[y][x] then !g[y][x] else g[y][x]))
  }

  lemma UnmaskIsMasked(g: Grid, isFunction: Grid, size: nat, mask: nat)
    requires IsSquare(g, size) && IsSquare(isFunction, size) && mask < 8
    ensures Unmask(g, isFunction, size, mask) == Masked(g, isFunction, size, mask)
  {
    hide MaskBit, Inverts;
    var (a, b) := (Unmask(g, isFunction, size, mask), Masked(g, isFunction, size, mask));
    forall y, x | 0 <= y < size && 0 <= x < size ensures a[y][x] == b[y][x] {
      PatternIsMask(mask, x, y);
    }
    forall y | 0 <= y < size ensures a[y] == b[y] {
    }
  }
}
