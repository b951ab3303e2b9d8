/** The penalty score of a symbol: what it measures, and the run automaton that computes it. */
module Penalty {
  import opened Zigzag

  const PENALTY_N1: int := 3
  const PENALTY_N2: int := 3
  const PENALTY_N3: int := 40
  const PENALTY_N4: int := 10

  // ----- runs

  /** The lengths of the runs of a line, light and dark in turn; the first, light one may be empty. */
  function Runs(line: seq<bool>): (r: seq<nat>)
    ensures |r| > 0
  {
    if |line| == 0 then [0] else Extend(Runs(line[..|line| - 1]), line[|line| - 1])
  }

  /** The runs after one more module. */
  function Extend(r: seq<nat>, dark: bool): (q: seq<nat>)
    requires |r| > 0
    ensures |q| > 0
  {
    if dark == LastColor(r) then r[|r| - 1 := r[|r| - 1] + 1] else r + [1]
  }

  predicate LastColor(r: seq<nat>) {
    |r| % 2 == 0
  }

  function Repeat(color: bool, n: nat): seq<bool> {
    seq(n, _ => color)
  }

  /** The line that runs describe. */
  function Expand(r: seq<nat>): seq<bool> {
    if |r| == 0 then [] else Expand(r[..|r| - 1]) + Repeat(|r| % 2 == 0, r[|r| - 1])
  }

  /** Only the first run may be empty. */
  predicate Maximal(r: seq<nat>) {
    |r| > 0 && forall k :: 0 < k < |r| ==> r[k] > 0
  }

  lemma ExpandGrow(r: seq<nat>)
    requires |r| > 0
    ensures Expand(r[|r| - 1 := r[|r| - 1] + 1]) == Expand(r) + [LastColor(r)]
  {
    var n := |r| - 1;
    var q := r[n := r[n] + 1];
    assert q[..n] == r[..n];
    assert Repeat(LastColor(r), r[n] + 1) == Repeat(LastColor(r), r[n]) + [LastColor(r)];
  }

  lemma ExpandNext(r: seq<nat>)
    requires |r| > 0
    ensures Expand(r + [1]) == Expand(r) + [!LastColor(r)]
  {
    hide Expand, Repeat;
    ExpandSnoc(r, 1);
    RepeatOne((|r| + 1) % 2 == 0);
  }

  lemma ExpandSnoc(r: seq<nat>, n: nat)
    ensures Expand(r + [n]) == Expand(r) + Repeat((|r| + 1) % 2 == 0, n)
  {
    hide Repeat;
    assert (r + [n])[..|r|] == r;
  }

  lemma RepeatOne(color: bool)
    ensures Repeat(color, 1) == [color]
  {
  }

  lemma RunsSnoc(line: seq<bool>, b: bool)
    ensures Runs(line + [b]) == Extend(Runs(line), b)
  {
    hide Extend;
    var q := line + [b];
    assert q[..|q| - 1] == line && q[|q| - 1] == b;
  }

  lemma {:induction false} RunsExpand(line: seq<bool>)
    ensures Maximal(Runs(line)) && Expand(Runs(line)) == line
  {
    hide Expand;
    if |line| == 0 {
      ExpandEmpty();
    } else {
      var (front, b) := (line[..|line| - 1], line[|line| - 1]);
      RunsExpand(front);
      ExpandGrow(Runs(front));
      ExpandNext(Runs(front));
      assert line == front + [b];
    }
  }

  lemma ExpandEmpty()
    ensures Expand([0]) == []
  {
    assert [0][..0] == [];
  }

  /** The run lengths are the only maximal ones that describe the line. */
  lemma {:induction false} RunsUnique(r: seq<nat>)
    requires Maximal(r)
    ensures Runs(Expand(r)) == r
    decreases |r|, if |r| > 0 then r[|r| - 1] else 0
  {
    hide Expand, Runs;
    var n := |r| - 1;
    if r[n] == 0 {
      assert r == [0];
      ExpandEmpty();
      RunsEmpty();
    } else if r[n] == 1 && n > 0 {
      var q := r[..n];
      RunsUnique(q);
      ExpandNext(q);
      RunsSnoc(Expand(q), !LastColor(q));
      assert r == q + [1];
    } else {
      var q := r[n := r[n] - 1];
      RunsUnique(q);
      ExpandGrow(q);
      RunsSnoc(Expand(q), LastColor(q));
      assert r == q[n := q[n] + 1];
    }
  }

  lemma RunsEmpty()
    ensures Runs([]) == [0]
  {
  }

  // ----- what the score measures

  /** A run of five modules costs 3, each further module 1. */
  function RunCost(n: nat): int {
    if n < 5 then 0 else PENALTY_N1 + (n - 5)
  }

  function RunCosts(r: seq<nat>): int {
    if |r| == 0 then 0 else RunCosts(r[..|r| - 1]) + RunCost(r[|r| - 1])
  }

  /** The line between two light borders as wide as the symbol. */
  function Bordered(line: seq<bool>, size: nat): seq<bool> {
    Repeat(false, size) + line + Repeat(false, size)
  }

  /** Runs k, ..., k + 4 are dark-light-dark-light-dark in the ratio 1:1:3:1:1. */
  predicate IsCore(r: seq<nat>, k: nat)
    requires 0 < k && k + 5 < |r|
  {
    var n := r[k];
    n > 0 && r[k + 1] == n && r[k + 2] == 3 * n && r[k + 3] == n && r[k + 4] == n
  }

  /** How often the core at run k has four units of light on one side and one unit on the other. */
  function FindersAt(r: seq<nat>, k: nat): int
    requires 0 < k && k + 5 < |r|
  {
    if !IsCore(r, k) then 0
    else
      (if r[k - 1] >= 4 * r[k] && r[k + 5] >= r[k] then 1 else 0)
      + (if r[k + 5] >= 4 * r[k] && r[k - 1] >= r[k] then 1 else 0)
  }

  /** The finder-like patterns whose last light run has an index below `end`. */
  function Finders(r: seq<nat>, end: nat): int
    requires end <= |r|
  {
    if end < 7 then 0 else Finders(r, end - 1) + (if end % 2 == 1 then FindersAt(r, end - 6) else 0)
  }

  function LineFinders(line: seq<bool>, size: nat): int {
    var r := Runs(Bordered(line, size));
    Finders(r, |r|)
  }

  function LinePenalty(line: seq<bool>): int {
    RunCosts(Runs(line)) + LineFinders(line, |line|) * PENALTY_N3
  }

  // ----- the automaton

  /** `finderPenaltyAddHistory`: the new history. */
  function AddedHistory(h: seq<nat>, runLength: nat, size: nat): (r: seq<nat>)
    requires |h| == 7
    ensures |r| == 7
  {
    [runLength + (if h[0] == 0 then size else 0)] + h[..6]
  }

  /** The last seven finished runs, latest first, with zeros where there were fewer. */
  predicate IsHistory(h: seq<nat>, done: seq<nat>) {
    |h| == 7 && forall k :: 0 <= k < 7 ==> h[k] == if k < |done| then done[|done| - 1 - k] else 0
  }

  /** `finderPenaltyCountPatterns` */
  function CountPatterns(h: seq<nat>): int
    requires |h| == 7
  {
    var n := h[1];
    var core := n > 0 && h[2] == n && h[3] == n * 3 && h[4] == n && h[5] == n;
    (if core && h[0] >= n * 4 && h[6] >= n then 1 else 0) + (if core && h[6] >= n * 4 && h[0] >= n then 1 else 0)
  }

  /** On a history of finished runs the count is that of the pattern that the last light run ends. */
  lemma CountIsFindersAt(h: seq<nat>, done: seq<nat>)
    requires IsHistory(h, done)
    ensures CountPatterns(h) == if |done| >= 7 then FindersAt(done, |done| - 6) else 0
  {
  }

  lemma {:induction false} FindersPrefix(r: seq<nat>, q: seq<nat>, end: nat)
    requires end <= |r| && r <= q
    ensures Finders(r, end) == Finders(q, end)
  {
    if end >= 7 {
      FindersPrefix(r, q, end - 1);
    }
  }

  // ----- borders and runs

  lemma {:induction false} RunsOfLight(n: nat)
    ensures Runs(Repeat(false, n)) == [n]
  {
    if n > 0 {
      RunsOfLight(n - 1);
      assert Repeat(false, n) == Repeat(false, n - 1) + [false];
      RunsSnoc(Repeat(false, n - 1), false);
    }
  }

  /** A light border in front lengthens the first run. */
  lemma {:induction false} FrontBorder(line: seq<bool>, size: nat)
    ensures Runs(Repeat(false, size) + line) == Runs(line)[0 := Runs(line)[0] + size]
  {
    hide Repeat, Runs;
    if |line| == 0 {
      assert Repeat(false, size) + line == Repeat(false, size);
      RunsOfLight(size);
      RunsEmpty();
    } else {
      var (front, b) := (line[..|line| - 1], line[|line| - 1]);
      FrontBorder(front, size);
      assert line == front + [b];
      assert Repeat(false, size) + line == (Repeat(false, size) + front) + [b];
      RunsSnoc(front, b);
      RunsSnoc(Repeat(false, size) + front, b);
    }
  }

  function WithBackBorder(r: seq<nat>, size: nat): seq<nat>
    requires |r| > 0
  {
    if LastColor(r) then r + [size] else r[|r| - 1 := r[|r| - 1] + size]
  }

  lemma {:induction false} BackBorder(line: seq<bool>, size: nat)
    requires size > 0
    ensures Runs(line + Repeat(false, size)) == WithBackBorder(Runs(line), size)
  {
    hide Runs;
    if size == 1 {
      RepeatOne(false);
      RunsSnoc(line, false);
    } else {
      BackBorder(line, size - 1);
      assert line + Repeat(false, size) == (line + Repeat(false, size - 1)) + [false];
      RunsSnoc(line + Repeat(false, size - 1), false);
    }
  }

  lemma {:induction false} RunBound(line: seq<bool>, k: nat)
    requires k < |Runs(line)|
    ensures Runs(line)[k] <= |line|
  {
    if |line| > 0 {
      var r := Runs(line[..|line| - 1]);
      if k < |r| { RunBound(line[..|line| - 1], k); }
    }
  }

  // ----- the methods

  /** Shifts the history by one place and puts the finished run in front, with the border if it is the first. */
  method FinderPenaltyAddHistory(currentRunLength: nat, runHistory: array<nat>, size: nat)
    requires runHistory.Length == 7
    modifies runHistory
    ensures runHistory[..] == AddedHistory(old(runHistory[..]), currentRunLength, size)
  {
    var length := currentRunLength;
    if runHistory[0] == 0 {
      length := length + size;
    }
    var k := 6;
    while k > 0
      invariant 0 <= k <= 6
      invariant forall m :: 0 <= m <= k ==> runHistory[m] == old(runHistory[m])
      invariant forall m :: k < m < 7 ==> runHistory[m] == old(runHistory[m - 1])
    {
      runHistory[k] := runHistory[k - 1];
      k := k - 1;
    }
    runHistory[0] := length;
  }

  method FinderPenaltyCountPatterns(runHistory: array<nat>, size: nat) returns (count: int)
    requires runHistory.Length == 7 && runHistory[1] <= size * 3
    ensures count == CountPatterns(runHistory[..])
  {
    var n := runHistory[1];
    assert n <= size * 3;
    var core := n > 0 && runHistory[2] == n && runHistory[3] == n * 3 && runHistory[4] == n && runHistory[5] == n;
    count := (if core && runHistory[0] >= n * 4 && runHistory[6] >= n then 1 else 0)
      + (if core && runHistory[6] >= n * 4 && runHistory[0] >= n then 1 else 0);
  }

  /** Adding a finished run to a history of finished runs; the first one gets the border. */
  lemma HistoryStep(h: seq<nat>, done: seq<nat>, run: nat, size: nat)
    requires IsHistory(h, done) && (forall k :: 0 <= k < |done| ==> done[k] > 0)
    ensures IsHistory(AddedHistory(h, run, size), done + [if |done| == 0 then run + size else run])
  {
  }

  lemma NextColor(r: seq<nat>, n: nat)
    ensures LastColor(r + [n]) == !LastColor(r)
  {
  }

  lemma SameColor(r: seq<nat>, q: seq<nat>)
    requires |r| == |q|
    ensures LastColor(r) == LastColor(q)
  {
  }

  lemma FindersLast(r: seq<nat>)
    requires |r| > 0
    ensures Finders(r, |r|) == Finders(r, |r| - 1) + if |r| >= 7 && !LastColor(r) then FindersAt(r, |r| - 6) else 0
  {
  }

  lemma RunCostsSnoc(r: seq<nat>, n: nat)
    ensures RunCosts(r + [n]) == RunCosts(r) + RunCost(n)
  {
    assert (r + [n])[..|r|] == r;
  }

  /** The history holds the finished runs of b, and the score counts the finder-like patterns among them. */
  ghost predicate Counted(b: seq<nat>, h: seq<nat>, count: int) {
    && Maximal(b) && b[0] > 0
    && |h| == 7 && IsHistory(h, b[..|b| - 1])
    && count == Finders(b, |b| - 1)
  }

  /** Finishing the last run of b and starting another one. */
  lemma CountedNext(b: seq<nat>, h: seq<nat>, count: int, run: nat, size: nat, next: nat)
    requires Counted(b, h, count) && next > 0
    requires b[|b| - 1] == if |b| == 1 then run + size else run
    ensures var h' := AddedHistory(h, run, size);
      Counted(b + [next], h', count + if LastColor(b) then 0 else CountPatterns(h'))
  {
    hide Finders, FindersAt, CountPatterns, AddedHistory, LastColor, IsHistory;
    var n := |b| - 1;
    var (q, h') := (b + [next], AddedHistory(h, run, size));
    assert b == b[..n] + [b[n]] && q[..|q| - 1] == b;
    HistoryStep(h, b[..n], run, size);
    CountIsFindersAt(h', b);
    FindersLast(b);
    FindersPrefix(b, q, |b|);
  }

  /** Finishing the last, light run of b. */
  lemma CountedEnd(b: seq<nat>, h: seq<nat>, count: int, run: nat, size: nat)
    requires Counted(b, h, count) && !LastColor(b)
    requires b[|b| - 1] == if |b| == 1 then run + size else run
    ensures count + CountPatterns(AddedHistory(h, run, size)) == Finders(b, |b|)
  {
    hide Finders, FindersAt, CountPatterns, AddedHistory, LastColor, IsHistory;
    var n := |b| - 1;
    assert b == b[..n] + [b[n]];
    HistoryStep(h, b[..n], run, size);
    CountIsFindersAt(AddedHistory(h, run, size), b);
    FindersLast(b);
  }

  /** Lengthening the last run leaves the finished ones alone. */
  lemma CountedSame(b: seq<nat>, h: seq<nat>, count: int, more: nat)
    requires Counted(b, h, count)
    ensures Counted(b[|b| - 1 := b[|b| - 1] + more], h, count)
  {
    hide Finders, IsHistory;
    var n := |b| - 1;
    var q := b[n := b[n] + more];
    assert q[..n] == b[..n];
    FindersPrefix(b[..n], b, n);
    FindersPrefix(b[..n], q, n);
  }

  /** The second entry of the next history is a run of the line. */
  lemma SecondEntry(line: seq<bool>, h: seq<nat>, count: int, run: nat, size: nat)
    requires Counted(Runs(line), h, count)
    ensures AddedHistory(h, run, size)[1] <= |line|
  {
    hide Runs;
    var n := |Runs(line)| - 1;
    if n > 0 { RunBound(line, n - 1); }
  }

  // ----- the scan of a line

  function FrontBordered(line: seq<bool>, size: nat): (b: seq<bool>)
    ensures |b| == size + |line|
  {
    Repeat(false, size) + line
  }

  /** The state of the scan after the modules of `seen`, part of a line of `size` modules. */
  ghost predicate ScanState(seen: seq<bool>, size: nat, color: bool, run: nat, h: seq<nat>, runCosts: int,
      finders: int) {
    var r := Runs(seen);
    && color == LastColor(r) && run == r[|r| - 1] && runCosts == RunCosts(r)
    && Runs(FrontBordered(seen, size)) == r[0 := r[0] + size]
    && Counted(Runs(FrontBordered(seen, size)), h, finders)
  }

  lemma ScanStart(size: nat)
    requires size > 0
    ensures ScanState([], size, false, 0, [0, 0, 0, 0, 0, 0, 0], 0, 0)
  {
    FrontBorder([], size);
    assert RunCosts([0]) == 0 by { assert [0][..0] == []; }
  }

  lemma ScanSame(seen: seq<bool>, size: nat, color: bool, run: nat, h: seq<nat>, runCosts: int, finders: int)
    requires ScanState(seen, size, color, run, h, runCosts, finders)
    ensures ScanState(seen + [color], size, color, run + 1, h, runCosts + RunCost(run + 1) - RunCost(run), finders)
  {
    hide Runs, Counted, Repeat, RunCosts, RunCost, LastColor;
    var (r, b) := (Runs(seen), Runs(FrontBordered(seen, size)));
    var n := |r| - 1;
    var q := r[n := r[n] + 1];
    SameColor(r, q);
    RunsSnoc(seen, color);
    FrontBorder(seen + [color], size);
    CountedSame(b, h, finders, 1);
    assert b[n := b[n] + 1] == q[0 := q[0] + size];
    assert r == r[..n] + [r[n]] && q == r[..n] + [q[n]];
    RunCostsSnoc(r[..n], r[n]);
    RunCostsSnoc(r[..n], q[n]);
  }

  lemma ScanChange(seen: seq<bool>, size: nat, color: bool, run: nat, h: seq<nat>, runCosts: int, finders: int)
    requires ScanState(seen, size, color, run, h, runCosts, finders)
    ensures var h' := AddedHistory(h, run, size);
      && ScanState(seen + [!color], size, !color, 1, h', runCosts, finders + if color then 0 else CountPatterns(h'))
      && h'[1] <= size + |seen|
  {
    hide Runs, Counted, Repeat, LastColor, AddedHistory, RunCosts, CountPatterns;
    var (r, b) := (Runs(seen), Runs(FrontBordered(seen, size)));
    RunsSnoc(seen, !color);
    FrontBorder(seen + [!color], size);
    SameColor(r, b);
    NextColor(r, 1);
    CountedNext(b, h, finders, run, size, 1);
    assert b + [1] == (r + [1])[0 := r[0] + size];
    RunCostsSnoc(r, 1);
    SecondEntry(FrontBordered(seen, size), h, finders, run, size);
  }

  lemma BorderedRuns(line: seq<bool>, size: nat)
    requires size > 0
    ensures Runs(Bordered(line, size)) == WithBackBorder(Runs(FrontBordered(line, size)), size)
  {
    hide Runs, Repeat;
    BackBorder(FrontBordered(line, size), size);
  }

  /** The score of a line that ends in a dark run ... */
  lemma ScanEndDark(line: seq<bool>, size: nat, run: nat, h: seq<nat>, runCosts: int, finders: int)
    requires size > 0 && ScanState(line, size, true, run, h, runCosts, finders)
    ensures var h2 := AddedHistory(AddedHistory(h, run, size), size, size);
      finders + CountPatterns(h2) == LineFinders(line, size) && h2[1] <= size + |line|
  {
    hide Runs, Repeat, LastColor, AddedHistory, RunCosts, CountPatterns, Finders, Bordered, IsHistory;
    var b := Runs(FrontBordered(line, size));
    var h1 := AddedHistory(h, run, size);
    SameColor(Runs(line), b);
    NextColor(b, size);
    BorderedRuns(line, size);
    CountedNext(b, h, finders, run, size, size);
    CountedEnd(b + [size], h1, finders, size, size);
    DarkSecondEntry(b, h1, finders, size);
    RunBound(FrontBordered(line, size), |b| - 1);
  }

  lemma DarkSecondEntry(b: seq<nat>, h1: seq<nat>, count: int, size: nat)
    requires |b| > 0 && Counted(b + [size], h1, count)
    ensures AddedHistory(h1, size, size)[1] == b[|b| - 1]
  {
    assert (b + [size])[..|b|] == b;
  }

  /** ... and of one that ends in a light run, which the border lengthens. */
  lemma ScanEndLight(line: seq<bool>, size: nat, run: nat, h: seq<nat>, runCosts: int, finders: int)
    requires size > 0 && ScanState(line, size, false, run, h, runCosts, finders)
    ensures var h2 := AddedHistory(h, run + size, size);
      finders + CountPatterns(h2) == LineFinders(line, size) && h2[1] <= size + |line|
  {
    hide Runs, Repeat, LastColor, AddedHistory, RunCosts, CountPatterns, Finders, Bordered, Counted;
    var b := Runs(FrontBordered(line, size));
    var q := b[|b| - 1 := b[|b| - 1] + size];
    SameColor(Runs(line), b);
    SameColor(b, q);
    BorderedRuns(line, size);
    CountedSame(b, h, finders, size);
    CountedEnd(q, h, finders, run + size, size);
    SecondEntry(FrontBordered(line, size), h, finders, run + size, size);
  }

  /** `finderPenaltyTerminateAndCount`: ends the line with a light border. */
  method FinderPenaltyTerminateAndCount(currentRunColor: bool, currentRunLength: nat, runHistory: array<nat>, size: nat,
      ghost line: seq<bool>, ghost runCosts: int, ghost finders: int)
    returns (count: int)
    requires runHistory.Length == 7 && |line| == size > 0
    requires ScanState(line, size, currentRunColor, currentRunLength, runHistory[..], runCosts, finders)
    modifies runHistory
    ensures finders + count == LineFinders(line, size) && runCosts == RunCosts(Runs(line))
  {
    hide CountPatterns, AddedHistory, LineFinders, Runs, RunCosts, Counted;
    if currentRunColor {
      ScanEndDark(line, size, currentRunLength, runHistory[..], runCosts, finders);
    } else {
      ScanEndLight(line, size, currentRunLength, runHistory[..], runCosts, finders);
    }
    var length := currentRunLength;
    if currentRunColor {
      FinderPenaltyAddHistory(length, runHistory, size);
      length := 0;
    }
    length := length + size;
    FinderPenaltyAddHistory(length, runHistory, size);
    count := FinderPenaltyCountPatterns(runHistory, size);
  }

  /** One line of the score: counts long runs and finder-like patterns while scanning the modules. */
  method ScanLine(line: seq<bool>) returns (result: int)
    requires |line| > 0
    ensures result == LinePenalty(line)
  {
    hide ScanState, CountPatterns, AddedHistory, LineFinders, Runs, RunCosts;
    var size := |line|;
    result := 0;
    var runColor := false;
    var run := 0;
    var runHistory := new nat[7](_ => 0);
    ghost var (runCosts, finders) := (0, 0);
    ScanStart(size);
    assert runHistory[..] == [0, 0, 0, 0, 0, 0, 0];
    for x := 0 to size
      invariant ScanState(line[..x], size, runColor, run, runHistory[..], runCosts, finders)
      invariant result == runCosts + finders * 40
    {
      assert line[..x + 1] == line[..x] + [line[x]];
      if line[x] == runColor {
        ScanSame(line[..x], size, runColor, run, runHistory[..], runCosts, finders);
        run := run + 1;
        if run == 5 {
          result := result + PENALTY_N1;
        } else if run > 5 {
          result := result + 1;
        }
        runCosts := runCosts + RunCost(run) - RunCost(run - 1);
      } else {
        ScanChange(line[..x], size, runColor, run, runHistory[..], runCosts, finders);
        FinderPenaltyAddHistory(run, runHistory, size);
        if !runColor {
          var count := FinderPenaltyCountPatterns(runHistory, size);
          result := result + count * PENALTY_N3;
          finders := finders + count;
        }
        runColor := line[x];
        run := 1;
      }
    }
    assert line[..size] == line;
    var count := FinderPenaltyTerminateAndCount(runColor, run, runHistory, size, line, runCosts, finders);
    result := result + count * PENALTY_N3;
  }
}
