/** The mask penalty: section 7.8.3 of ISO/IEC 18004:2015 without its finder-like term. */
module QrPenalty {
  import opened QrGrid

  // ---- one line ----

  /** Five equal cells starting at i. */
  predicate Window(s: seq<Bit>, i: int) {
    0 <= i && i + 5 <= |s| && s[i] == s[i + 1] == s[i + 2] == s[i + 3] == s[i + 4]
  }

  predicate RunStart(s: seq<Bit>, i: int) {
    0 <= i < |s| && (i == 0 || s[i - 1] != s[i])
  }

  /** Every window of five equal cells costs 1, and 3 when a run starts there. */
  function LineCost(s: seq<Bit>, k: nat): nat {
    if k < 5 then 0
    else LineCost(s, k - 1) + (if !Window(s, k - 5) then 0 else if RunStart(s, k - 5) then 3 else 1)
  }

  ghost predicate MaximalRun(s: seq<Bit>, a: int, b: int) {
    && 0 <= a < b <= |s| && RunStart(s, a) && (b == |s| || s[b] != s[b - 1])
    && forall i :: a <= i < b ==> s[i] == s[a]
  }

  /** A maximal run of length five or more costs 3 and one more for each further
      cell; a shorter one costs nothing. */
  lemma {:induction false} RunCost(s: seq<Bit>, a: nat, b: nat)
    requires MaximalRun(s, a, b)
    ensures LineCost(s, b) - LineCost(s, a) == if b - a >= 5 then 3 + (b - a - 5) else 0
  {
    RunCostUpTo(s, a, b, b);
  }

  lemma {:induction false} RunCostUpTo(s: seq<Bit>, a: nat, b: nat, k: nat)
    requires MaximalRun(s, a, b) && a <= k <= b
    ensures LineCost(s, k) - LineCost(s, a) == if k - a >= 5 then 3 + (k - a - 5) else 0
    decreases k
  {
    if k > a {
      RunCostUpTo(s, a, b, k - 1);
      if a > 0 && k < a + 5 && k >= 5 {
        NoWindowAcross(s, k - 5, a);
      }
    }
  }

  lemma NoWindowAcross(s: seq<Bit>, i: int, j: int)
    requires i < j < i + 5 && 0 < j < |s| && s[j - 1] != s[j]
    ensures !Window(s, i)
  {
  }

  function RunEnd(s: seq<Bit>, a: nat, b: nat): (end: nat)
    requires a < b <= |s| && forall i :: a <= i < b ==> s[i] == s[a]
    ensures b <= end <= |s| && (forall i :: a <= i < end ==> s[i] == s[a]) && (end == |s| || s[end] != s[end - 1])
    decreases |s| - b
  {
    if b < |s| && s[b] == s[a] then RunEnd(s, a, b + 1) else b
  }

  /** The maximal runs of a line from a on, each at 3 and one more for each cell past the fifth. */
  function RunTotal(s: seq<Bit>, a: nat): nat
    requires a <= |s|
    decreases |s| - a
  {
    if a == |s| then 0
    else
      var b := RunEnd(s, a, a + 1);
      (if b - a >= 5 then 3 + (b - a - 5) else 0) + RunTotal(s, b)
  }

  /** The cost of a line is the sum over its maximal runs. */
  lemma {:induction false} LineIsSumOfRuns(s: seq<Bit>, a: nat)
    requires a <= |s| && (a == |s| || RunStart(s, a))
    ensures LineCost(s, |s|) == LineCost(s, a) + RunTotal(s, a)
    decreases |s| - a
  {
    hide LineCost;
    if a < |s| {
      var b := RunEnd(s, a, a + 1);
      RunCost(s, a, b);
      LineIsSumOfRuns(s, b);
    }
  }

  /** The run ending just before k, as the loop counts it. */
  ghost predicate Run(s: seq<Bit>, k: int, run: int) {
    && 1 <= run <= k <= |s|
    && RunStart(s, k - run)
    && forall i :: k - run <= i < k ==> s[i] == s[k - 1]
  }

  function Pending(run: int): int {
    if run >= 5 then 3 + (run - 5) else 0
  }

  lemma RunGrows(s: seq<Bit>, k: nat, run: int)
    requires Run(s, k, run) && k < |s| && s[k] == s[k - 1]
    ensures Run(s, k + 1, run + 1)
    ensures LineCost(s, k + 1) - Pending(run + 1) == LineCost(s, k) - Pending(run)
  {
    if k + 1 >= 5 {
      var i := k - 4;
      if run + 1 < 5 {
        NoWindowAcross(s, i, k - run);
      } else {
        assert Window(s, i);
      }
    }
  }

  lemma RunBreaks(s: seq<Bit>, k: nat)
    requires 1 <= k < |s| && s[k] != s[k - 1]
    ensures Run(s, k + 1, 1)
    ensures LineCost(s, k + 1) == LineCost(s, k)
  {
  }

  // ---- the whole grid ----

  function Row(g: Grid, n: nat, r: nat): (s: seq<Bit>)
    requires r < n && g.Keys == Cells(n)
    ensures |s| == n
  {
    seq(n, c requires 0 <= c < n => g[Pos(r, c)])
  }

  function Column(g: Grid, n: nat, c: nat): (s: seq<Bit>)
    requires c < n && g.Keys == Cells(n)
    ensures |s| == n
  {
    seq(n, r requires 0 <= r < n => g[Pos(r, c)])
  }

  function RowCost(g: Grid, n: nat, k: nat): nat
    requires k <= n && g.Keys == Cells(n)
  {
    if k == 0 then 0 else RowCost(g, n, k - 1) + LineCost(Row(g, n, k - 1), n)
  }

  function ColumnCost(g: Grid, n: nat, k: nat): nat
    requires k <= n && g.Keys == Cells(n)
  {
    if k == 0 then 0 else ColumnCost(g, n, k - 1) + LineCost(Column(g, n, k - 1), n)
  }

  predicate Block(g: Grid, n: nat, p: Pos)
    requires g.Keys == Cells(n)
  {
    && 0 <= p.r < n - 1 && 0 <= p.c < n - 1
    && g[p] == g[Pos(p.r, p.c + 1)] == g[Pos(p.r + 1, p.c)] == g[Pos(p.r + 1, p.c + 1)]
  }

  ghost function Blocks(g: Grid, n: nat): set<Pos>
    requires g.Keys == Cells(n)
  {
    set p | p in Cells(n) && Block(g, n, p)
  }

  ghost function Dark(g: Grid, n: nat): set<Pos>
    requires g.Keys == Cells(n)
  {
    set p | p in Cells(n) && g[p] == 1
  }

  function Balance(dark: nat, n: nat): nat
    requires n > 0
  {
    var percent := dark * 100 / (n * n);
    (if percent >= 50 then percent - 50 else 50 - percent) / 5 * 10
  }

  /** Ten for every full five percent between one half and the dark share, cut to whole percents. */
  lemma BalanceIs(dark: nat, n: nat, percent: nat, steps: nat)
    requires n > 0 && percent * (n * n) <= 100 * dark < (percent + 1) * (n * n)
    requires 5 * steps <= (if percent >= 50 then percent - 50 else 50 - percent) < 5 * steps + 5
    ensures Balance(dark, n) == 10 * steps
  {
    WholePercent(dark * 100, n * n, percent);
    FullFives(if percent >= 50 then percent - 50 else 50 - percent, steps);
  }

  lemma FullFives(d: nat, steps: nat)
    requires 5 * steps <= d < 5 * steps + 5
    ensures d / 5 * 10 == 10 * steps
  {
  }

  lemma WholePercent(x: nat, area: nat, percent: nat)
    requires area > 0 && percent * area <= x < (percent + 1) * area
    ensures x / area == percent
  {
    var q, r := x / area, x % area;
    assert x == area * q + r;
    if q < percent {
      MoreIsMore(area, q + 1, percent);
    }
    if q > percent {
      MoreIsMore(area, percent + 1, q);
    }
  }

  /** Runs in rows and columns, 3 for each one-coloured 2x2 block, and 10 for every
      full 5 percent the dark share is away from one half. */
  ghost function Cost(g: Grid, n: nat): nat
    requires n > 0 && g.Keys == Cells(n)
  {
    RowCost(g, n, n) + ColumnCost(g, n, n) + 3 * |Blocks(g, n)| + Balance(|Dark(g, n)|, n)
  }

  /** The maximal runs of several lines. */
  function RunsTotal(lines: seq<seq<Bit>>): nat {
    if lines == [] then 0 else RunsTotal(lines[..|lines| - 1]) + RunTotal(lines[|lines| - 1], 0)
  }

  lemma RunsTotalPush(lines: seq<seq<Bit>>, line: seq<Bit>)
    ensures RunsTotal(lines + [line]) == RunsTotal(lines) + LineCost(line, |line|)
  {
    hide LineCost, RunTotal;
    assert (lines + [line])[..|lines|] == lines;
    LineIsSumOfRuns(line, 0);
    NoCost(line);
  }

  lemma NoCost(line: seq<Bit>)
    ensures LineCost(line, 0) == 0
  {
  }

  ghost function Rows(g: Grid, n: nat, k: nat): seq<seq<Bit>>
    requires k <= n && g.Keys == Cells(n)
  {
    seq(k, r requires 0 <= r < k => seq(n, c requires 0 <= c < n => g[Pos(r, c)]))
  }

  ghost function Columns(g: Grid, n: nat, k: nat): seq<seq<Bit>>
    requires k <= n && g.Keys == Cells(n)
  {
    seq(k, c requires 0 <= c < k => seq(n, r requires 0 <= r < n => g[Pos(r, c)]))
  }

  lemma NextLines(g: Grid, n: nat, k: nat)
    requires k <= n && g.Keys == Cells(n)
    ensures if k == 0 then Rows(g, n, k) == Columns(g, n, k) == [] && RunsTotal([]) == 0
            else Rows(g, n, k) == Rows(g, n, k - 1) + [Row(g, n, k - 1)]
                 && Columns(g, n, k) == Columns(g, n, k - 1) + [Column(g, n, k - 1)]
  {
  }

  lemma {:induction false} RowCostIs(g: Grid, n: nat, k: nat)
    requires k <= n && g.Keys == Cells(n)
    ensures RowCost(g, n, k) == RunsTotal(Rows(g, n, k))
  {
    hide LineCost, RunsTotal, Rows, Row;
    NextLines(g, n, k);
    if k > 0 {
      RowCostIs(g, n, k - 1);
      RunsTotalPush(Rows(g, n, k - 1), Row(g, n, k - 1));
    }
  }

  lemma {:induction false} ColumnCostIs(g: Grid, n: nat, k: nat)
    requires k <= n && g.Keys == Cells(n)
    ensures ColumnCost(g, n, k) == RunsTotal(Columns(g, n, k))
  {
    hide LineCost, RunsTotal, Columns, Column;
    NextLines(g, n, k);
    if k > 0 {
      ColumnCostIs(g, n, k - 1);
      RunsTotalPush(Columns(g, n, k - 1), Column(g, n, k - 1));
    }
  }

  /** The cost of a grid: its maximal runs in all rows and in all columns, three for every block of two by
      two cells of one colour, and the balance of its dark cells. */
  lemma CostIs(g: Grid, n: nat)
    requires n > 0 && g.Keys == Cells(n)
    ensures Cost(g, n) ==
            RunsTotal(seq(n, r requires 0 <= r < n => seq(n, c requires 0 <= c < n => g[Pos(r, c)])))
            + RunsTotal(seq(n, c requires 0 <= c < n => seq(n, r requires 0 <= r < n => g[Pos(r, c)])))
            + 3 * |set p | p in Cells(n - 1) && g[p] == g[Pos(p.r, p.c + 1)] == g[Pos(p.r + 1, p.c)] == g[Pos(p.r + 1, p.c + 1)]|
            + Balance(|set p | p in g && g[p] == 1|, n)
  {
    hide RowCost, ColumnCost, RunsTotal, Balance;
    RowCostIs(g, n, n);
    ColumnCostIs(g, n, n);
    assert Blocks(g, n) ==
           set p | p in Cells(n - 1) && g[p] == g[Pos(p.r, p.c + 1)] == g[Pos(p.r + 1, p.c)] == g[Pos(p.r + 1, p.c + 1)];
    assert Dark(g, n) == set p | p in g && g[p] == 1;
  }

  ghost predicate Filled(grid: array2<Cell>)
    reads grid
  {
    grid.Length0 == grid.Length1 > 0 && View(grid).Keys == Cells(grid.Length0)
  }

  function CellBit(grid: array2<Cell>, r: nat, c: nat): (b: Bit)
    requires Filled(grid) && r < grid.Length0 && c < grid.Length0
    reads grid
    ensures b == View(grid)[Pos(r, c)]
  {
    assert Pos(r, c) in View(grid);
    grid[r, c].bit
  }

  method RowRuns(grid: array2<Cell>, r: nat) returns (score: nat)
    requires Filled(grid) && r < grid.Length0
    ensures score == LineCost(Row(View(grid), grid.Length0, r), grid.Length0)
  {
    hide LineCost;
    var n := grid.Length0;
    ghost var s := Row(View(grid), n, r);
    score := 0;
    var run := 1;
    LineCostShort(s);
    for c := 1 to n
      invariant Run(s, c, run)
      invariant score + Pending(run) == LineCost(s, c)
    {
      assert s[c] == CellBit(grid, r, c) && s[c - 1] == CellBit(grid, r, c - 1);
      if CellBit(grid, r, c) == CellBit(grid, r, c - 1) {
        RunGrows(s, c, run);
        run := run + 1;
      } else {
        RunBreaks(s, c);
        if run >= 5 {
          score := score + 3 + (run - 5);
        }
        run := 1;
      }
    }
    if run >= 5 {
      score := score + 3 + (run - 5);
    }
  }

  method ColumnRuns(grid: array2<Cell>, c: nat) returns (score: nat)
    requires Filled(grid) && c < grid.Length0
    ensures score == LineCost(Column(View(grid), grid.Length0, c), grid.Length0)
  {
    hide LineCost;
    var n := grid.Length0;
    ghost var s := Column(View(grid), n, c);
    score := 0;
    var run := 1;
    LineCostShort(s);
    for r := 1 to n
      invariant Run(s, r, run)
      invariant score + Pending(run) == LineCost(s, r)
    {
      assert s[r] == CellBit(grid, r, c) && s[r - 1] == CellBit(grid, r - 1, c);
      if CellBit(grid, r, c) == CellBit(grid, r - 1, c) {
        RunGrows(s, r, run);
        run := run + 1;
      } else {
        RunBreaks(s, r);
        if run >= 5 {
          score := score + 3 + (run - 5);
        }
        run := 1;
      }
    }
    if run >= 5 {
      score := score + 3 + (run - 5);
    }
  }

  lemma LineCostShort(s: seq<Bit>)
    ensures LineCost(s, 1) == 0
  {
  }

  /** The members visited before (r, c) in reading order. */
  ghost function Seen(all: set<Pos>, r: int, c: int): set<Pos> {
    set p | p in all && (p.r < r || (p.r == r && p.c < c))
  }

  lemma SeenNext(all: set<Pos>, r: int, c: int)
    ensures |Seen(all, r, c + 1)| == |Seen(all, r, c)| + (if Pos(r, c) in all then 1 else 0)
  {
    if Pos(r, c) in all {
      assert Seen(all, r, c + 1) == Seen(all, r, c) + {Pos(r, c)};
    } else {
      assert Seen(all, r, c + 1) == Seen(all, r, c);
    }
  }

  lemma SeenRow(all: set<Pos>, r: int, n: int)
    requires forall p :: p in all ==> 0 <= p.r && 0 <= p.c < n
    ensures Seen(all, 0, 0) == {}
    ensures Seen(all, r, n) == Seen(all, r + 1, 0)
    ensures (forall p :: p in all ==> p.r < r) ==> Seen(all, r, 0) == all
  {
  }

  lemma BlocksInside(g: Grid, n: nat)
    requires g.Keys == Cells(n)
    ensures forall p :: p in Blocks(g, n) ==> 0 <= p.r < n - 1 && 0 <= p.c < n - 1
  {
  }

  lemma BlockAt(g: Grid, n: nat, r: nat, c: nat)
    requires g.Keys == Cells(n) && r < n - 1 && c < n - 1
    ensures Pos(r, c) in Blocks(g, n) <==> g[Pos(r, c)] == g[Pos(r, c + 1)] == g[Pos(r + 1, c)] == g[Pos(r + 1, c + 1)]
  {
  }

  method CountBlocks(grid: array2<Cell>) returns (count: nat)
    requires Filled(grid)
    ensures count == |Blocks(View(grid), grid.Length0)|
  {
    hide Seen, View, Blocks, Block;
    BlocksInside(View(grid), grid.Length0);
    var n := grid.Length0;
    ghost var all := Blocks(View(grid), n);
    count := 0;
    SeenRow(all, 0, n - 1);
    for r := 0 to n - 1
      invariant count == |Seen(all, r, 0)|
    {
      for c := 0 to n - 1
        invariant count == |Seen(all, r, c)|
      {
        SeenNext(all, r, c);
        BlockAt(View(grid), n, r, c);
        var v := CellBit(grid, r, c);
        if v == CellBit(grid, r, c + 1) == CellBit(grid, r + 1, c) == CellBit(grid, r + 1, c + 1) {
          count := count + 1;
        }
      }
      SeenRow(all, r, n - 1);
    }
    SeenRow(all, n - 1, n - 1);
  }

  method CountDark(grid: array2<Cell>) returns (count: nat)
    requires Filled(grid)
    ensures count == |Dark(View(grid), grid.Length0)|
  {
    hide Seen, View;
    var n := grid.Length0;
    ghost var all := Dark(View(grid), n);
    count := 0;
    SeenRow(all, 0, n);
    for r := 0 to n
      invariant count == |Seen(all, r, 0)|
    {
      for c := 0 to n
        invariant count == |Seen(all, r, c)|
      {
        SeenNext(all, r, c);
        count := count + CellBit(grid, r, c);
      }
      SeenRow(all, r, n);
    }
    SeenRow(all, n, n);
  }

  method Penalty(grid: array2<Cell>) returns (score: nat)
    requires Filled(grid)
    ensures score == Cost(View(grid), grid.Length0)
  {
    hide LineCost, Row, Column, Blocks, Dark;
    var n := grid.Length0;
    score := 0;
    for r := 0 to n
      invariant score == RowCost(View(grid), n, r)
    {
      var cost := RowRuns(grid, r);
      score := score + cost;
    }
    ghost var rows := score;
    for c := 0 to n
      invariant score == rows + ColumnCost(View(grid), n, c)
    {
      var cost := ColumnRuns(grid, c);
      score := score + cost;
    }
    var blocks := CountBlocks(grid);
    score := score + 3 * blocks;
    var dark := CountDark(grid);
    score := score + Balance(dark, n);
  }
}
