/** The symbol's grid and the zigzag that fills it.  A grid maps the cells that
    are already set to their bits; a cell outside the map is still unset. */
module QrGrid {
  import QrPayload

  type Bit = QrPayload.Bit

  datatype Pos = Pos(r: int, c: int)

  type Grid = map<Pos, Bit>

  datatype Cell = Unset | Set(bit: Bit)

  function Cells(n: nat): (s: set<Pos>)
    ensures forall p :: p in s <==> 0 <= p.r < n && 0 <= p.c < n
  {
    set r, c | 0 <= r < n && 0 <= c < n :: Pos(r, c)
  }

  /** The abstract grid a square array stands for. */
  ghost function View(a: array2<Cell>): (g: Grid)
    requires a.Length0 == a.Length1
    reads a
    ensures forall p :: p in g <==> p in Cells(a.Length0) && a[p.r, p.c].Set?
    ensures forall p :: p in g ==> g[p] == a[p.r, p.c].bit
  {
    map p | p in Cells(a.Length0) && a[p.r, p.c].Set? :: a[p.r, p.c].bit
  }

  // ---- the zigzag order ----

  function RowPair(col: int, r: int): seq<Pos> {
    [Pos(r, col), Pos(r, col - 1)]
  }

  function Up(col: int, r: int): seq<Pos>
    requires r >= -1
    decreases r + 1
  {
    if r < 0 then [] else RowPair(col, r) + Up(col, r - 1)
  }

  function Down(col: int, r: nat, n: nat): seq<Pos>
    requires r <= n
    decreases n - r
  {
    if r == n then [] else RowPair(col, r) + Down(col, r + 1, n)
  }

  function SkipTiming(col: int): int {
    if col == 6 then 5 else col
  }

  function Strip(n: nat, col: int, upward: bool): seq<Pos> {
    if upward then Up(col, n - 1) else Down(col, 0, n)
  }

  function ZigzagFrom(n: nat, col: int, upward: bool): seq<Pos>
    requires col >= -1
    decreases col + 1
  {
    if col <= 0 then []
    else Strip(n, SkipTiming(col), upward) + ZigzagFrom(n, SkipTiming(col) - 2, !upward)
  }

  function Zigzag(n: nat): seq<Pos> {
    ZigzagFrom(n, n - 1, true)
  }

  ghost predicate NoRepeat(s: seq<Pos>) {
    forall i, j :: 0 <= i < j < |s| ==> s[i] != s[j]
  }

  lemma {:induction false} UpCells(col: int, r: int)
    requires r >= -1
    ensures NoRepeat(Up(col, r))
    ensures forall p :: p in Up(col, r) <==> 0 <= p.r <= r && col - 1 <= p.c <= col
    decreases r + 1
  {
    if r >= 0 {
      UpCells(col, r - 1);
      JoinNoRepeat(RowPair(col, r), Up(col, r - 1));
    }
  }

  lemma {:induction false} DownCells(col: int, r: nat, n: nat)
    requires r <= n
    ensures NoRepeat(Down(col, r, n))
    ensures forall p :: p in Down(col, r, n) <==> r <= p.r < n && col - 1 <= p.c <= col
    decreases n - r
  {
    if r < n {
      DownCells(col, r + 1, n);
      JoinNoRepeat(RowPair(col, r), Down(col, r + 1, n));
    }
  }

  lemma JoinNoRepeat(a: seq<Pos>, b: seq<Pos>)
    requires NoRepeat(a) && NoRepeat(b)
    requires forall p :: p in a ==> p !in b
    ensures NoRepeat(a + b)
  {
    forall i, j | 0 <= i < j < |a + b| ensures (a + b)[i] != (a + b)[j] {
      if i < |a| <= j {
        assert a[i] in a && b[j - |a|] in b;
      }
    }
  }

  lemma NothingRepeats()
    ensures NoRepeat([])
  {
  }

  lemma StripCells(n: nat, col: int, upward: bool)
    ensures NoRepeat(Strip(n, col, upward))
    ensures forall p :: p in Strip(n, col, upward) <==> 0 <= p.r < n && col - 1 <= p.c <= col
  {
    UpCells(col, n - 1);
    DownCells(col, 0, n);
  }

  lemma {:induction false} ZigzagFromCells(n: nat, col: int, upward: bool)
    requires col >= -1 && (if col < 6 then col % 2 == 1 else col % 2 == 0)
    ensures NoRepeat(ZigzagFrom(n, col, upward))
    ensures forall p :: p in ZigzagFrom(n, col, upward) <==> 0 <= p.r < n && 0 <= p.c <= col && p.c != 6
    decreases col + 1
  {
    hide Up, Down, NoRepeat;
    if col <= 0 {
      NothingRepeats();
    } else {
      var k := SkipTiming(col);
      StripCells(n, k, upward);
      hide Strip;
      ZigzagFromCells(n, k - 2, !upward);
      JoinNoRepeat(Strip(n, k, upward), ZigzagFrom(n, k - 2, !upward));
    }
  }

  /** For odd n > 6 the zigzag visits every cell outside column 6 exactly once. */
  lemma ZigzagVisitsOnce(n: nat)
    requires n > 6 && n % 2 == 1
    ensures NoRepeat(Zigzag(n))
    ensures forall p :: p in Zigzag(n) <==> p in Cells(n) && p.c != 6
  {
    hide ZigzagFrom;
    ZigzagFromCells(n, n - 1, true);
  }

  // ---- where each step of the zigzag is ----

  lemma {:induction false} UpAt(col: int, r: int, i: nat, k: nat)
    requires i <= r && k < 2
    ensures |Up(col, r)| == 2 * r + 2 && Up(col, r)[2 * i + k] == Pos(r - i, col - k)
    decreases r
  {
    if i > 0 {
      UpAt(col, r - 1, i - 1, k);
    } else if r > 0 {
      UpAt(col, r - 1, 0, k);
    }
  }

  lemma {:induction false} DownAt(col: int, r: nat, n: nat, i: nat, k: nat)
    requires r + i < n && k < 2
    ensures |Down(col, r, n)| == 2 * (n - r) && Down(col, r, n)[2 * i + k] == Pos(r + i, col - k)
    decreases n - r
  {
    if i > 0 {
      DownAt(col, r + 1, n, i - 1, k);
    } else if r + 1 < n {
      DownAt(col, r + 1, n, 0, k);
    }
  }

  lemma StripAt(n: nat, col: int, upward: bool, i: nat, k: nat)
    requires i < n && k < 2
    ensures |Strip(n, col, upward)| == 2 * n
    ensures Strip(n, col, upward)[2 * i + k] == Pos(if upward then n - 1 - i else i, col - k)
  {
    UpAt(col, n - 1, i, k);
    DownAt(col, 0, n, i, k);
    hide Up, Down;
  }

  /** The number of strips from a column on. */
  function Strips(col: int): int {
    (col + 1) / 2
  }

  /** The right column of strip j, and whether the strip goes up, in a zigzag that starts in a column. */
  function StripColumn(col: int, j: nat): int {
    if col < 6 || col - 2 * j > 6 then col - 2 * j else col - 1 - 2 * j
  }

  predicate StripUp(upward: bool, j: nat) {
    (j % 2 == 0) == upward
  }

  lemma StripsNext(col: int, upward: bool, j: nat)
    requires col > 0 && (if col < 6 then col % 2 == 1 else col % 2 == 0)
    ensures Strips(SkipTiming(col) - 2) == Strips(col) - 1 && (Strips(col) > 1 ==> SkipTiming(col) > 2)
    ensures StripColumn(col, 0) == SkipTiming(col) && StripUp(upward, 0) == upward
    ensures j > 0 ==> StripColumn(SkipTiming(col) - 2, j - 1) == StripColumn(col, j)
                      && StripUp(!upward, j - 1) == StripUp(upward, j)
  {
  }

  lemma ZigzagUnfold(n: nat, col: int, upward: bool)
    requires col > 0
    ensures ZigzagFrom(n, col, upward) ==
            Strip(n, SkipTiming(col), upward) + ZigzagFrom(n, SkipTiming(col) - 2, !upward)
  {
  }

  lemma NoStrips(n: nat, upward: bool)
    ensures ZigzagFrom(n, -1, upward) == [] && Strips(-1) == 0
  {
  }

  lemma {:induction false} ZigzagFromLength(n: nat, col: int, upward: bool)
    requires n > 0 && col >= -1 && (if col < 6 then col % 2 == 1 else col % 2 == 0)
    ensures |ZigzagFrom(n, col, upward)| == 2 * n * Strips(col)
    decreases col + 1
  {
    hide Strip, ZigzagFrom, Strips, StripColumn, StripUp;
    if col == -1 {
      NoStrips(n, upward);
    } else {
      StripAt(n, SkipTiming(col), upward, 0, 0);
      ZigzagUnfold(n, col, upward);
      ZigzagFromLength(n, SkipTiming(col) - 2, !upward);
      StripsNext(col, upward, 0);
      OneLess(2 * n, Strips(col));
    }
  }

  lemma OneLess(w: int, m: int)
    ensures w * (m - 1) == w * m - w
  {
  }

  lemma {:induction false} MoreIsMore(w: nat, a: nat, b: nat)
    requires a <= b
    ensures w * a <= w * b
    decreases b
  {
    if a < b {
      MoreIsMore(w, a, b - 1);
      OneLess(w, b);
    }
  }

  /** The place, in a zigzag of strips, of cell k in row i of strip j. */
  function Place(n: nat, j: nat, i: nat, k: nat): int {
    2 * n * j + 2 * i + k
  }

  /** It lies in the whole as the place in strip j - 1 lies in the rest. */
  lemma PlaceInStrips(n: nat, m: nat, j: nat, i: nat, k: nat)
    requires j < m && i < n && k < 2
    ensures 0 <= Place(n, j, i, k) < 2 * n * m
    ensures Place(n, 0, i, k) == 2 * i + k < 2 * n
    ensures j > 0 ==> Place(n, j, i, k) - 2 * n == Place(n, j - 1, i, k) >= 0
  {
    var w := 2 * n;
    MoreIsMore(w, 0, j);
    MoreIsMore(w, j, m - 1);
    OneLess(w, m);
    if j > 0 {
      MoreIsMore(w, 0, j - 1);
      OneLess(w, j);
    }
  }

  lemma {:induction false} ZigzagFromAt(n: nat, col: int, upward: bool, j: nat, i: nat, k: nat)
    requires col > 0 && (if col < 6 then col % 2 == 1 else col % 2 == 0)
    requires j < Strips(col) && i < n && k < 2
    ensures 0 <= Place(n, j, i, k) < |ZigzagFrom(n, col, upward)|
    ensures ZigzagFrom(n, col, upward)[Place(n, j, i, k)] ==
            Pos(if StripUp(upward, j) then n - 1 - i else i, StripColumn(col, j) - k)
    decreases col + 1
  {
    hide Strip, Place, ZigzagFrom, StripColumn, StripUp, Strips;
    var next := SkipTiming(col) - 2;
    var strip, after := Strip(n, SkipTiming(col), upward), ZigzagFrom(n, next, !upward);
    ZigzagFromLength(n, col, upward);
    PlaceInStrips(n, Strips(col), j, i, k);
    StripAt(n, SkipTiming(col), upward, i, k);
    StripsNext(col, upward, j);
    ZigzagUnfold(n, col, upward);
    if j > 0 {
      ZigzagFromAt(n, next, !upward, j - 1, i, k);
      ShiftedAt(strip, after, Place(n, j, i, k));
    }
  }

  lemma ShiftedAt(a: seq<Pos>, b: seq<Pos>, x: int)
    requires 0 <= x - |a| < |b|
    ensures (a + b)[x] == b[x - |a|]
  {
  }

  lemma HalfOfTwice(n: int, m: int)
    ensures 2 * n * m == n * (2 * m)
  {
  }

  /** The zigzag in closed form: strip j is of two columns, counted from the right without column 6, and
      goes up where j is even and down where it is odd; in each row the right cell comes first. */
  lemma ZigzagAt(n: nat, j: nat, i: nat, k: nat)
    requires n > 6 && n % 2 == 1 && j < (n - 1) / 2 && i < n && k < 2
    ensures |Zigzag(n)| == n * (n - 1) && 0 <= 2 * n * j + 2 * i + k < |Zigzag(n)|
    ensures Zigzag(n)[2 * n * j + 2 * i + k] ==
            Pos(if j % 2 == 0 then n - 1 - i else i, (if n - 1 - 2 * j > 6 then n - 1 - 2 * j else n - 2 - 2 * j) - k)
  {
    hide ZigzagFrom;
    ZigzagFromLength(n, n - 1, true);
    ZigzagFromAt(n, n - 1, true, j, i, k);
    HalfOfTwice(n, Strips(n - 1));
  }

  // ---- filling ----

  function Rest(bits: seq<Bit>): seq<Bit> {
    if bits == [] then [] else bits[1..]
  }

  function Next(bits: seq<Bit>): Bit {
    if bits == [] then 0 else bits[0]
  }

  /** Sets every unset cell of the order to the next bit, and to 0 once the bits run out. */
  function Fill(g: Grid, order: seq<Pos>, bits: seq<Bit>): Grid
    decreases order
  {
    if order == [] then g
    else if order[0] in g then Fill(g, order[1..], bits)
    else Fill(g[order[0] := Next(bits)], order[1..], Rest(bits))
  }

  function FreeCells(taken: set<Pos>, order: seq<Pos>): seq<Pos> {
    if order == [] then []
    else (if order[0] in taken then [] else [order[0]]) + FreeCells(taken, order[1..])
  }

  function Read(g: Grid, cells: seq<Pos>): (bits: seq<Bit>)
    requires forall p :: p in cells ==> p in g
    ensures |bits| == |cells|
  {
    seq(|cells|, i requires 0 <= i < |cells| => assert cells[i] in cells; g[cells[i]])
  }

  /** The bits, cut or continued with zeros to length n. */
  function Fit(bits: seq<Bit>, n: nat): (r: seq<Bit>)
    ensures |r| == n
  {
    seq(n, i requires 0 <= i < n => if i < |bits| then bits[i] else 0)
  }

  lemma {:induction false} FillKeeps(g: Grid, order: seq<Pos>, bits: seq<Bit>)
    ensures forall p :: p in g ==> p in Fill(g, order, bits) && Fill(g, order, bits)[p] == g[p]
    ensures forall p :: p in Fill(g, order, bits) <==> p in g || p in order
    decreases order
  {
    if order != [] {
      assert forall p :: p in order <==> p == order[0] || p in order[1..];
      if order[0] in g {
        FillKeeps(g, order[1..], bits);
      } else {
        FillKeeps(g[order[0] := Next(bits)], order[1..], Rest(bits));
      }
    }
  }

  lemma {:induction false} FreeCellsOf(taken: set<Pos>, order: seq<Pos>)
    ensures forall p :: p in FreeCells(taken, order) <==> p in order && p !in taken
    ensures NoRepeat(order) ==> NoRepeat(FreeCells(taken, order))
  {
    if order != [] {
      FreeCellsOf(taken, order[1..]);
      assert forall p :: p in order <==> p == order[0] || p in order[1..];
      if NoRepeat(order) {
        assert order[0] !in order[1..];
        JoinNoRepeat(if order[0] in taken then [] else [order[0]], FreeCells(taken, order[1..]));
      }
    }
  }

  /** Taking a cell that does not come again leaves the free cells of the rest alone. */
  lemma {:induction false} FreeCellsIgnore(taken: set<Pos>, order: seq<Pos>, p: Pos)
    requires p !in order
    ensures FreeCells(taken + {p}, order) == FreeCells(taken, order)
  {
    if order != [] {
      FreeCellsIgnore(taken, order[1..], p);
    }
  }

  lemma ReadCons(g: Grid, p: Pos, cells: seq<Pos>, bits: seq<Bit>)
    requires p in g && (forall q :: q in cells ==> q in g)
    requires Read(g, cells) == Fit(Rest(bits), |cells|) && g[p] == Next(bits)
    ensures forall q :: q in [p] + cells ==> q in g
    ensures Read(g, [p] + cells) == Fit(bits, |[p] + cells|)
  {
    var both := Read(g, [p] + cells);
    forall i | 0 <= i < |both| ensures both[i] == Fit(bits, |[p] + cells|)[i] {
      if i > 0 {
        assert both[i] == Read(g, cells)[i - 1] == Fit(Rest(bits), |cells|)[i - 1];
      }
    }
  }

  /** Reading the cells that were free, in order, gives the bits followed by zeros. */
  lemma {:induction false} FillRead(g: Grid, order: seq<Pos>, bits: seq<Bit>)
    requires NoRepeat(order)
    ensures forall p :: p in FreeCells(g.Keys, order) ==> p in Fill(g, order, bits)
    ensures Read(Fill(g, order, bits), FreeCells(g.Keys, order)) == Fit(bits, |FreeCells(g.Keys, order)|)
    decreases order
  {
    hide Read, Fit, Next, Rest;
    if order == [] {
      ReadNone(g, bits);
    } else {
      var p, rest := order[0], order[1..];
      assert p !in rest;
      if p in g {
        FillRead(g, rest, bits);
        assert FreeCells(g.Keys, order) == FreeCells(g.Keys, rest);
      } else {
        var h := g[p := Next(bits)];
        FillRead(h, rest, Rest(bits));
        FillKeeps(h, rest, Rest(bits));
        assert h.Keys == g.Keys + {p};
        FreeCellsIgnore(g.Keys, rest, p);
        ReadCons(Fill(h, rest, Rest(bits)), p, FreeCells(g.Keys, rest), bits);
      }
    }
  }

  lemma ReadNone(g: Grid, bits: seq<Bit>)
    ensures Read(g, []) == Fit(bits, 0)
  {
  }

  lemma Regroup(a: seq<Pos>, b: seq<Pos>, c: seq<Pos>)
    ensures a + b + c == a + (b + c)
  {
  }

  lemma {:induction false} FreeCellsSplit(taken: set<Pos>, a: seq<Pos>, b: seq<Pos>)
    ensures FreeCells(taken, a + b) == FreeCells(taken, a) + FreeCells(taken, b)
  {
    if a == [] {
      assert a + b == b;
    } else {
      hide FreeCells;
      var p, rest := a[0], a[1..];
      assert a == [p] + rest;
      FreeCellsSplit(taken, rest, b);
      FreeCellsFirst(taken, p, rest);
      FreeCellsFirst(taken, p, rest + b);
      Regroup([p], rest, b);
      Regroup(if p in taken then [] else [p], FreeCells(taken, rest), FreeCells(taken, b));
    }
  }

  lemma FreeCellsFirst(taken: set<Pos>, p: Pos, rest: seq<Pos>)
    ensures FreeCells(taken, [p] + rest) == (if p in taken then [] else [p]) + FreeCells(taken, rest)
  {
    assert ([p] + rest)[1..] == rest;
  }

  /** The free places of an order before place m. */
  function FreeBefore(taken: set<Pos>, order: seq<Pos>, m: nat): set<nat>
    requires m <= |order|
  {
    set i: nat | i < m && order[i] !in taken
  }

  lemma {:induction false} FreeCellsCount(taken: set<Pos>, order: seq<Pos>, m: nat)
    requires m <= |order|
    ensures |FreeCells(taken, order[..m])| == |FreeBefore(taken, order, m)|
  {
    if m == 0 {
      assert FreeBefore(taken, order, 0) == {};
    } else {
      FreeCellsCount(taken, order, m - 1);
      FreeCellsSplit(taken, order[..m - 1], [order[m - 1]]);
      assert order[..m] == order[..m - 1] + [order[m - 1]];
      var last: nat := m - 1;
      assert FreeBefore(taken, order, m) == FreeBefore(taken, order, m - 1) + (if order[last] in taken then {} else {last});
    }
  }

  /** A free place comes, among the free cells, after as many as there are free places before it. */
  lemma FreeCellsAt(taken: set<Pos>, order: seq<Pos>, m: nat)
    requires m < |order| && order[m] !in taken
    ensures var j := |FreeBefore(taken, order, m)|; j < |FreeCells(taken, order)| && FreeCells(taken, order)[j] == order[m]
  {
    hide FreeBefore;
    FreeCellsCount(taken, order, m);
    assert order == order[..m] + order[m..];
    FreeCellsSplit(taken, order[..m], order[m..]);
  }

  /** A cell left free gets the bit whose number is the number of free cells before it in the order, and
      0 when there are no more bits. */
  lemma FillAt(g: Grid, order: seq<Pos>, bits: seq<Bit>, m: nat)
    requires NoRepeat(order) && m < |order| && order[m] !in g
    ensures order[m] in Fill(g, order, bits)
    ensures var j := |FreeBefore(g.Keys, order, m)|;
            Fill(g, order, bits)[order[m]] == if j < |bits| then bits[j] else 0
  {
    hide FreeBefore, FreeCells, Fill;
    FreeCellsAt(g.Keys, order, m);
    var cells, j := FreeCells(g.Keys, order), |FreeBefore(g.Keys, order, m)|;
    assert cells[j] in cells;
    FillRead(g, order, bits);
    assert Read(Fill(g, order, bits), cells)[j] == Fit(bits, |cells|)[j];
  }

  /** The data placement loop: two columns at a time from the right, alternately
      up and down, skipping column 6. */
  method PlaceData(grid: array2<Cell>, bits: seq<Bit>)
    requires grid.Length0 == grid.Length1 > 0
    modifies grid
    ensures View(grid) == Fill(old(View(grid)), Zigzag(grid.Length0), bits)
  {
    hide Fill, Up, Down, Left, View;
    var n := grid.Length0;
    var idx := 0;
    var upward := true;
    var col := n - 1;
    LeftAll(bits);
    while col > 0
      invariant -1 <= col < n
      invariant Fill(View(grid), ZigzagFrom(n, col, upward), Left(bits, idx)) == Fill(old(View(grid)), Zigzag(n), bits)
    {
      if col == 6 {
        col := col - 1;
      }
      ghost var after := ZigzagFrom(n, col - 2, !upward);
      if upward {
        idx := PlaceUp(grid, col, bits, idx, after);
      } else {
        idx := PlaceDown(grid, col, bits, idx, after);
      }
      upward := !upward;
      col := col - 2;
    }
    FillNone(View(grid), Left(bits, idx));
  }

  lemma LeftAll(bits: seq<Bit>)
    ensures Left(bits, 0) == bits
  {
  }

  lemma FillNone(g: Grid, bits: seq<Bit>)
    ensures Fill(g, [], bits) == g
  {
  }

  /** The rows of a strip, bottom to top. */
  method PlaceUp(grid: array2<Cell>, col: nat, bits: seq<Bit>, idx: nat, ghost after: seq<Pos>) returns (idx': nat)
    requires grid.Length0 == grid.Length1 && 0 < col < grid.Length0
    modifies grid
    ensures Fill(View(grid), after, Left(bits, idx')) ==
            Fill(old(View(grid)), Up(col, grid.Length0 - 1) + after, Left(bits, idx))
  {
    hide Fill, Left, View;
    idx' := idx;
    var r := grid.Length0 - 1;
    while r >= 0
      invariant -1 <= r < grid.Length0
      invariant Fill(View(grid), Up(col, r) + after, Left(bits, idx')) ==
                Fill(old(View(grid)), Up(col, grid.Length0 - 1) + after, Left(bits, idx))
    {
      assert Up(col, r) + after == RowPair(col, r) + (Up(col, r - 1) + after);
      idx' := PlacePair(grid, r, col, bits, idx', Up(col, r - 1) + after);
      r := r - 1;
    }
    assert Up(col, -1) + after == after;
  }

  /** The rows of a strip, top to bottom. */
  method PlaceDown(grid: array2<Cell>, col: nat, bits: seq<Bit>, idx: nat, ghost after: seq<Pos>) returns (idx': nat)
    requires grid.Length0 == grid.Length1 && 0 < col < grid.Length0
    modifies grid
    ensures Fill(View(grid), after, Left(bits, idx')) ==
            Fill(old(View(grid)), Down(col, 0, grid.Length0) + after, Left(bits, idx))
  {
    hide Fill, Left, View;
    idx' := idx;
    var n := grid.Length0;
    for r := 0 to n
      invariant Fill(View(grid), Down(col, r, n) + after, Left(bits, idx')) ==
                Fill(old(View(grid)), Down(col, 0, n) + after, Left(bits, idx))
    {
      assert Down(col, r, n) + after == RowPair(col, r) + (Down(col, r + 1, n) + after);
      idx' := PlacePair(grid, r, col, bits, idx', Down(col, r + 1, n) + after);
    }
    assert Down(col, n, n) + after == after;
  }

  function Left(bits: seq<Bit>, idx: nat): seq<Bit> {
    if idx < |bits| then bits[idx..] else []
  }

  /** The innermost loop: the two cells of a row, right one first. */
  method PlacePair(grid: array2<Cell>, r: nat, col: nat, bits: seq<Bit>, idx: nat, ghost rest: seq<Pos>)
    returns (idx': nat)
    requires grid.Length0 == grid.Length1 && r < grid.Length0 && 0 < col < grid.Length0
    modifies grid
    ensures Fill(View(grid), rest, Left(bits, idx')) ==
            Fill(old(View(grid)), RowPair(col, r) + rest, Left(bits, idx))
  {
    ghost var pair := RowPair(col, r);
    assert (pair + rest)[1..] == [Pos(r, col - 1)] + rest;
    assert ([Pos(r, col - 1)] + rest)[1..] == rest;
    idx' := PlaceCell(grid, r, col, bits, idx);
    idx' := PlaceCell(grid, r, col - 1, bits, idx');
  }

  method PlaceCell(grid: array2<Cell>, r: nat, c: nat, bits: seq<Bit>, idx: nat) returns (idx': nat)
    requires grid.Length0 == grid.Length1 && r < grid.Length0 && c < grid.Length0
    modifies grid
    ensures var g, p := old(View(grid)), Pos(r, c);
            if p in g then View(grid) == g && idx' == idx
            else View(grid) == g[p := Next(Left(bits, idx))] && Left(bits, idx') == Rest(Left(bits, idx))
  {
    idx' := idx;
    if grid[r, c] == Unset {
      var bit := if idx < |bits| then bits[idx] else 0;
      idx' := idx + 1;
      grid[r, c] := Set(bit);
    }
  }
}
