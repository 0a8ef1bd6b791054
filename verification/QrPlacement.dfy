/** The loops that write the patterns, the format and the mask into the array. */
module QrPlacement {
  import opened QrGrid
  import opened QrMatrix

  ghost predicate Square(grid: array2<Cell>) {
    grid.Length0 == grid.Length1
  }

  /** Writing one cell, on the abstract grid. */
  method SetCell(grid: array2<Cell>, r: nat, c: nat, bit: Bit)
    requires Square(grid) && r < grid.Length0 && c < grid.Length0
    modifies grid
    ensures View(grid) == old(View(grid))[Pos(r, c) := bit]
  {
    grid[r, c] := Set(bit);
  }

  ghost predicate Literal(rows: seq<seq<Bit>>, pattern: Pattern) {
    && |rows| == pattern.Width()
    && forall i, j :: 0 <= i < |rows| && 0 <= j < |rows| ==> |rows[i]| == |rows| && rows[i][j] == pattern.BitAt(i, j)
  }

  /** The cells of a grid before (r, c) in reading order. */
  ghost function Before(s: Grid, r: int, c: int): Grid {
    map p | p in s && (p.r < r || (p.r == r && p.c < c)) :: s[p]
  }

  lemma BeforeNext(s: Grid, r: int, c: int)
    requires Pos(r, c) in s
    ensures Before(s, r, c + 1) == Before(s, r, c)[Pos(r, c) := s[Pos(r, c)]]
  {
  }

  /** The part of a stamp written before row i, column j. */
  ghost function StampUpTo(r: int, c: int, pattern: Pattern, i: int, j: int): Grid {
    Before(Stamp(r, c, pattern), r + i, c + j)
  }

  lemma StampNext(g: Grid, r: int, c: int, pattern: Pattern, i: int, j: int)
    requires 0 <= i < pattern.Width() && 0 <= j < pattern.Width()
    ensures g + StampUpTo(r, c, pattern, i, j + 1)
            == (g + StampUpTo(r, c, pattern, i, j))[Pos(r + i, c + j) := pattern.BitAt(i, j)]
  {
    var p, bit := Pos(r + i, c + j), pattern.BitAt(i, j);
    StampStep(r, c, pattern, i, j);
    MergeUpdate(g, StampUpTo(r, c, pattern, i, j), p, bit);
  }

  lemma StampStep(r: int, c: int, pattern: Pattern, i: int, j: int)
    requires 0 <= i < pattern.Width() && 0 <= j < pattern.Width()
    ensures StampUpTo(r, c, pattern, i, j + 1)
            == StampUpTo(r, c, pattern, i, j)[Pos(r + i, c + j) := pattern.BitAt(i, j)]
  {
    hide Stamp, Before;
    StampAt(r, c, pattern, i, j);
    BeforeNext(Stamp(r, c, pattern), r + i, c + j);
  }

  lemma StampAt(r: int, c: int, pattern: Pattern, i: int, j: int)
    requires 0 <= i < pattern.Width() && 0 <= j < pattern.Width()
    ensures Pos(r + i, c + j) in Stamp(r, c, pattern)
    ensures Stamp(r, c, pattern)[Pos(r + i, c + j)] == pattern.BitAt(i, j)
  {
  }

  lemma MergeUpdate(g: Grid, m: Grid, p: Pos, bit: Bit)
    ensures g + m[p := bit] == (g + m)[p := bit]
  {
  }

  lemma MergeAssociates(g: Grid, a: Grid, b: Grid)
    ensures g + a + b == g + (a + b)
  {
  }

  lemma StampRow(r: int, c: int, pattern: Pattern, i: int)
    ensures StampUpTo(r, c, pattern, 0, 0) == map[]
    ensures StampUpTo(r, c, pattern, i, pattern.Width()) == StampUpTo(r, c, pattern, i + 1, 0)
    ensures i >= pattern.Width() ==> StampUpTo(r, c, pattern, i, 0) == Stamp(r, c, pattern)
  {
  }

  method WritePattern(grid: array2<Cell>, r: nat, c: nat, rows: seq<seq<Bit>>, ghost pattern: Pattern)
    requires Square(grid) && Literal(rows, pattern)
    requires r + |rows| <= grid.Length0 && c + |rows| <= grid.Length0
    modifies grid
    ensures View(grid) == old(View(grid)) + Stamp(r, c, pattern)
  {
    hide View, Stamp, StampUpTo;
    ghost var g := View(grid);
    StampRow(r, c, pattern, 0);
    assert g + map[] == g;
    for i := 0 to |rows|
      invariant View(grid) == g + StampUpTo(r, c, pattern, i, 0)
    {
      for j := 0 to |rows|
        invariant View(grid) == g + StampUpTo(r, c, pattern, i, j)
      {
        StampNext(g, r, c, pattern, i, j);
        SetCell(grid, r + i, c + j, rows[i][j]);
      }
      StampRow(r, c, pattern, i);
    }
    StampRow(r, c, pattern, |rows|);
  }

  function FinderRows(): seq<seq<Bit>> {
    [
      [1, 1, 1, 1, 1, 1, 1],
      [1, 0, 0, 0, 0, 0, 1],
      [1, 0, 1, 1, 1, 0, 1],
      [1, 0, 1, 1, 1, 0, 1],
      [1, 0, 1, 1, 1, 0, 1],
      [1, 0, 0, 0, 0, 0, 1],
      [1, 1, 1, 1, 1, 1, 1]
    ]
  }

  function AlignmentRows(): seq<seq<Bit>> {
    [
      [1, 1, 1, 1, 1],
      [1, 0, 0, 0, 1],
      [1, 0, 1, 0, 1],
      [1, 0, 0, 0, 1],
      [1, 1, 1, 1, 1]
    ]
  }

  lemma FinderCell(i: nat, j: nat)
    requires i < 7 && j < 7
    ensures |FinderRows()[i]| == 7 && FinderRows()[i][j] == FinderPattern.BitAt(i, j)
  {
    if i == 0 {
    } else if i == 1 {
    } else if i == 2 {
    } else if i == 3 {
    } else if i == 4 {
    } else if i == 5 {
    }
  }

  lemma AlignmentCell(i: nat, j: nat)
    requires i < 5 && j < 5
    ensures |AlignmentRows()[i]| == 5 && AlignmentRows()[i][j] == AlignmentPattern.BitAt(i, j)
  {
    if i == 0 {
    } else if i == 1 {
    } else if i == 2 {
    } else if i == 3 {
    }
  }

  lemma RowsAreRings()
    ensures Literal(FinderRows(), FinderPattern) && Literal(AlignmentRows(), AlignmentPattern)
  {
    FinderRowCount();
    hide FinderRows, AlignmentRows;
    forall i | 0 <= i < 7 ensures |FinderRows()[i]| == 7 {
      FinderCell(i, 0);
    }
    forall i | 0 <= i < 5 ensures |AlignmentRows()[i]| == 5 {
      AlignmentCell(i, 0);
    }
    forall i, j | 0 <= i < 7 && 0 <= j < 7
      ensures |FinderRows()[i]| == 7 && FinderRows()[i][j] == FinderPattern.BitAt(i, j)
    {
      FinderCell(i, j);
    }
    forall i, j | 0 <= i < 5 && 0 <= j < 5
      ensures |AlignmentRows()[i]| == 5 && AlignmentRows()[i][j] == AlignmentPattern.BitAt(i, j)
    {
      AlignmentCell(i, j);
    }
  }

  method PlaceFinders(grid: array2<Cell>)
    requires Square(grid) && grid.Length0 >= 21
    modifies grid
    ensures View(grid) == old(View(grid)) + Finders(grid.Length0)
  {
    hide View, Stamp, FinderRows, Literal;
    RowsAreRings();
    var n := grid.Length0;
    ghost var g := View(grid);
    assert |FinderRows()| == 7 by { FinderRowCount(); }
    WritePattern(grid, 0, 0, FinderRows(), FinderPattern);
    WritePattern(grid, 0, n - 7, FinderRows(), FinderPattern);
    WritePattern(grid, n - 7, 0, FinderRows(), FinderPattern);
    ghost var s1, s2, s3 := Stamp(0, 0, FinderPattern), Stamp(0, n - 7, FinderPattern), Stamp(n - 7, 0, FinderPattern);
    MergeAssociates(g, s1, s2);
    MergeAssociates(g, s1 + s2, s3);
  }

  lemma FinderRowCount()
    ensures |FinderRows()| == 7 && |AlignmentRows()| == 5
  {
  }

  lemma OneCentre(version: nat, yi: nat, xi: nat)
    requires 1 <= version <= 5 && yi < |AlignmentCenters(version)| && xi < |AlignmentCenters(version)|
    ensures version >= 2 && |AlignmentCenters(version)| == 2 && AlignmentCenters(version)[1] == Size(version) - 7
    ensures InFinder(Size(version), AlignmentCenters(version)[yi], AlignmentCenters(version)[xi]) <==> !(yi == 1 && xi == 1)
  {
  }

  /** The body of the loop over pairs of centres. */
  method PlaceCentre(grid: array2<Cell>, version: nat, yi: nat, xi: nat)
    requires 1 <= version <= 5 && Square(grid) && grid.Length0 == Size(version)
    requires yi < |AlignmentCenters(version)| && xi < |AlignmentCenters(version)|
    modifies grid
    ensures View(grid) == if yi == 1 && xi == 1 then old(View(grid)) + Alignments(version, grid.Length0) else old(View(grid))
  {
    hide View, Stamp, AlignmentRows, Literal, InFinder, AlignmentCenters;
    OneCentre(version, yi, xi);
    var n := grid.Length0;
    var y, x := AlignmentCenters(version)[yi], AlignmentCenters(version)[xi];
    if !InFinder(n, y, x) {
      RowsAreRings();
      FinderRowCount();
      WritePattern(grid, y - 2, x - 2, AlignmentRows(), AlignmentPattern);
    }
  }

  /** Stamps the alignment pattern at every centre outside the finders. */
  method PlaceAlignment(grid: array2<Cell>, version: nat)
    requires 1 <= version <= 5 && Square(grid) && grid.Length0 == Size(version)
    modifies grid
    ensures View(grid) == old(View(grid)) + Alignments(version, grid.Length0)
  {
    hide View, Alignments;
    NoAlignment(version, View(grid));
    var k := |AlignmentCenters(version)|;
    ghost var g := View(grid);
    ghost var stamped := g + Alignments(version, grid.Length0);
    for yi := 0 to k
      invariant View(grid) == if yi < 2 then g else stamped
    {
      for xi := 0 to k
        invariant View(grid) == if yi == 1 && xi == 2 then stamped else g
      {
        PlaceCentre(grid, version, yi, xi);
      }
    }
  }

  lemma NoAlignment(version: nat, g: Grid)
    requires 1 <= version <= 5
    ensures |AlignmentCenters(version)| == if version == 1 then 0 else 2
    ensures version == 1 ==> g + Alignments(version, Size(version)) == g
  {
  }

  /** Writes a cell only where nothing is yet. */
  method SetUnset(grid: array2<Cell>, r: nat, c: nat, bit: Bit)
    requires Square(grid) && r < grid.Length0 && c < grid.Length0
    modifies grid
    ensures View(grid) == map[Pos(r, c) := bit] + old(View(grid))
  {
    if grid[r, c] == Unset {
      grid[r, c] := Set(bit);
    }
  }

  ghost function TimingUpTo(n: nat, i: int): Grid {
    map p | p in Timing(n) && ((p.r == 6 && p.c < i) || (p.c == 6 && p.r < i)) :: Timing(n)[p]
  }

  method PlaceTiming(grid: array2<Cell>)
    requires Square(grid) && grid.Length0 >= 21
    modifies grid
    ensures View(grid) == Timing(grid.Length0) + old(View(grid))
  {
    hide View, Timing, TimingUpTo, Cells;
    var n := grid.Length0;
    ghost var g := View(grid);
    TimingEnds(n, g);
    for i := 0 to n
      invariant View(grid) == TimingUpTo(n, i) + g
    {
      var bit := if i % 2 == 0 then 1 else 0;
      ghost var t := TimingUpTo(n, i);
      TimingNext(n, i);
      SetUnset(grid, 6, i, bit);
      MergeUnder(t, g, Pos(6, i), bit);
      SetUnset(grid, i, 6, bit);
      MergeUnder(t[Pos(6, i) := bit], g, Pos(i, 6), bit);
    }
  }

  lemma MergeUnder(t: Grid, g: Grid, p: Pos, bit: Bit)
    requires p in t ==> t[p] == bit
    ensures map[p := bit] + (t + g) == t[p := bit] + g
  {
  }

  lemma TimingEnds(n: nat, g: Grid)
    requires n > 6
    ensures TimingUpTo(n, 0) + g == g
    ensures TimingUpTo(n, n) == Timing(n)
  {
  }

  /** Two cells a step, in row 6 and in column 6. */
  lemma TimingNext(n: nat, i: nat)
    requires 6 < n && i < n
    ensures var bit := if i % 2 == 0 then 1 else 0;
            var t := TimingUpTo(n, i);
            && Pos(6, i) !in t && (Pos(i, 6) in t[Pos(6, i) := bit] ==> t[Pos(6, i) := bit][Pos(i, 6)] == bit)
            && TimingUpTo(n, i + 1) == t[Pos(6, i) := bit][Pos(i, 6) := bit]
  {
    TimingAt(n, i);
  }

  lemma TimingAt(n: nat, i: nat)
    requires 6 < n && i < n
    ensures Pos(6, i) in Timing(n) && Timing(n)[Pos(6, i)] == if i % 2 == 0 then 1 else 0
    ensures Pos(i, 6) in Timing(n) && Timing(n)[Pos(i, 6)] == if i % 2 == 0 then 1 else 0
  {
  }

  /** The division loop of the format word. */
  method FormatBits(mask: nat) returns (word: bv16)
    ensures word == FormatWord(MaskWord(mask))
  {
    hide FormatStep;
    var data := MaskWord(mask) << 10;
    var rem := data;
    for i := 15 downto 10
      invariant rem == FormatRem(data, i)
    {
      rem := FormatStep(rem, i);
    }
    word := (data | (rem & 0x3FF)) ^ 0x5412;
  }

  method PlaceFormat(grid: array2<Cell>, mask: nat)
    requires Square(grid) && grid.Length0 >= 21
    modifies grid
    ensures View(grid) == old(View(grid)) + Format(grid.Length0, mask)
  {
    hide View, FormatWord, FormatA, FormatB, Cells;
    var n := grid.Length0;
    ghost var g := View(grid);
    assert g + map[] == g;
    var word := FormatBits(mask);
    for i := 0 to 15
      invariant View(grid) == g + FormatUpTo(n, mask, i)
    {
      var bit := if (word >> i) & 1 == 1 then 1 else 0;
      var a, b := FormatA(i), FormatB(n, i);
      InGrid(n, i);
      SetCell(grid, a.r, a.c, bit);
      SetCell(grid, b.r, b.c, bit);
      ghost var before := FormatUpTo(n, mask, i);
      MergeUpdate(g, before, a, bit);
      MergeUpdate(g, before[a := bit], b, bit);
    }
    SetCell(grid, 8, n - 8, 1);
    MergeUpdate(g, FormatUpTo(n, mask, 15), Pos(8, n - 8), 1);
  }

  lemma InGrid(n: nat, i: nat)
    requires n >= 21 && i < 15
    ensures FormatA(i) in Cells(n) && FormatB(n, i) in Cells(n)
  {
  }

  method ApplyMask(grid: array2<Cell>, version: nat, mask: nat)
    requires 1 <= version <= 5 && Square(grid) && grid.Length0 == Size(version)
    modifies grid
    ensures View(grid) == Masked(old(View(grid)), version, mask)
  {
    hide IsFunction, MaskBit, Masked;
    var n := grid.Length0;
    ghost var m := Masked(View(grid), version, mask);
    for r := 0 to n
      invariant forall i, j :: 0 <= i < n && 0 <= j < n ==>
                  grid[i, j] == if i < r then Set(m[Pos(i, j)]) else old(grid[i, j])
    {
      for c := 0 to n
        invariant forall i, j :: 0 <= i < n && 0 <= j < n ==>
                    grid[i, j] == if i < r || (i == r && j < c) then Set(m[Pos(i, j)]) else old(grid[i, j])
      {
        MaskedCell(old(View(grid)), version, mask, Pos(r, c));
        if grid[r, c] == Unset {
          grid[r, c] := Set(0);
        } else if !IsFunction(version, n, r, c) && MaskBit(mask, r, c) {
          grid[r, c] := Set(1 - grid[r, c].bit);
        }
      }
    }
  }

  lemma MaskedCell(g: Grid, version: nat, mask: nat, p: Pos)
    requires 1 <= version <= 5 && p in Cells(Size(version))
    ensures Masked(g, version, mask)[p] ==
            if p !in g then 0
            else if !IsFunction(version, Size(version), p.r, p.c) && MaskBit(mask, p.r, p.c) then 1 - g[p]
            else g[p]
  {
  }
}
