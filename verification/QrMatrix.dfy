/** Function patterns, masking and the finished symbol, and a reader that gets
    the data bits back from it. */
module QrMatrix {
  import opened Basics
  import opened QrGrid

  function Size(version: nat): int {
    21 + 4 * (version - 1)
  }

  // ---- which cells the encoder treats as function cells ----

  predicate InFinder(n: int, r: int, c: int) {
    || (r <= 7 && c <= 7)
    || (r <= 7 && c >= n - 8)
    || (r >= n - 8 && c <= 7)
  }

  function AlignmentCenters(version: nat): seq<int> {
    if version == 2 then [6, 18]
    else if version == 3 then [6, 22]
    else if version == 4 then [6, 26]
    else if version == 5 then [6, 30]
    else []
  }

  function Abs(x: int): int {
    if x < 0 then -x else x
  }

  predicate InAlignment(version: nat, n: int, r: int, c: int) {
    exists y, x | y in AlignmentCenters(version) && x in AlignmentCenters(version) ::
      !InFinder(n, y, x) && Abs(r - y) <= 2 && Abs(c - x) <= 2
  }

  predicate IsFunction(version: nat, n: int, r: int, c: int) {
    || InFinder(n, r, c)
    || r == 6 || c == 6
    || (r == 8 && c == n - 8)
    || InAlignment(version, n, r, c)
    || (r == 8 && (c <= 8 || c >= n - 8))
    || (c == 8 && (r <= 8 || r >= n - 8))
  }

  predicate MaskBit(mask: nat, r: nat, c: nat) {
    if mask == 0 then (r + c) % 2 == 0
    else if mask == 1 then r % 2 == 0
    else if mask == 2 then c % 3 == 0
    else if mask == 3 then (r + c) % 3 == 0
    else if mask == 4 then (r / 2 + c / 3) % 2 == 0
    else if mask == 5 then (r * c) % 2 + (r * c) % 3 == 0
    else if mask == 6 then ((r * c) % 2 + (r * c) % 3) % 2 == 0
    else ((r + c) % 2 + (r * c) % 3) % 2 == 0
  }

  /** The function cells: three corner squares with the format cells next to them, the timing lines and,
      from version 2 on, the 5x5 alignment square around (n-7, n-7). */
  lemma FunctionCellsAre(version: nat, r: int, c: int)
    requires 1 <= version <= 5
    ensures var n := 17 + 4 * version;
            IsFunction(version, Size(version), r, c) <==>
            || (r <= 8 && c <= 8) || (r <= 8 && c >= n - 8) || (r >= n - 8 && c <= 8) || r == 6 || c == 6
            || (version >= 2 && n - 9 <= r <= n - 5 && n - 9 <= c <= n - 5)
  {
    var n := Size(version);
    if version >= 2 {
      var centers := AlignmentCenters(version);
      assert centers == [6, n - 7];
      assert centers[0] in centers && centers[1] in centers;
      assert forall y :: y in centers <==> y == 6 || y == n - 7;
    }
    hide AlignmentCenters;
  }

  /** The eight mask patterns: a checkerboard, rows, columns, diagonals, blocks of two by three, and three
      that go by the product of row and column. */
  lemma MaskPatterns(r: nat, c: nat)
    ensures MaskBit(0, r, c) <==> r % 2 == c % 2
    ensures MaskBit(1, r, c) <==> r % 2 == 0
    ensures MaskBit(2, r, c) <==> c % 3 == 0
    ensures MaskBit(3, r, c) <==> (r % 3, c % 3) in {(0, 0), (1, 2), (2, 1)}
    ensures MaskBit(4, r, c) <==> (r % 4 < 2 <==> c % 6 < 3)
    ensures MaskBit(5, r, c) <==> (r * c) % 6 == 0
    ensures MaskBit(6, r, c) <==> (r * c) % 6 < 3
    ensures MaskBit(7, r, c) <==> (r % 2 == c % 2 <==> (r * c) % 3 != 1)
  {
    MaskBySum(r, c);
    BlocksOf(r, c);
    MaskByProduct(r, c);
    hide MaskBit;
  }

  lemma MaskBySum(r: nat, c: nat)
    ensures MaskBit(0, r, c) <==> r % 2 == c % 2
    ensures MaskBit(1, r, c) <==> r % 2 == 0
    ensures MaskBit(2, r, c) <==> c % 3 == 0
    ensures MaskBit(3, r, c) <==> (r % 3, c % 3) in {(0, 0), (1, 2), (2, 1)}
  {
    DiagonalsOf(r, c);
    ParityOf(r, c);
  }

  function Product(r: nat, c: nat): nat {
    r * c
  }

  lemma ProductMasks(r: nat, c: nat)
    ensures MaskBit(5, r, c) <==> Product(r, c) % 2 + Product(r, c) % 3 == 0
    ensures MaskBit(6, r, c) <==> (Product(r, c) % 2 + Product(r, c) % 3) % 2 == 0
    ensures MaskBit(7, r, c) <==> ((r + c) % 2 + Product(r, c) % 3) % 2 == 0
  {
  }

  lemma MaskByProduct(r: nat, c: nat)
    ensures MaskBit(5, r, c) <==> Product(r, c) % 6 == 0
    ensures MaskBit(6, r, c) <==> Product(r, c) % 6 < 3
    ensures MaskBit(7, r, c) <==> (r % 2 == c % 2 <==> Product(r, c) % 3 != 1)
  {
    hide MaskBit, Product;
    ProductMasks(r, c);
    SixthsOf(Product(r, c));
    ParityOf(r, c);
    EvenSum(r + c, Product(r, c));
  }

  lemma ParityOf(r: nat, c: nat)
    ensures (r + c) % 2 == 0 <==> r % 2 == c % 2
  {
  }

  lemma EvenSum(x: nat, y: nat)
    ensures (x % 2 + y % 3) % 2 == 0 <==> (x % 2 == 0 <==> y % 3 != 1)
  {
  }

  lemma SixthsOf(x: nat)
    ensures x % 2 + x % 3 == 0 <==> x % 6 == 0
    ensures (x % 2 + x % 3) % 2 == 0 <==> x % 6 < 3
  {
    HalvesOfSixths(x);
    ThirdsOfSixths(x);
    SmallSixths(x % 6);
  }

  lemma HalvesOfSixths(x: nat)
    ensures x % 2 == x % 6 % 2
  {
    var q, y := x / 6, x % 6;
    OddOrEven(x, 3 * q + y / 2, y % 2);
  }

  lemma OddOrEven(x: nat, k: nat, r: nat)
    requires x == 2 * k + r && r < 2
    ensures x % 2 == r
  {
  }

  lemma ThirdsOfSixths(x: nat)
    ensures x % 3 == x % 6 % 3
  {
    var q, y := x / 6, x % 6;
    RestOfThree(x, 2 * q + y / 3, y % 3);
  }

  lemma RestOfThree(x: nat, k: nat, r: nat)
    requires x == 3 * k + r && r < 3
    ensures x % 3 == r
  {
  }

  lemma SmallSixths(y: nat)
    requires y < 6
    ensures y % 2 + y % 3 == 0 <==> y == 0
    ensures (y % 2 + y % 3) % 2 == 0 <==> y < 3
  {
  }

  lemma BlocksOf(r: nat, c: nat)
    ensures MaskBit(4, r, c) <==> (r % 4 < 2 <==> c % 6 < 3)
  {
    hide MaskBit;
    BlockMask(r, c);
    ParityOf(r / 2, c / 3);
    PairsOf(r);
    TriplesOf(c);
  }

  lemma BlockMask(r: nat, c: nat)
    ensures MaskBit(4, r, c) <==> (r / 2 + c / 3) % 2 == 0
  {
  }

  lemma PairsOf(r: nat)
    ensures r / 2 % 2 == if r % 4 < 2 then 0 else 1
  {
    assert r / 2 == 2 * (r / 4) + r % 4 / 2;
  }

  lemma TriplesOf(c: nat)
    ensures c / 3 % 2 == if c % 6 < 3 then 0 else 1
  {
    assert c / 3 == 2 * (c / 6) + c % 6 / 3;
  }

  lemma DiagonalsOf(r: nat, c: nat)
    ensures (r + c) % 3 == 0 <==> (r % 3, c % 3) in {(0, 0), (1, 2), (2, 1)}
  {
  }

  // ---- the fixed patterns ----

  /** The finder and alignment patterns are concentric rings around a centre. */
  datatype Pattern = FinderPattern | AlignmentPattern {
    function Width(): nat {
      if this == FinderPattern then 7 else 5
    }

    function BitAt(i: int, j: int): Bit {
      var centre := Width() / 2;
      var ring := if Abs(i - centre) > Abs(j - centre) then Abs(i - centre) else Abs(j - centre);
      if ring == centre - 1 then 0 else 1
    }
  }

  function Rect(r: int, c: int, h: nat, w: nat): (s: set<Pos>)
    ensures forall p :: p in s <==> r <= p.r < r + h && c <= p.c < c + w
  {
    set i, j | r <= i < r + h && c <= j < c + w :: Pos(i, j)
  }

  function Stamp(r: int, c: int, pattern: Pattern): (g: Grid)
    ensures g.Keys == Rect(r, c, pattern.Width(), pattern.Width())
  {
    map p | p in Rect(r, c, pattern.Width(), pattern.Width()) :: pattern.BitAt(p.r - r, p.c - c)
  }

  function Finders(n: nat): (g: Grid) {
    Stamp(0, 0, FinderPattern) + Stamp(0, n - 7, FinderPattern) + Stamp(n - 7, 0, FinderPattern)
  }

  /** Of the centres in the table only the one at (n-7, n-7) lies outside the finders. */
  function Alignments(version: nat, n: nat): (g: Grid)
    ensures g.Keys == AlignmentCells(version, n)
  {
    if 2 <= version <= 5 then Stamp(n - 9, n - 9, AlignmentPattern) else map[]
  }

  function Timing(n: nat): (g: Grid)
    ensures g.Keys == TimingCells(n)
  {
    map p | p in Cells(n) && (p.r == 6 || p.c == 6) :: if (if p.r == 6 then p.c else p.r) % 2 == 0 then 1 else 0
  }

  // ---- format information ----

  /** One step of the division by the generator 0b10100110111. */
  function FormatStep(rem: bv16, i: nat): bv16
    requires 10 <= i <= 14
  {
    if rem & (1 << i) != 0 then rem ^ (0x537 << (i - 10)) else rem
  }

  function FormatRem(data: bv16, i: nat): bv16
    requires 10 <= i <= 15
    decreases 15 - i
  {
    if i == 15 then data else FormatStep(FormatRem(data, i + 1), i)
  }

  function FormatWord(mask: bv16): bv16 {
    ((mask << 10) | (FormatRem(mask << 10, 10) & 0x3FF)) ^ 0x5412
  }

  function MaskWord(mask: nat): bv16 {
    if mask == 0 then 0 else if mask == 1 then 1 else if mask == 2 then 2 else if mask == 3 then 3
    else if mask == 4 then 4 else if mask == 5 then 5 else if mask == 6 then 6 else 7
  }

  function FormatBit(mask: nat, i: nat): Bit
    requires i < 15
  {
    if (FormatWord(MaskWord(mask)) >> i) & 1 == 1 then 1 else 0
  }

  function FormatA(i: nat): Pos {
    if i < 6 then Pos(8, i) else if i == 6 then Pos(8, 7) else if i == 7 then Pos(8, 8)
    else if i == 8 then Pos(7, 8) else Pos(14 - i, 8)
  }

  function FormatB(n: int, i: nat): Pos {
    if i < 8 then Pos(n - 1 - i, 8) else Pos(8, n - 15 + i)
  }

  /** The cells of both copies of the format word, lowest bit first. */
  lemma FormatCellsAre(n: int)
    ensures seq(15, i requires 0 <= i < 15 => FormatA(i)) ==
            [Pos(8, 0), Pos(8, 1), Pos(8, 2), Pos(8, 3), Pos(8, 4), Pos(8, 5), Pos(8, 7), Pos(8, 8),
             Pos(7, 8), Pos(5, 8), Pos(4, 8), Pos(3, 8), Pos(2, 8), Pos(1, 8), Pos(0, 8)]
    ensures seq(15, i requires 0 <= i < 15 => FormatB(n, i)) ==
            [Pos(n - 1, 8), Pos(n - 2, 8), Pos(n - 3, 8), Pos(n - 4, 8), Pos(n - 5, 8), Pos(n - 6, 8), Pos(n - 7, 8),
             Pos(n - 8, 8), Pos(8, n - 7), Pos(8, n - 6), Pos(8, n - 5), Pos(8, n - 4), Pos(8, n - 3), Pos(8, n - 2),
             Pos(8, n - 1)]
  {
  }

  function FormatUpTo(n: int, mask: nat, k: nat): Grid
    requires k <= 15
  {
    if k == 0 then map[]
    else FormatUpTo(n, mask, k - 1)[FormatA(k - 1) := FormatBit(mask, k - 1)][FormatB(n, k - 1) := FormatBit(mask, k - 1)]
  }

  function Format(n: int, mask: nat): Grid {
    FormatUpTo(n, mask, 15)[Pos(8, n - 8) := 1]
  }

  /** Both copies of the format word read back as written. */
  lemma {:induction false} FormatRead(n: int, mask: nat, k: nat)
    requires k <= 15 && n >= 21
    ensures forall i :: 0 <= i < k ==>
              && FormatA(i) in FormatUpTo(n, mask, k) && FormatUpTo(n, mask, k)[FormatA(i)] == FormatBit(mask, i)
              && FormatB(n, i) in FormatUpTo(n, mask, k) && FormatUpTo(n, mask, k)[FormatB(n, i)] == FormatBit(mask, i)
  {
    hide FormatBit;
    if k > 0 {
      FormatRead(n, mask, k - 1);
      forall i | 0 <= i < k - 1
        ensures FormatA(i) != FormatA(k - 1) && FormatA(i) != FormatB(n, k - 1)
        ensures FormatB(n, i) != FormatA(k - 1) && FormatB(n, i) != FormatB(n, k - 1)
      {
      }
    }
  }

  lemma FormatNextKeys(n: int, mask: nat, k: nat)
    requires 0 < k <= 15
    ensures FormatUpTo(n, mask, k).Keys == FormatUpTo(n, mask, k - 1).Keys + {FormatA(k - 1)} + {FormatB(n, k - 1)}
  {
    hide FormatBit, FormatA, FormatB;
  }

  lemma {:induction false} FormatSameKeys(n: int, mask: nat, k: nat)
    requires k <= 15
    ensures FormatUpTo(n, mask, k).Keys == FormatUpTo(n, 0, k).Keys
  {
    hide FormatBit, FormatA, FormatB;
    if k > 0 {
      FormatSameKeys(n, mask, k - 1);
      FormatNextKeys(n, mask, k);
      FormatNextKeys(n, 0, k);
    }
  }

  lemma {:induction false} FormatCount(n: int, mask: nat, k: nat)
    requires k <= 15
    ensures |FormatUpTo(n, mask, k).Keys| <= 2 * k
  {
    hide FormatBit, FormatA, FormatB;
    if k > 0 {
      FormatCount(n, mask, k - 1);
      FormatNextKeys(n, mask, k);
    }
  }

  predicate FormatArea(n: int, p: Pos) {
    || (p.r == 8 && (0 <= p.c <= 8 || n - 8 <= p.c < n))
    || (p.c == 8 && (0 <= p.r <= 8 || n - 8 <= p.r < n))
  }

  lemma {:induction false} FormatCells(n: int, mask: nat, k: nat)
    requires k <= 15 && n >= 21
    ensures forall p :: p in FormatUpTo(n, mask, k) ==> FormatArea(n, p)
  {
    if k > 0 {
      FormatCells(n, mask, k - 1);
      FormatNextKeys(n, mask, k);
      assert FormatArea(n, FormatA(k - 1)) && FormatArea(n, FormatB(n, k - 1));
    }
  }

  /** The top three data bits of the format word spell the mask. */
  lemma FormatSpellsMask(mask: nat)
    requires mask < 8
    ensures (1 - FormatBit(mask, 10)) + 2 * FormatBit(mask, 11) + 4 * (1 - FormatBit(mask, 12)) == mask
  {
    FormatWords();
  }

  lemma FormatWords()
    ensures FormatWord(0) == 0x5412 && FormatWord(1) == 0x5125 && FormatWord(2) == 0x5E7C && FormatWord(3) == 0x5B4B
    ensures FormatWord(4) == 0x45F9 && FormatWord(5) == 0x40CE && FormatWord(6) == 0x4F97 && FormatWord(7) == 0x4AA0
  {
    FormatRemIs(0);
    FormatRemIs(1 << 10);
    FormatRemIs(2 << 10);
    FormatRemIs(3 << 10);
    FormatRemIs(4 << 10);
    FormatRemIs(5 << 10);
    FormatRemIs(6 << 10);
    FormatRemIs(7 << 10);
  }

  lemma FormatRemIs(data: bv16)
    ensures FormatRem(data, 10) ==
            FormatStep(FormatStep(FormatStep(FormatStep(FormatStep(data, 14), 13), 12), 11), 10)
  {
    assert FormatRem(data, 13) == FormatStep(FormatStep(data, 14), 13);
  }

  function Ones(x: bv16): nat {
    One(x, 0) + One(x, 1) + One(x, 2) + One(x, 3) + One(x, 4) + One(x, 5) + One(x, 6) + One(x, 7)
    + One(x, 8) + One(x, 9) + One(x, 10) + One(x, 11) + One(x, 12) + One(x, 13) + One(x, 14)
  }

  function One(x: bv16, i: nat): nat
    requires i < 15
  {
    if (x >> i) & 1 == 1 then 1 else 0
  }

  lemma OnesOfDifferences()
    ensures Ones(0x537) >= 7 && Ones(0xA6E) >= 7 && Ones(0xF59) >= 7 && Ones(0x11EB) >= 7
    ensures Ones(0x14DC) >= 7 && Ones(0x1B85) >= 7 && Ones(0x1EB2) >= 7
  {
  }

  /** Format words of different masks differ in at least 7 of their 15 bits. */
  lemma FormatDistance(m1: nat, m2: nat)
    requires m1 < m2 < 8
    ensures Ones(FormatWord(MaskWord(m1)) ^ FormatWord(MaskWord(m2))) >= 7
  {
    hide Ones;
    OnesOfDifferences();
    FormatWords();
    hide FormatWord;
    if m1 == 0 {
    } else if m1 == 1 {
    } else if m1 == 2 {
    } else if m1 == 3 {
    } else if m1 == 4 {
    }
  }

  // ---- the symbol ----

  /** Everything placed before the data. */
  function Base(version: nat, mask: nat): Grid
    requires 1 <= version <= 5
  {
    var n := Size(version);
    Timing(n) + (Finders(n) + Alignments(version, n)) + Format(n, mask)
  }

  /** Unset cells become 0; the mask flips the others outside the function cells. */
  function Masked(g: Grid, version: nat, mask: nat): (m: Grid)
    requires 1 <= version <= 5
    ensures m.Keys == Cells(Size(version))
  {
    var n := Size(version);
    map p | p in Cells(n) ::
      if p !in g then 0
      else if !IsFunction(version, n, p.r, p.c) && MaskBit(mask, p.r, p.c) then 1 - g[p]
      else g[p]
  }

  function Symbol(version: nat, mask: nat, bits: seq<Bit>): (s: Grid)
    requires 1 <= version <= 5
  {
    var n := Size(version);
    Masked(Fill(Base(version, mask), Zigzag(n), bits), version, mask) + Format(n, mask)
  }

  /** The cells left for data, in the order they are filled. */
  function DataCells(version: nat): seq<Pos>
    requires 1 <= version <= 5
  {
    FreeCells(BaseCells(version), Zigzag(Size(version)))
  }

  lemma FormatAllKeys(n: int, mask: nat)
    requires n >= 21
    ensures Format(n, mask).Keys == Format(n, 0).Keys
    ensures |Format(n, mask).Keys| <= 31
    ensures forall p :: p in Format(n, mask) ==> FormatArea(n, p)
  {
    hide FormatBit, FormatUpTo;
    FormatSameKeys(n, mask, 15);
    FormatCount(n, mask, 15);
    FormatCells(n, mask, 15);
    var f := FormatUpTo(n, mask, 15);
    assert Format(n, mask).Keys == f.Keys + {Pos(8, n - 8)};
    assert Format(n, 0).Keys == FormatUpTo(n, 0, 15).Keys + {Pos(8, n - 8)};
  }

  lemma FormatReadA(n: int, mask: nat, i: nat)
    requires n >= 21 && i < 15
    ensures FormatA(i) in Format(n, mask) && Format(n, mask)[FormatA(i)] == FormatBit(mask, i)
  {
    hide FormatBit, FormatUpTo;
    FormatRead(n, mask, 15);
    assert FormatA(i) != Pos(8, n - 8);
  }

  function TimingCells(n: nat): set<Pos> {
    set p | p in Cells(n) && (p.r == 6 || p.c == 6)
  }

  function BaseCells(version: nat): set<Pos>
    requires 1 <= version <= 5
  {
    var n := Size(version);
    Union(TimingCells(n), Rect(0, 0, 7, 7), Rect(0, n - 7, 7, 7), Rect(n - 7, 0, 7, 7),
          AlignmentCells(version, n), Format(n, 0).Keys)
  }

  function Union(t: set<Pos>, r1: set<Pos>, r2: set<Pos>, r3: set<Pos>, al: set<Pos>, f: set<Pos>): set<Pos> {
    t + (r1 + r2 + r3 + al) + f
  }

  function AlignmentCells(version: nat, n: nat): set<Pos> {
    if 2 <= version <= 5 then Rect(n - 9, n - 9, 5, 5) else {}
  }

  lemma MergeKeys(a: Grid, b: Grid)
    ensures (a + b).Keys == a.Keys + b.Keys
  {
  }

  /** Which cells are set before the data does not depend on the mask. */
  lemma BaseKeys(version: nat, mask: nat)
    requires 1 <= version <= 5
    ensures Base(version, mask).Keys == BaseCells(version)
  {
    hide Format, Stamp, Rect, TimingCells, AlignmentCells, Alignments;
    var n := Size(version);
    var f1, f2, f3 := Stamp(0, 0, FinderPattern), Stamp(0, n - 7, FinderPattern), Stamp(n - 7, 0, FinderPattern);
    var al := Alignments(version, n);
    MergeKeys(f1, f2);
    MergeKeys(f1 + f2, f3);
    MergeKeys(f1 + f2 + f3, al);
    MergeKeys(Timing(n), f1 + f2 + f3 + al);
    MergeKeys(Timing(n) + (f1 + f2 + f3 + al), Format(n, mask));
    FormatAllKeys(n, mask);
  }

  lemma InUnion(p: Pos, t: set<Pos>, r1: set<Pos>, r2: set<Pos>, r3: set<Pos>, al: set<Pos>, f: set<Pos>)
    ensures p in Union(t, r1, r2, r3, al, f) <==> p in t || p in r1 || p in r2 || p in r3 || p in al || p in f
  {
  }

  /** They lie in the grid, include column 6 and are all function cells. */
  lemma BaseCellsAreFunction(version: nat, p: Pos)
    requires 1 <= version <= 5
    ensures p in BaseCells(version) ==> p in Cells(Size(version)) && IsFunction(version, Size(version), p.r, p.c)
    ensures p in Cells(Size(version)) && p.c == 6 ==> p in BaseCells(version)
  {
    hide Format, InAlignment, Union, Rect;
    var n := Size(version);
    FormatAllKeys(n, 0);
    if version >= 2 {
      AlignmentIsFunction(version);
    }
    InUnion(p, TimingCells(n), Rect(0, 0, 7, 7), Rect(0, n - 7, 7, 7), Rect(n - 7, 0, 7, 7),
            AlignmentCells(version, n), Format(n, 0).Keys);
  }

  lemma FormatReadB(n: int, mask: nat, i: nat)
    requires n >= 21 && i < 15
    ensures FormatB(n, i) in Format(n, mask) && Format(n, mask)[FormatB(n, i)] == FormatBit(mask, i)
  {
    hide FormatBit, FormatUpTo;
    FormatRead(n, mask, 15);
    assert FormatB(n, i) != Pos(8, n - 8);
  }

  /** The format cells fill their area but for the timing cells in it. */
  lemma FormatFillsArea(n: int, p: Pos)
    requires n >= 21 && FormatArea(n, p) && p.r != 6 && p.c != 6
    ensures p in Format(n, 0)
  {
    hide Format;
    if p == Pos(8, n - 8) {
      DarkCell(n);
    } else if p.r == 8 && p.c > 8 {
      FormatReadB(n, 0, p.c - n + 15);
    } else if p.r == 8 {
      FormatReadA(n, 0, if p.c < 6 then p.c else p.c - 1);
    } else if p.r > 8 {
      FormatReadB(n, 0, n - 1 - p.r);
    } else {
      FormatReadA(n, 0, if p.r == 7 then 8 else 14 - p.r);
    }
  }

  lemma DarkCell(n: int)
    ensures Pos(8, n - 8) in Format(n, 0)
  {
    hide FormatUpTo;
  }

  /** The cells set before the data: the timing lines, three 7x7 corners without separators, the
      alignment square and the format cells. */
  lemma BaseCellsAre(version: nat, p: Pos)
    requires 1 <= version <= 5
    ensures var n := 17 + 4 * version;
            p in BaseCells(version) <==>
            && 0 <= p.r < n && 0 <= p.c < n
            && (|| p.r == 6 || p.c == 6
                || (p.r < 7 && (p.c < 7 || p.c >= n - 7)) || (p.r >= n - 7 && p.c < 7)
                || (version >= 2 && n - 9 <= p.r <= n - 5 && n - 9 <= p.c <= n - 5)
                || (p.r == 8 && (p.c <= 8 || p.c >= n - 8)) || (p.c == 8 && (p.r <= 8 || p.r >= n - 8)))
  {
    hide Format;
    var n := Size(version);
    FormatAllKeys(n, 0);
    if FormatArea(n, p) && p.r != 6 && p.c != 6 {
      FormatFillsArea(n, p);
    }
    InUnion(p, TimingCells(n), Rect(0, 0, 7, 7), Rect(0, n - 7, 7, 7), Rect(n - 7, 0, 7, 7),
            AlignmentCells(version, n), Format(n, 0).Keys);
    hide Union;
  }

  lemma AlignmentIsFunction(version: nat)
    requires 2 <= version <= 5
    ensures var n := Size(version); forall p :: p in Rect(n - 9, n - 9, 5, 5) ==> InAlignment(version, n, p.r, p.c)
  {
    var n := Size(version);
    assert n - 7 in AlignmentCenters(version) by { assert AlignmentCenters(version)[1] == n - 7; }
    assert !InFinder(n, n - 7, n - 7);
  }

  // ---- reading the symbol ----

  /** Everything placed before the data survives filling, masking and the second
      writing of the format. */
  lemma SymbolKeepsBase(version: nat, mask: nat, bits: seq<Bit>, p: Pos)
    requires 1 <= version <= 5 && p in BaseCells(version)
    ensures p in Base(version, mask) && p in Symbol(version, mask, bits)
    ensures Symbol(version, mask, bits)[p] == Base(version, mask)[p]
  {
    hide Format, IsFunction, MaskBit, BaseCells, Fill, Timing, Finders, Alignments;
    var n := Size(version);
    var base := Base(version, mask);
    BaseKeys(version, mask);
    BaseCellsAreFunction(version, p);
    FillKeeps(base, Zigzag(n), bits);
  }

  /** What stands in a cell before the data: of patterns that share it, the one placed last. */
  lemma BaseAt(version: nat, mask: nat, p: Pos)
    requires 1 <= version <= 5 && p in Base(version, mask)
    ensures var n := Size(version);
            && (p in Format(n, mask) ==> Base(version, mask)[p] == Format(n, mask)[p])
            && (p !in Format(n, mask) && p in Alignments(version, n) ==> Base(version, mask)[p] == Alignments(version, n)[p])
            && (p !in Format(n, mask) && p !in Alignments(version, n) && p in Finders(n) ==>
                  Base(version, mask)[p] == Finders(n)[p])
            && (p !in Format(n, mask) && p !in Alignments(version, n) && p !in Finders(n) ==>
                  p in Timing(n) && Base(version, mask)[p] == Timing(n)[p])
  {
    hide Format, Alignments, Finders, Timing;
  }

  /** The border of the square of rows and columns lo to hi. */
  predicate OnBorder(i: int, j: int, lo: int, hi: int) {
    (i in {lo, hi} && lo <= j <= hi) || (j in {lo, hi} && lo <= i <= hi)
  }

  lemma FinderBit(i: int, j: int)
    requires 0 <= i < 7 && 0 <= j < 7
    ensures FinderPattern.BitAt(i, j) == if OnBorder(i, j, 1, 5) then 0 else 1
  {
  }

  lemma AlignmentBit(i: int, j: int)
    requires 0 <= i < 5 && 0 <= j < 5
    ensures AlignmentPattern.BitAt(i, j) == if OnBorder(i, j, 1, 3) then 0 else 1
  {
  }

  predicate Corner(n: int, r: int, c: int) {
    (r == 0 && c == 0) || (r == 0 && c == n - 7) || (r == n - 7 && c == 0)
  }

  lemma PatternCellsInBase(version: nat, p: Pos)
    requires 1 <= version <= 5
    ensures var n := Size(version);
            (exists r, c :: Corner(n, r, c) && p in Rect(r, c, 7, 7)) || p in AlignmentCells(version, n) || p in TimingCells(n)
            ==> p in BaseCells(version)
  {
    hide Rect, AlignmentCells, TimingCells, Format;
    var n := Size(version);
    InUnion(p, TimingCells(n), Rect(0, 0, 7, 7), Rect(0, n - 7, 7, 7), Rect(n - 7, 0, 7, 7),
            AlignmentCells(version, n), Format(n, 0).Keys);
    hide Union;
  }

  /** No format cell lies on a finder, an alignment pattern or a timing line. */
  lemma PatternsApart(version: nat, mask: nat, p: Pos)
    requires 1 <= version <= 5
    ensures var n := Size(version);
            && (p in Format(n, mask) ==> p.r == 8 || p.c == 8)
            && (p in AlignmentCells(version, n) ==> p.r > 8 && p.c > 8 && p.r < n - 4 && p.c < n - 4)
  {
    hide Format;
    FormatAllKeys(Size(version), mask);
  }

  lemma FindersAt(n: nat, r: int, c: int, p: Pos)
    requires n >= 21 && Corner(n, r, c) && p in Rect(r, c, 7, 7)
    ensures p in Finders(n) && Finders(n)[p] == if OnBorder(p.r - r, p.c - c, 1, 5) then 0 else 1
  {
    FinderBit(p.r - r, p.c - c);
    hide OnBorder;
  }

  /** In every finished symbol the three finders: dark but for a light square within. */
  lemma SymbolFinders(version: nat, mask: nat, bits: seq<Bit>, r: int, c: int, p: Pos)
    requires 1 <= version <= 5 && Corner(Size(version), r, c) && r <= p.r < r + 7 && c <= p.c < c + 7
    ensures p in Symbol(version, mask, bits)
    ensures Symbol(version, mask, bits)[p] == if OnBorder(p.r - r, p.c - c, 1, 5) then 0 else 1
  {
    hide Symbol, Base, BaseCells, Format, Timing, Finders, Alignments, Rect, OnBorder;
    var n := Size(version);
    assert p in Rect(r, c, 7, 7);
    PatternCellsInBase(version, p);
    PatternsApart(version, mask, p);
    hide AlignmentCells;
    SymbolKeepsBase(version, mask, bits, p);
    BaseAt(version, mask, p);
    FindersAt(n, r, c, p);
  }

  /** From version 2 on the alignment pattern around (n-7, n-7). */
  lemma SymbolAlignment(version: nat, mask: nat, bits: seq<Bit>, p: Pos)
    requires 2 <= version <= 5
    requires var n := Size(version); n - 9 <= p.r <= n - 5 && n - 9 <= p.c <= n - 5
    ensures p in Symbol(version, mask, bits)
    ensures var n := Size(version);
            Symbol(version, mask, bits)[p] == if OnBorder(p.r - (n - 9), p.c - (n - 9), 1, 3) then 0 else 1
  {
    hide Symbol, Base, BaseCells, Format, Timing, Finders, Rect, OnBorder;
    var n := Size(version);
    assert p in AlignmentCells(version, n);
    PatternCellsInBase(version, p);
    PatternsApart(version, mask, p);
    SymbolKeepsBase(version, mask, bits, p);
    BaseAt(version, mask, p);
    AlignmentsAt(version, p);
  }

  lemma AlignmentsAt(version: nat, p: Pos)
    requires 2 <= version <= 5
    requires p in AlignmentCells(version, Size(version))
    ensures var n := Size(version);
            && p in Alignments(version, n)
            && Alignments(version, n)[p] == if OnBorder(p.r - (n - 9), p.c - (n - 9), 1, 3) then 0 else 1
  {
    var n := Size(version);
    AlignmentBit(p.r - (n - 9), p.c - (n - 9));
    hide OnBorder;
  }

  /** Between the finders dark and light cells in turn. */
  lemma SymbolTiming(version: nat, mask: nat, bits: seq<Bit>, k: int)
    requires 1 <= version <= 5 && 7 <= k < Size(version) - 7
    ensures var s := Symbol(version, mask, bits);
            && Pos(6, k) in s && s[Pos(6, k)] == 1 - k % 2
            && Pos(k, 6) in s && s[Pos(k, 6)] == 1 - k % 2
  {
    hide Symbol;
    TimingStays(version, mask, bits, Pos(6, k));
    TimingStays(version, mask, bits, Pos(k, 6));
  }

  lemma TimingStays(version: nat, mask: nat, bits: seq<Bit>, p: Pos)
    requires 1 <= version <= 5
    requires var n := Size(version); (p.r == 6 && 7 <= p.c < n - 7) || (p.c == 6 && 7 <= p.r < n - 7)
    ensures p in Symbol(version, mask, bits)
    ensures Symbol(version, mask, bits)[p] == 1 - (if p.r == 6 then p.c else p.r) % 2
  {
    hide Symbol, Base, BaseCells, Format, Finders, Alignments, Rect;
    var n := Size(version);
    FormatSkipsTiming(n, mask, 15, p);
    FinderKeys(n, p);
    assert p in TimingCells(n);
    PatternCellsInBase(version, p);
    PatternsApart(version, mask, p);
    hide AlignmentCells;
    SymbolKeepsBase(version, mask, bits, p);
    BaseAt(version, mask, p);
  }

  lemma FinderKeys(n: nat, p: Pos)
    ensures p in Finders(n) ==> p.r < 7 || p.c < 7
    ensures p in Finders(n) ==> (p.r < 7 || n - 7 <= p.r) && (p.c < 7 || n - 7 <= p.c)
  {
  }

  lemma {:induction false} FormatSkipsTiming(n: int, mask: nat, k: nat, p: Pos)
    requires k <= 15 && n >= 21 && (p.r == 6 || p.c == 6)
    ensures p !in FormatUpTo(n, mask, k)
    ensures k == 15 ==> p !in Format(n, mask)
  {
    hide FormatBit;
    if k > 0 {
      FormatSkipsTiming(n, mask, k - 1, p);
    }
  }

  /** Both copies of the format word stand in the finished symbol, and one cell that is always dark. */
  lemma SymbolFormat(version: nat, mask: nat, bits: seq<Bit>, i: nat)
    requires 1 <= version <= 5 && i < 15
    ensures var n, s := Size(version), Symbol(version, mask, bits);
            && FormatA(i) in s && s[FormatA(i)] == FormatBit(mask, i)
            && FormatB(n, i) in s && s[FormatB(n, i)] == FormatBit(mask, i)
            && Pos(8, n - 8) in s && s[Pos(8, n - 8)] == 1
  {
    hide FormatBit, Format, FormatA, FormatB, Masked, Fill, Base;
    FormatReadA(Size(version), mask, i);
    FormatReadB(Size(version), mask, i);
    SymbolDarkCell(version, mask, bits);
  }

  lemma SymbolDarkCell(version: nat, mask: nat, bits: seq<Bit>)
    requires 1 <= version <= 5
    ensures var p := Pos(8, Size(version) - 8);
            p in Symbol(version, mask, bits) && Symbol(version, mask, bits)[p] == 1
  {
    hide FormatUpTo, Masked, Fill, Base;
  }

  /** The rest of a symbol, cell by cell: a cell that the zigzag reaches and that was free holds the bit
      whose number is the number of free cells reached before it, flipped by the mask unless it counts as
      a function cell; past the last bit it holds 0. */
  lemma SymbolDataAt(version: nat, mask: nat, bits: seq<Bit>, m: nat)
    requires 1 <= version <= 5 && m < |Zigzag(Size(version))| && Zigzag(Size(version))[m] !in BaseCells(version)
    ensures var n := Size(version);
            var p, j := Zigzag(n)[m], |FreeBefore(BaseCells(version), Zigzag(n), m)|;
            var bit := if j < |bits| then bits[j] else 0;
            && p in Cells(n) && p in Symbol(version, mask, bits)
            && Symbol(version, mask, bits)[p] ==
               if MaskBit(mask, p.r, p.c) && !IsFunction(version, n, p.r, p.c) then 1 - bit else bit
  {
    hide Format, IsFunction, MaskBit, BaseCells, Fill, Base, Zigzag, FreeBefore;
    var n := Size(version);
    var p := Zigzag(n)[m];
    BaseKeys(version, mask);
    ZigzagVisitsOnce(n);
    FormatInBase(version, mask, p);
    FillAt(Base(version, mask), Zigzag(n), bits, m);
  }

  /** Undoing the mask on a data cell gives the bit that was placed there. */
  lemma SymbolData(version: nat, mask: nat, bits: seq<Bit>, p: Pos)
    requires 1 <= version <= 5 && p in Cells(Size(version)) && p !in BaseCells(version)
    ensures p in Fill(Base(version, mask), Zigzag(Size(version)), bits)
    ensures Masked(Symbol(version, mask, bits), version, mask)[p]
            == Fill(Base(version, mask), Zigzag(Size(version)), bits)[p]
  {
    hide Format, IsFunction, MaskBit, BaseCells, Fill, Base, Zigzag;
    var n := Size(version);
    BaseKeys(version, mask);
    BaseCellsAreFunction(version, p);
    FillKeeps(Base(version, mask), Zigzag(n), bits);
    ZigzagVisitsOnce(n);
    FormatInBase(version, mask, p);
  }

  lemma FormatInBase(version: nat, mask: nat, p: Pos)
    requires 1 <= version <= 5
    ensures p in Format(Size(version), mask) ==> p in BaseCells(version)
  {
    hide Format;
    FormatAllKeys(Size(version), mask);
  }

  lemma DataCellsAre(version: nat)
    requires 1 <= version <= 5
    ensures NoRepeat(DataCells(version))
    ensures forall p :: p in DataCells(version) <==> p in Cells(Size(version)) && p !in BaseCells(version)
  {
    hide BaseCells, Zigzag;
    ZigzagVisitsOnce(Size(version));
    FreeCellsOf(BaseCells(version), Zigzag(Size(version)));
    forall p: Pos ensures p in Cells(Size(version)) && p.c == 6 ==> p in BaseCells(version) {
      BaseCellsAreFunction(version, p);
    }
  }

  /** Reading the data cells after undoing the mask returns the bits followed by zeros. */
  lemma SymbolRoundTrip(version: nat, mask: nat, bits: seq<Bit>)
    requires 1 <= version <= 5
    ensures forall p :: p in DataCells(version) ==> p in Cells(Size(version))
    ensures Read(Masked(Symbol(version, mask, bits), version, mask), DataCells(version))
            == Fit(bits, |DataCells(version)|)
  {
    hide BaseCells, Zigzag, Symbol, Masked, Base, DataCells, Read, Fit;
    var n := Size(version);
    var base := Base(version, mask);
    BaseKeys(version, mask);
    ZigzagVisitsOnce(n);
    DataCellsAre(version);
    FillRead(base, Zigzag(n), bits);
    DataCellsOf(version, mask);
    var cells := DataCells(version);
    var full, unmasked := Fill(base, Zigzag(n), bits), Masked(Symbol(version, mask, bits), version, mask);
    forall p | p in cells ensures p in full && unmasked[p] == full[p] {
      SymbolData(version, mask, bits, p);
    }
    SameReading(unmasked, full, cells);
  }

  lemma DataCellsOf(version: nat, mask: nat)
    requires 1 <= version <= 5
    ensures DataCells(version) == FreeCells(Base(version, mask).Keys, Zigzag(Size(version)))
  {
    hide Zigzag, Base, BaseCells, FreeCells;
    BaseKeys(version, mask);
  }

  lemma SameReading(g: Grid, h: Grid, cells: seq<Pos>)
    requires forall p :: p in cells ==> p in g && p in h && g[p] == h[p]
    ensures Read(g, cells) == Read(h, cells)
  {
  }

  /** The mask number, read from three cells of the first format copy. */
  function ReadMask(s: Grid): int
    requires Pos(4, 8) in s && Pos(3, 8) in s && Pos(2, 8) in s
  {
    var b10: int, b11: int, b12: int := s[Pos(4, 8)], s[Pos(3, 8)], s[Pos(2, 8)];
    (1 - b10) + 2 * b11 + 4 * (1 - b12)
  }

  lemma SymbolSpellsMask(version: nat, mask: nat, bits: seq<Bit>)
    requires 1 <= version <= 5 && mask < 8
    ensures var s := Symbol(version, mask, bits);
            Pos(4, 8) in s && Pos(3, 8) in s && Pos(2, 8) in s && ReadMask(s) == mask
  {
    hide Format, FormatBit, Masked, Fill, Base;
    var n := Size(version);
    FormatReadA(n, mask, 10);
    FormatReadA(n, mask, 11);
    FormatReadA(n, mask, 12);
    FormatSpellsMask(mask);
  }

  // ---- how much data fits ----

  lemma {:induction false} RowCount(r: int, c: int, w: nat)
    ensures |Rect(r, c, 1, w)| == w
  {
    hide Rect;
    if w == 0 {
      assert Rect(r, c, 1, w) == {};
    } else {
      RowCount(r, c, w - 1);
      assert Rect(r, c, 1, w) == Rect(r, c, 1, w - 1) + {Pos(r, c + w - 1)};
    }
  }

  function Area(h: nat, w: nat): nat {
    if h == 0 then 0 else Area(h - 1, w) + w
  }

  lemma {:induction false} AreaIsProduct(h: nat, w: nat)
    ensures Area(h, w) == h * w
  {
    if h > 0 {
      AreaIsProduct(h - 1, w);
      assert h * w == (h - 1) * w + w;
    }
  }

  lemma {:induction false} RectArea(r: int, c: int, h: nat, w: nat)
    ensures |Rect(r, c, h, w)| == Area(h, w)
  {
    hide Rect;
    if h == 0 {
      assert Rect(r, c, h, w) == {};
    } else {
      var above, last := Rect(r, c, h - 1, w), Rect(r + h - 1, c, 1, w);
      RectArea(r, c, h - 1, w);
      RowCount(r + h - 1, c, w);
      assert Rect(r, c, h, w) == above + last && above !! last;
    }
  }

  lemma RectCount(r: int, c: int, h: nat, w: nat)
    ensures |Rect(r, c, h, w)| == h * w
  {
    hide Rect, Area;
    RectArea(r, c, h, w);
    AreaIsProduct(h, w);
  }

  ghost function SetOf(s: seq<Pos>): set<Pos> {
    set p | p in s
  }

  lemma {:induction false} NoRepeatCount(s: seq<Pos>)
    requires NoRepeat(s)
    ensures |SetOf(s)| == |s|
  {
    if s == [] {
      assert SetOf(s) == {};
    } else {
      NoRepeatCount(s[1..]);
      assert SetOf(s) == SetOf(s[1..]) + {s[0]};
      assert s[0] !in s[1..];
    }
  }

  lemma UnionCount(a: set<Pos>, b: set<Pos>)
    ensures |a + b| <= |a| + |b|
  {
    assert a + b == a + (b - a);
    SubsetSize(b - a, b);
  }

  lemma UnionTotal(t: set<Pos>, r1: set<Pos>, r2: set<Pos>, r3: set<Pos>, al: set<Pos>, f: set<Pos>)
    ensures |Union(t, r1, r2, r3, al, f)| <= |t| + |r1| + |r2| + |r3| + |al| + |f|
  {
    var r12 := r1 + r2;
    var r123 := r12 + r3;
    var r := r123 + al;
    var tr := t + r;
    UnionCount(r1, r2);
    UnionCount(r12, r3);
    UnionCount(r123, al);
    UnionCount(t, r);
    UnionCount(tr, f);
  }

  lemma BaseCount(version: nat)
    requires 1 <= version <= 5
    ensures |BaseCells(version)| <= 178 + 2 * Size(version) + (if version >= 2 then 25 else 0)
  {
    hide Format, Rect, TimingCells, AlignmentCells, Union;
    var n := Size(version);
    RectCount(0, 0, 7, 7);
    RectCount(0, n - 7, 7, 7);
    RectCount(n - 7, 0, 7, 7);
    AlignmentCount(version, n);
    TimingCount(n);
    FormatAllKeys(n, 0);
    UnionTotal(TimingCells(n), Rect(0, 0, 7, 7), Rect(0, n - 7, 7, 7), Rect(n - 7, 0, 7, 7),
               AlignmentCells(version, n), Format(n, 0).Keys);
  }

  lemma AlignmentCount(version: nat, n: nat)
    ensures |AlignmentCells(version, n)| <= if 2 <= version then 25 else 0
  {
    hide Rect;
    RectCount(n - 9, n - 9, 5, 5);
  }

  lemma TimingCount(n: nat)
    ensures |TimingCells(n)| <= 2 * n
  {
    RectCount(6, 0, 1, n);
    RectCount(0, 6, n, 1);
    SubsetSize(TimingCells(n), Rect(6, 0, 1, n) + Rect(0, 6, n, 1));
  }

  /** Data cells left by versions 1 to 5. */
  lemma Capacity(version: nat)
    requires 1 <= version <= 5
    ensures var n := Size(version);
            |DataCells(version)| >= n * n - 178 - 2 * n - (if version >= 2 then 25 else 0)
  {
    hide BaseCells, DataCells;
    var n := Size(version);
    DataCellsAre(version);
    NoRepeatCount(DataCells(version));
    BaseCount(version);
    RectCount(0, 0, n, n);
    assert Cells(n) == Rect(0, 0, n, n);
    assert SetOf(DataCells(version)) == Cells(n) - BaseCells(version);
    SubsetSize(Cells(n), (Cells(n) - BaseCells(version)) + BaseCells(version));
  }
}
