/** How far apart the matrices of different texts are, and how much damage leaves the text determined. */
module QrDamage {
  import opened Basics
  import opened ByteField
  import opened QrEncoder
  import opened QrGrid
  import opened QrMatrix
  import opened QrPayload
  import RS = ReedSolomon

  // ---- interleaved blocks ----

  /** Blocks of the same lengths. */
  ghost predicate Alike(xs: seq<seq<Byte>>, ys: seq<seq<Byte>>) {
    |xs| == |ys| && forall b :: 0 <= b < |xs| ==> |xs[b]| == |ys[b]|
  }

  lemma {:induction false} ColumnsAlike(xs: seq<seq<Byte>>, ys: seq<seq<Byte>>, i: nat)
    requires Alike(xs, ys)
    ensures |Column(xs, i)| == |Column(ys, i)|
  {
    if xs != [] {
      ColumnsAlike(xs[1..], ys[1..], i);
    }
  }

  /** A column differs wherever one of the blocks does. */
  lemma {:induction false} ColumnDistance(xs: seq<seq<Byte>>, ys: seq<seq<Byte>>, i: nat, b: nat)
    requires Alike(xs, ys) && b < |xs|
    ensures |Column(xs, i)| == |Column(ys, i)|
    ensures Distance(Column(xs, i), Column(ys, i)) >= if i < |xs[b]| && xs[b][i] != ys[b][i] then 1 else 0
  {
    ColumnsAlike(xs, ys, i);
    ColumnsAlike(xs[1..], ys[1..], i);
    var x := if i < |xs[0]| then [xs[0][i]] else [];
    var y := if i < |ys[0]| then [ys[0][i]] else [];
    DistanceConcat(x, Column(xs[1..], i), y, Column(ys[1..], i));
    if b > 0 {
      ColumnDistance(xs[1..], ys[1..], i, b - 1);
    } else {
      DistanceZero(x, y);
    }
  }

  lemma {:induction false} ColumnsDistance(xs: seq<seq<Byte>>, ys: seq<seq<Byte>>, i: nat, n: nat, b: nat)
    requires Alike(xs, ys) && b < |xs| && i <= n && |xs[b]| <= n
    ensures |Columns(xs, i, n)| == |Columns(ys, i, n)|
    ensures i <= |xs[b]| ==> Distance(Columns(xs, i, n), Columns(ys, i, n)) >= Distance(xs[b][i..], ys[b][i..])
    decreases n - i
  {
    hide Column, Distance;
    if i < n {
      ColumnDistance(xs, ys, i, b);
      ColumnsDistance(xs, ys, i + 1, n, b);
      DistanceConcat(Column(xs, i), Columns(xs, i + 1, n), Column(ys, i), Columns(ys, i + 1, n));
      SuffixDistance(xs[b], ys[b], i);
    } else {
      SuffixDistance(xs[b], ys[b], i);
    }
  }

  lemma SuffixDistance(x: seq<Byte>, y: seq<Byte>, i: nat)
    requires |x| == |y|
    ensures i < |x| ==> Distance(x[i..], y[i..]) == Distance(x[i + 1..], y[i + 1..]) + (if x[i] == y[i] then 0 else 1)
    ensures i == |x| ==> Distance(x[i..], y[i..]) == 0
  {
    if i < |x| {
      assert x[i..] == [x[i]] + x[i + 1..] && y[i..] == [y[i]] + y[i + 1..];
      DistanceConcat([x[i]], x[i + 1..], [y[i]], y[i + 1..]);
      OneByte(x[i], y[i]);
    }
  }

  lemma OneByte(x: Byte, y: Byte)
    ensures Distance([x], [y]) == if x == y then 0 else 1
  {
    assert [x][..0] == [] && [y][..0] == [];
  }

  /** Interleaving brings no two different blocks closer together. */
  lemma InterleavedDistance(xs: seq<seq<Byte>>, ys: seq<seq<Byte>>, b: nat)
    requires Alike(xs, ys) && b < |xs|
    ensures |Interleaved(xs)| == |Interleaved(ys)|
    ensures Distance(Interleaved(xs), Interleaved(ys)) >= Distance(xs[b], ys[b])
  {
    assert Lens(xs) == Lens(ys);
    hide Columns;
    var n := MaxLen(Lens(xs));
    assert |xs[b]| == Lens(xs)[b] <= n;
    ColumnsDistance(xs, ys, 0, n, b);
    assert xs[b][0..] == xs[b] && ys[b][0..] == ys[b];
  }

  // ---- the final sequence ----

  lemma {:induction false} PartOfTotal(lens: seq<nat>, b: nat)
    requires b < |lens|
    ensures lens[b] <= Total(lens)
  {
    if b > 0 {
      PartOfTotal(lens[1..], b - 1);
    }
  }

  lemma BlocksAlike(c1: seq<Byte>, c2: seq<Byte>, blocks: nat)
    requires |c1| == |c2| && blocks > 0
    ensures Alike(DataBlocks(c1, blocks), DataBlocks(c2, blocks))
    ensures forall b :: 0 <= b < blocks ==> |DataBlocks(c1, blocks)[b]| <= |c1|
    ensures Join(DataBlocks(c1, blocks)) == c1 && Join(DataBlocks(c2, blocks)) == c2
  {
    hide DataBlocks, Interleaved, Total, Split, Join;
    BlockShapes(c1, 1, blocks);
    BlockShapes(c2, 1, blocks);
    var xs, ys := DataBlocks(c1, blocks), DataBlocks(c2, blocks);
    forall b | 0 <= b < blocks ensures |xs[b]| == |ys[b]| && |xs[b]| <= |c1| {
      assert |xs[b]| == Lens(xs)[b] && |ys[b]| == Lens(ys)[b];
      BlockLensCover(|c1|, blocks);
      PartOfTotal(BlockLensFrom(|c1|, blocks, 0), b);
    }
  }

  /** Final sequences of different data differ in more than ecc_n codewords. */
  lemma SequenceDistance(c1: seq<Byte>, c2: seq<Byte>, eccN: nat, blocks: nat)
    requires |c1| == |c2| && c1 != c2 && eccN > 0 && blocks > 0 && |c1| + eccN <= 255
    ensures |FinalSequence(c1, eccN, blocks)| == |FinalSequence(c2, eccN, blocks)|
    ensures Distance(FinalSequence(c1, eccN, blocks), FinalSequence(c2, eccN, blocks)) > eccN
  {
    hide DataBlocks, Interleaved, Join;
    BlocksAlike(c1, c2, blocks);
    var xs, ys := DataBlocks(c1, blocks), DataBlocks(c2, blocks);
    var es, fs := CheckBlocks(xs, eccN), CheckBlocks(ys, eccN);
    var b := DifferentBlock(xs, ys);
    InterleavedDistance(xs, ys, b);
    InterleavedDistance(es, fs, b);
    DistanceConcat(Interleaved(xs), Interleaved(es), Interleaved(ys), Interleaved(fs));
    RS.MinimumDistance(xs[b], ys[b], eccN);
    DistanceConcat(xs[b], es[b], ys[b], fs[b]);
  }

  lemma DifferentBlock(xs: seq<seq<Byte>>, ys: seq<seq<Byte>>) returns (b: nat)
    requires Alike(xs, ys) && Join(xs) != Join(ys)
    ensures b < |xs| && xs[b] != ys[b]
  {
    assert xs != ys;
    if forall b :: 0 <= b < |xs| ==> xs[b] == ys[b] {
      assert false;
    }
    b :| 0 <= b < |xs| && xs[b] != ys[b];
  }

  // ---- bits ----

  lemma {:induction false} BitsDistance(a: seq<Byte>, b: seq<Byte>)
    requires |a| == |b|
    ensures Distance(BytesToBits(a), BytesToBits(b)) >= Distance(a, b)
  {
    hide BitsOf;
    if a != [] {
      var n := |a| - 1;
      BitsDistance(a[..n], b[..n]);
      DistanceConcat(BytesToBits(a[..n]), BitsOf(a[n], 8), BytesToBits(b[..n]), BitsOf(b[n], 8));
      DistanceZero(BitsOf(a[n], 8), BitsOf(b[n], 8));
      ByteValue(a[n]);
      ByteValue(b[n]);
    }
  }

  lemma ParamsFit(version: nat)
    requires 1 <= version <= 5
    ensures Version(version).dataCw + Version(version).eccN <= 255
  {
  }

  lemma DifferentCodewords(d1: seq<Byte>, d2: seq<Byte>, dataCw: nat)
    requires |d1| + 2 <= dataCw < 258 && |d2| + 2 <= dataCw && d1 != d2
    ensures DataCodewords(d1, dataCw) != DataCodewords(d2, dataCw)
  {
    hide DataCodewords, ReadSegment;
    SegmentRoundTrip(d1, dataCw);
    SegmentRoundTrip(d2, dataCw);
  }

  /** The bits laid out for different texts differ in more than ecc_n places. */
  lemma LaidOutDistance(version: nat, d1: seq<Byte>, d2: seq<Byte>)
    requires 1 <= version <= 5 && d1 != d2
    requires |d1| + 2 <= Version(version).dataCw && |d2| + 2 <= Version(version).dataCw
    ensures var n := |DataCells(version)|;
            Distance(Fit(DataBits(version, d1), n), Fit(DataBits(version, d2), n)) > Version(version).eccN
  {
    hide DataCells, BytesToBits, FinalSequence, DataCodewords, Version, Fit;
    var v, n := Version(version), |DataCells(version)|;
    VersionPositive(version);
    ParamsFit(version);
    SymbolFits(version);
    DataBitsLength(version, d1);
    DataBitsLength(version, d2);
    var c1, c2 := DataCodewords(d1, v.dataCw), DataCodewords(d2, v.dataCw);
    DifferentCodewords(d1, d2, v.dataCw);
    SequenceDistance(c1, c2, v.eccN, v.blocks);
    var w1, w2 := FinalSequence(c1, v.eccN, v.blocks), FinalSequence(c2, v.eccN, v.blocks);
    BitsDistance(w1, w2);
    var b1, b2 := DataBits(version, d1), DataBits(version, d2);
    FitTail(b1, n);
    FitTail(b2, n);
    DistanceConcat(BytesToBits(w1), QrEncoder.Zeros(v.remainder), BytesToBits(w2), QrEncoder.Zeros(v.remainder));
    DistanceConcat(b1, QrEncoder.Zeros(n - |b1|), b2, QrEncoder.Zeros(n - |b2|));
  }

  // ---- the matrix ----

  /** The modules in which two matrices differ. */
  ghost function Differing(g: Grid, h: Grid): set<Pos> {
    set p | p in g && p in h && g[p] != h[p]
  }

  ghost function DifferingIn(g: Grid, h: Grid, cells: seq<Pos>): set<Pos> {
    set p | p in cells && p in Differing(g, h)
  }

  lemma OneMoreCell(g: Grid, h: Grid, front: seq<Pos>, last: Pos)
    requires last !in front && last in g && last in h
    ensures |DifferingIn(g, h, front + [last])| == |DifferingIn(g, h, front)| + (if g[last] == h[last] then 0 else 1)
  {
    if g[last] == h[last] {
      assert DifferingIn(g, h, front + [last]) == DifferingIn(g, h, front);
    } else {
      assert DifferingIn(g, h, front + [last]) == DifferingIn(g, h, front) + {last};
    }
  }

  lemma ReadOneMore(g: Grid, front: seq<Pos>, last: Pos)
    requires last in g && forall p :: p in front ==> p in g
    ensures Read(g, front + [last]) == Read(g, front) + [g[last]]
  {
  }

  /** Reading cells that do not repeat shows as many differences as there are. */
  lemma {:induction false} ReadDistance(g: Grid, h: Grid, cells: seq<Pos>)
    requires NoRepeat(cells) && forall p :: p in cells ==> p in g && p in h
    ensures Distance(Read(g, cells), Read(h, cells)) == |DifferingIn(g, h, cells)|
  {
    hide Read, Differing;
    if cells != [] {
      var n := |cells| - 1;
      var front, last := cells[..n], cells[n];
      assert cells == front + [last];
      assert last !in front;
      ReadDistance(g, h, front);
      ReadOneMore(g, front, last);
      ReadOneMore(h, front, last);
      DistancePush(Read(g, front), Read(h, front), g[last], h[last]);
      OneMoreCell(g, h, front, last);
      hide DifferingIn, Distance;
    }
  }

  /** Undoing one mask on both matrices leaves the differing modules apart and the others alike. */
  lemma UnmaskedDiffer(s: Grid, t: Grid, version: nat, mask: nat)
    requires 1 <= version <= 5 && s.Keys == t.Keys == Cells(Size(version))
    ensures Differing(Masked(s, version, mask), Masked(t, version, mask)) == Differing(s, t)
  {
    hide IsFunction, MaskBit, Cells;
  }

  /** Under one mask the matrices of different texts differ in more than ecc_n modules. */
  lemma MatrixDistance(version: nat, mask: nat, d1: seq<Byte>, d2: seq<Byte>)
    requires 1 <= version <= 5 && mask < 8 && d1 != d2
    requires |d1| + 2 <= Version(version).dataCw && |d2| + 2 <= Version(version).dataCw
    ensures |Differing(Symbol(version, mask, DataBits(version, d1)), Symbol(version, mask, DataBits(version, d2)))|
            > Version(version).eccN
  {
    hide Symbol, Masked, DataCells, Read, Fit, DataBits, Version, Differing;
    var b1, b2 := DataBits(version, d1), DataBits(version, d2);
    var s, t := Symbol(version, mask, b1), Symbol(version, mask, b2);
    SymbolKeys(version, mask, b1);
    SymbolKeys(version, mask, b2);
    SymbolRoundTrip(version, mask, b1);
    SymbolRoundTrip(version, mask, b2);
    LaidOutDistance(version, d1, d2);
    DataCellsAre(version);
    var u, v := Masked(s, version, mask), Masked(t, version, mask);
    ReadDistance(u, v, DataCells(version));
    UnmaskedDiffer(s, t, version, mask);
    SubsetSize(DifferingIn(u, v, DataCells(version)), Differing(u, v));
  }

  // ---- damage ----

  lemma DifferingTriangle(g: Grid, s: Grid, t: Grid)
    requires g.Keys == s.Keys == t.Keys
    ensures |Differing(s, t)| <= |Differing(g, s)| + |Differing(g, t)|
  {
    assert Differing(s, t) <= Differing(g, s) + Differing(g, t);
    SubsetSize(Differing(s, t), Differing(g, s) + Differing(g, t));
    UnionSize(Differing(g, s), Differing(g, t));
  }

  lemma UnionSize(a: set<Pos>, b: set<Pos>)
    ensures |a + b| <= |a| + |b|
  {
    assert a + b == a + (b - a);
    SubsetSize(b - a, b);
  }

  /** A matrix with at most ecc_n / 2 modules damaged, whose mask is known, is the matrix of one text only. */
  lemma DamagedMatrixDetermines(version: nat, mask: nat, damaged: Grid, d1: seq<Byte>, d2: seq<Byte>)
    requires 1 <= version <= 5 && mask < 8 && damaged.Keys == Cells(Size(version))
    requires |d1| + 2 <= Version(version).dataCw && |d2| + 2 <= Version(version).dataCw
    requires 2 * |Differing(damaged, Symbol(version, mask, DataBits(version, d1)))| <= Version(version).eccN
    requires 2 * |Differing(damaged, Symbol(version, mask, DataBits(version, d2)))| <= Version(version).eccN
    ensures d1 == d2
  {
    hide Symbol, DataBits, Version, Differing;
    if d1 != d2 {
      SymbolKeys(version, mask, DataBits(version, d1));
      SymbolKeys(version, mask, DataBits(version, d2));
      MatrixDistance(version, mask, d1, d2);
      DifferingTriangle(damaged, Symbol(version, mask, DataBits(version, d1)), Symbol(version, mask, DataBits(version, d2)));
      assert false;
    }
  }

  /** The block of a text with its check bytes. */
  ghost function BlockWord(version: nat, data: seq<Byte>, b: nat): seq<Byte>
    requires 1 <= version <= 5 && b < Version(version).blocks
  {
    var v := Version(version);
    RS.Codeword(DataBlocks(DataCodewords(data, v.dataCw), v.blocks)[b], v.eccN)
  }

  /** Blocks received with at most ecc_n / 2 codewords damaged in each leave the text determined. */
  lemma DamagedBlocksDetermine(version: nat, received: seq<seq<Byte>>, d1: seq<Byte>, d2: seq<Byte>)
    requires 1 <= version <= 5 && |received| == Version(version).blocks
    requires |d1| + 2 <= Version(version).dataCw && |d2| + 2 <= Version(version).dataCw
    requires forall b :: 0 <= b < |received| ==>
               && |received[b]| == |BlockWord(version, d1, b)| && |received[b]| == |BlockWord(version, d2, b)|
               && 2 * Distance(received[b], BlockWord(version, d1, b)) <= Version(version).eccN
               && 2 * Distance(received[b], BlockWord(version, d2, b)) <= Version(version).eccN
    ensures d1 == d2
  {
    hide Version, DataCodewords, DataBlocks, Join;
    var v := Version(version);
    VersionPositive(version);
    ParamsFit(version);
    var c1, c2 := DataCodewords(d1, v.dataCw), DataCodewords(d2, v.dataCw);
    BlocksAlike(c1, c2, v.blocks);
    var xs, ys := DataBlocks(c1, v.blocks), DataBlocks(c2, v.blocks);
    forall b | 0 <= b < v.blocks ensures xs[b] == ys[b] {
      RS.UniqueDecoding(received[b], xs[b], ys[b], v.eccN);
    }
    assert xs == ys;
    if d1 != d2 {
      DifferentCodewords(d1, d2, v.dataCw);
      assert false;
    }
  }
}
