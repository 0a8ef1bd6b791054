/** The encoder from bytes to the finished matrix, and the theorem that a reader
    recovers the bytes from the matrix alone. */
module QrEncoder {
  import opened Basics
  import opened ByteField
  import opened LogTables
  import opened QrGrid
  import opened QrMatrix
  import opened QrPayload
  import opened QrPlacement
  import opened QrPenalty

  type Bit = QrPayload.Bit

  // ---- versions ----

  datatype Params = Params(dataCw: nat, eccN: nat, blocks: nat, remainder: nat)

  function Version(v: nat): Params {
    if v == 1 then Params(16, 10, 1, 0)
    else if v == 2 then Params(28, 16, 1, 7)
    else if v == 3 then Params(44, 26, 1, 7)
    else if v == 4 then Params(64, 18, 2, 7)
    else Params(86, 24, 2, 7)
  }

  /** The versions: how many bytes of text each holds, how many codewords it has in all, in how many blocks,
      which are of one length, and how many cells they take with the remainder. */
  lemma VersionsAre()
    ensures seq(5, v requires 0 <= v < 5 => Version(v + 1).dataCw - 2) == [14, 26, 42, 62, 84]
    ensures seq(5, v requires 0 <= v < 5 => Version(v + 1).dataCw + Version(v + 1).blocks * Version(v + 1).eccN) ==
            [26, 44, 70, 100, 134]
    ensures seq(5, v requires 0 <= v < 5 => Version(v + 1).blocks) == [1, 1, 1, 2, 2]
    ensures seq(5, v requires 0 <= v < 5 => Version(v + 1).remainder) == [0, 7, 7, 7, 7]
    ensures forall v :: 1 <= v <= 5 ==> Version(v).dataCw % Version(v).blocks == 0
  {
    assert Version(4).blocks * Version(4).eccN == 36 && Version(5).blocks * Version(5).eccN == 48;
  }

  /** The smallest version whose data codewords hold the segment. */
  method ChooseVersion(payloadBytes: nat) returns (r: Option<nat>)
    ensures r.None? <==> payloadBytes + 2 > Version(5).dataCw
    ensures r.Some? ==> 1 <= r.value <= 5 && payloadBytes + 2 <= Version(r.value).dataCw
    ensures r.Some? ==> forall v :: 1 <= v < r.value ==> payloadBytes + 2 > Version(v).dataCw
  {
    var bits := 4 + 8 + 8 * payloadBytes + 4;
    var need := (bits + 7) / 8;
    for v := 1 to 6
      invariant forall w :: 1 <= w < v ==> need > Version(w).dataCw
    {
      if need <= Version(v).dataCw {
        return Some(v);
      }
    }
    assert need > Version(5).dataCw;
    return None;
  }

  function Zeros(n: nat): (r: seq<Bit>)
    ensures |r| == n
  {
    seq(n, _ => 0)
  }

  ghost function DataBits(version: nat, data: seq<Byte>): seq<Bit>
    requires 1 <= version <= 5
  {
    var v := Version(version);
    BytesToBits(FinalSequence(DataCodewords(data, v.dataCw), v.eccN, v.blocks)) + Zeros(v.remainder)
  }

  method BitsFromCodewords(codewords: seq<Byte>, remainder: nat) returns (bits: seq<Bit>)
    ensures bits == BytesToBits(codewords) + Zeros(remainder)
  {
    bits := [];
    for i := 0 to |codewords|
      invariant bits == BytesToBits(codewords[..i])
    {
      assert codewords[..i + 1][..i] == codewords[..i];
      bits := AppendByte(bits, codewords[i]);
    }
    assert codewords[..|codewords|] == codewords;
    bits := bits + seq(remainder, _ => 0);
  }

  // ---- reading the matrix back ----

  lemma MaskCells(s: Grid, version: nat)
    requires 1 <= version <= 5 && s.Keys == Cells(Size(version))
    ensures Pos(4, 8) in s && Pos(3, 8) in s && Pos(2, 8) in s
  {
  }

  /** Reads a finished symbol of the given version; the format cells give the mask. */
  ghost function Decode(s: Grid, version: nat): Option<seq<Byte>>
    requires 1 <= version <= 5 && s.Keys == Cells(Size(version))
  {
    MaskCells(s, version);
    VersionPositive(version);
    if ReadMask(s) < 0 then None else DecodeBits(ReadCells(s, version, ReadMask(s)), Version(version))
  }

  ghost function ReadCells(s: Grid, version: nat, mask: nat): seq<Bit>
    requires 1 <= version <= 5
  {
    DataCellsAre(version);
    Read(Masked(s, version, mask), DataCells(version))
  }

  ghost function DecodeBits(bits: seq<Bit>, v: Params): Option<seq<Byte>>
    requires v.blocks > 0
  {
    var word := ReadBytes(bits, v.dataCw);
    if word.None? then None else DecodeWord(word.value, v)
  }

  ghost function DecodeWord(word: seq<Byte>, v: Params): Option<seq<Byte>>
    requires v.blocks > 0
  {
    var blocks := Deinterleave(word, BlockLensFrom(v.dataCw, v.blocks, 0));
    if blocks.None? then None else ReadSegment(BytesToBits(Join(blocks.value)))
  }

  /** The data word of a final sequence decodes to the data. */
  lemma DecodeFinalSequence(data: seq<Byte>, v: Params)
    requires v.blocks > 0 && v.eccN > 0 && |data| + 2 <= v.dataCw && |data| < 256
    ensures DecodeWord(FinalSequence(DataCodewords(data, v.dataCw), v.eccN, v.blocks)[..v.dataCw], v) == Some(data)
  {
    hide Deinterleave, FinalSequence, DataCodewords, ReadSegment, Join, DataBlocks, BlockLensFrom;
    SequenceRoundTrip(DataCodewords(data, v.dataCw), v.eccN, v.blocks);
    SegmentRoundTrip(data, v.dataCw);
  }

  /** Reading bytes off a bit string that starts with the bits of a word gives its start. */
  lemma ReadBytesOf(word: seq<Byte>, tail: seq<Bit>, n: nat)
    requires n <= |word|
    ensures ReadBytes(BytesToBits(word) + tail, n) == Some(word[..n])
  {
    hide BytesToBits, ReadBytes;
    var head, rest := word[..n], word[n..];
    assert word == head + rest;
    BitsConcat(head, rest);
    assert BytesToBits(word) + tail == BytesToBits(head) + (BytesToBits(rest) + tail);
    ReadBytesFirst(BytesToBits(head), BytesToBits(rest) + tail, n);
    BytesRoundTrip(head);
  }

  lemma ReadBytesFirst(bits: seq<Bit>, tail: seq<Bit>, n: nat)
    requires |bits| == 8 * n
    ensures ReadBytes(bits + tail, n) == Some(BitsToBytes(bits, n))
  {
    hide BitsToBytes;
    SplitConcat(bits, tail);
  }

  lemma SymbolFits(version: nat)
    requires 1 <= version <= 5
    ensures var v := Version(version); 8 * (v.dataCw + v.blocks * v.eccN) + v.remainder <= |DataCells(version)|
  {
    hide DataCells;
    if version == 1 {
      Capacity(1);
    } else if version == 2 {
      Capacity(2);
    } else if version == 3 {
      Capacity(3);
    } else if version == 4 {
      Capacity(4);
    } else {
      Capacity(5);
    }
  }

  lemma DataBitsLength(version: nat, data: seq<Byte>)
    requires 1 <= version <= 5
    ensures var v := Version(version);
            |DataBits(version, data)| == 8 * (v.dataCw + v.blocks * v.eccN) + v.remainder
  {
    hide FinalSequence, DataCodewords, Version;
    var v := Version(version);
    VersionPositive(version);
    SequenceRoundTrip(DataCodewords(data, v.dataCw), v.eccN, v.blocks);
  }

  lemma VersionPositive(version: nat)
    ensures 0 < Version(version).eccN <= 512 && Version(version).blocks > 0 && Version(version).dataCw < 256
  {
  }

  lemma FitTail(bits: seq<Bit>, n: nat)
    requires |bits| <= n
    ensures Fit(bits, n) == bits + Zeros(n - |bits|)
  {
  }

  /** The bits read from the data cells decode to the data. */
  lemma DecodeFit(version: nat, data: seq<Byte>)
    requires 1 <= version <= 5 && |data| + 2 <= Version(version).dataCw
    ensures DecodeBits(Fit(DataBits(version, data), |DataCells(version)|), Version(version)) == Some(data)
  {
    hide DataCells, BytesToBits, FinalSequence, DataCodewords, ReadBytes, DecodeWord, Version, Fit;
    var v, n := Version(version), |DataCells(version)|;
    VersionPositive(version);
    SymbolFits(version);
    DataBitsLength(version, data);
    var word := FinalSequence(DataCodewords(data, v.dataCw), v.eccN, v.blocks);
    var bits := DataBits(version, data);
    FitTail(bits, n);
    var tail := Zeros(v.remainder) + Zeros(n - |bits|);
    assert bits + Zeros(n - |bits|) == BytesToBits(word) + tail;
    ReadBytesOf(word, tail, v.dataCw);
    DecodeFinalSequence(data, v);
  }

  lemma SymbolKeys(version: nat, mask: nat, bits: seq<Bit>)
    requires 1 <= version <= 5
    ensures Symbol(version, mask, bits).Keys == Cells(Size(version))
  {
    hide Format, BaseCells, Masked, Fill, Base;
    var n := Size(version);
    forall p: Pos ensures p in Format(n, mask) ==> p in Cells(n) {
      FormatInBase(version, mask, p);
      BaseCellsAreFunction(version, p);
    }
  }

  /** The reader recovers the data from the finished symbol, whatever the mask. */
  lemma DecodeSymbol(version: nat, mask: nat, data: seq<Byte>)
    requires 1 <= version <= 5 && mask < 8 && |data| + 2 <= Version(version).dataCw
    ensures Symbol(version, mask, DataBits(version, data)).Keys == Cells(Size(version))
    ensures Decode(Symbol(version, mask, DataBits(version, data)), version) == Some(data)
  {
    hide Symbol, Masked, DataCells, Read, Fit, DecodeBits, DataBits, ReadMask, Version;
    var bits := DataBits(version, data);
    SymbolKeys(version, mask, bits);
    SymbolSpellsMask(version, mask, bits);
    SymbolRoundTrip(version, mask, bits);
    DecodeFit(version, data);
  }

  /** Different texts never give the same matrix, whatever their versions and masks. */
  lemma SymbolsDiffer(v1: nat, v2: nat, m1: nat, m2: nat, d1: seq<Byte>, d2: seq<Byte>)
    requires 1 <= v1 <= 5 && 1 <= v2 <= 5 && m1 < 8 && m2 < 8
    requires |d1| + 2 <= Version(v1).dataCw && |d2| + 2 <= Version(v2).dataCw && d1 != d2
    ensures Symbol(v1, m1, DataBits(v1, d1)) != Symbol(v2, m2, DataBits(v2, d2))
  {
    hide Symbol, DataBits, Decode, Version;
    DecodeSymbol(v1, m1, d1);
    DecodeSymbol(v2, m2, d2);
    if v1 != v2 {
      var last := Pos(Size(if v1 > v2 then v1 else v2) - 1, 0);
      assert (last in Cells(Size(v1))) != (last in Cells(Size(v2)));
    }
  }

  // ---- the encoder ----

  /** Builds the symbol of one mask. */
  method BuildSymbol(version: nat, mask: nat, bits: seq<Bit>) returns (work: array2<Cell>)
    requires 1 <= version <= 5
    ensures fresh(work) && work.Length0 == work.Length1 == Size(version)
    ensures View(work) == Symbol(version, mask, bits)
  {
    hide View, Finders, Alignments, Timing, Format, Fill, Masked;
    var n := Size(version);
    work := new Cell[n, n]((_, _) => Unset);
    EmptyView(work);
    PlaceFinders(work);
    PlaceAlignment(work, version);
    PlaceTiming(work);
    PlaceFormat(work, mask);
    BaseFromEmpty(version, mask);
    PlaceData(work, bits);
    ApplyMask(work, version, mask);
    PlaceFormat(work, mask);
  }

  lemma EmptyView(grid: array2<Cell>)
    requires grid.Length0 == grid.Length1
    requires forall r, c :: 0 <= r < grid.Length0 && 0 <= c < grid.Length0 ==> grid[r, c] == Unset
    ensures View(grid) == map[]
  {
  }

  lemma BaseFromEmpty(version: nat, mask: nat)
    requires 1 <= version <= 5
    ensures var n := Size(version);
            Timing(n) + (map[] + Finders(n) + Alignments(version, n)) + Format(n, mask) == Base(version, mask)
  {
    hide Finders, Alignments, Timing, Format;
    assert map[] + Finders(Size(version)) == Finders(Size(version));
  }

  /** The penalty of the symbol a mask gives. */
  ghost function MaskCost(version: nat, mask: nat, bits: seq<Bit>): nat
    requires 1 <= version <= 5
  {
    SymbolKeys(version, mask, bits);
    Cost(Symbol(version, mask, bits), Size(version))
  }

  /** The lowest-numbered mask of least penalty. */
  ghost predicate Best(version: nat, mask: nat, bits: seq<Bit>, limit: nat)
    requires 1 <= version <= 5
  {
    && mask < limit
    && (forall m :: 0 <= m < limit ==> MaskCost(version, mask, bits) <= MaskCost(version, m, bits))
    && (forall m :: 0 <= m < mask ==> MaskCost(version, mask, bits) < MaskCost(version, m, bits))
  }

  /** The best of the masks is the first in the order by penalty and then by number. */
  lemma BestIsFirst(version: nat, mask: nat, bits: seq<Bit>, limit: nat)
    requires 1 <= version <= 5
    ensures Best(version, mask, bits, limit) <==>
            && mask < limit
            && forall m :: 0 <= m < limit && MaskCost(version, m, bits) <= MaskCost(version, mask, bits) ==>
                             MaskCost(version, m, bits) == MaskCost(version, mask, bits) && mask <= m
  {
    hide MaskCost;
  }

  /** Encodes the bytes of a text.  There is no matrix exactly when the text is
      longer than the largest version holds; otherwise the matrix is the symbol of
      the best mask, and reading it gives the text back. */
  method EncodeMatrix(t: Tables, data: seq<Byte>) returns (matrix: array2?<Cell>, ghost version: nat, ghost mask: nat)
    requires t.Valid()
    ensures matrix == null <==> |data| + 2 > Version(5).dataCw
    ensures matrix != null ==>
              && 1 <= version <= 5 && |data| + 2 <= Version(version).dataCw
              && (forall v :: 1 <= v < version ==> |data| + 2 > Version(v).dataCw)
              && matrix.Length0 == matrix.Length1 == Size(version)
              && Best(version, mask, DataBits(version, data), 8)
              && View(matrix) == Symbol(version, mask, DataBits(version, data))
              && View(matrix).Keys == Cells(Size(version))
              && Decode(View(matrix), version) == Some(data)
  {
    hide Symbol, Cost, View, Decode, Version, DataCodewords, FinalSequence;
    matrix, version, mask := null, 0, 0;
    var choice := ChooseVersion(|data|);
    if choice.None? {
      return;
    }
    var vn := choice.value;
    version := vn;
    var v := Version(vn);
    VersionPositive(vn);
    var codewords := Bitstream(data, v.dataCw);
    var interleaved := Interleave(t, codewords, v.eccN, v.blocks);
    var bits := BitsFromCodewords(interleaved, v.remainder);
    assert bits == DataBits(version, data);
    var bestScore := 0;
    for m := 0 to 8
      invariant matrix == null <==> m == 0
      invariant matrix != null ==>
                  && Best(version, mask, bits, m) && bestScore == MaskCost(version, mask, bits)
                  && matrix.Length0 == matrix.Length1 == Size(version)
                  && View(matrix) == Symbol(version, mask, bits)
    {
      var work := BuildSymbol(vn, m, bits);
      SymbolKeys(vn, m, bits);
      var score := Penalty(work);
      if matrix == null || score < bestScore {
        bestScore := score;
        matrix := work;
        mask := m;
      }
    }
    DecodeSymbol(version, mask, data);
  }
}
