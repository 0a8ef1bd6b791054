/** From the text's bytes to the codeword sequence: byte mode, padding, blocks
    and their interleaving.  Follows sections 7.4.5, 7.5.2 and 7.6 of ISO/IEC 18004:2015
    as far as the encoder does. */
module QrPayload {
  import opened Basics
  import opened ByteField
  import opened LogTables
  import RS = ReedSolomon

  type Bit = b: int | 0 <= b <= 1

  // ---- bits of a number, most significant first ----

  function Shr(v: nat, k: nat): nat {
    if k == 0 then v else Shr(v / 2, k - 1)
  }

  function BitsOf(v: nat, k: nat): (bits: seq<Bit>)
    ensures |bits| == k
  {
    if k == 0 then [] else BitsOf(v / 2, k - 1) + [v % 2]
  }

  function ValueOf(bits: seq<Bit>): nat {
    if bits == [] then 0 else 2 * ValueOf(bits[..|bits| - 1]) + bits[|bits| - 1]
  }

  function Pow2(k: nat): nat {
    if k == 0 then 1 else 2 * Pow2(k - 1)
  }

  lemma {:induction false} BitAt(v: nat, k: nat, i: nat)
    requires i < k
    ensures BitsOf(v, k)[i] == Shr(v, k - 1 - i) % 2
  {
    if i < k - 1 {
      BitAt(v / 2, k - 1, i);
    }
  }

  lemma {:induction false} ValueOfBits(v: nat, k: nat)
    requires v < Pow2(k)
    ensures ValueOf(BitsOf(v, k)) == v
  {
    if k > 0 {
      ValueOfBits(v / 2, k - 1);
    }
  }

  lemma {:induction false} BitsOfValue(bits: seq<Bit>)
    ensures BitsOf(ValueOf(bits), |bits|) == bits
    ensures ValueOf(bits) < Pow2(|bits|)
  {
    if bits != [] {
      BitsOfValue(bits[..|bits| - 1]);
    }
  }

  lemma ByteBound(bits: seq<Bit>)
    requires |bits| == 8
    ensures ValueOf(bits) < 256
  {
    BitsOfValue(bits);
    assert Pow2(8) == 256;
  }

  // ---- bytes to bits and back ----

  function BytesToBits(data: seq<Byte>): (bits: seq<Bit>)
    ensures |bits| == 8 * |data|
  {
    if data == [] then [] else BytesToBits(data[..|data| - 1]) + BitsOf(data[|data| - 1], 8)
  }

  function BitsToBytes(bits: seq<Bit>, n: nat): (data: seq<Byte>)
    requires |bits| == 8 * n
    ensures |data| == n
  {
    if n == 0 then []
    else
      ByteBound(bits[8 * n - 8..]);
      BitsToBytes(bits[..8 * n - 8], n - 1) + [ValueOf(bits[8 * n - 8..])]
  }

  lemma SplitConcat(a: seq<Bit>, b: seq<Bit>)
    ensures (a + b)[..|a|] == a && (a + b)[|a|..] == b
  {
  }

  /** Eight more bits are one more byte. */
  lemma PackOne(front: seq<Bit>, last: seq<Bit>, n: nat)
    requires |front| == 8 * n && |last| == 8
    ensures ValueOf(last) < 256 && BitsToBytes(front + last, n + 1) == BitsToBytes(front, n) + [ValueOf(last)]
  {
    hide ValueOf;
    ByteBound(last);
    SplitConcat(front, last);
  }

  lemma {:induction false} BytesRoundTrip(data: seq<Byte>)
    ensures BitsToBytes(BytesToBits(data), |data|) == data
  {
    hide BitsOf, ValueOf, BitsToBytes;
    if data == [] {
      NoBytes();
    } else {
      var n := |data| - 1;
      BytesRoundTrip(data[..n]);
      ByteValue(data[n]);
      PackOne(BytesToBits(data[..n]), BitsOf(data[n], 8), n);
    }
  }

  lemma NoBytes()
    ensures BitsToBytes([], 0) == []
  {
  }

  lemma ByteValue(v: Byte)
    ensures ValueOf(BitsOf(v, 8)) == v
  {
    assert Pow2(8) == 256;
    ValueOfBits(v, 8);
  }

  /** One more byte is eight more bits. */
  lemma UnpackOne(front: seq<Byte>, v: Byte)
    ensures BytesToBits(front + [v]) == BytesToBits(front) + BitsOf(v, 8)
  {
    hide BitsOf;
    assert (front + [v])[..|front|] == front;
  }

  lemma {:induction false} BitsRoundTrip(bits: seq<Bit>, n: nat)
    requires |bits| == 8 * n
    ensures BytesToBits(BitsToBytes(bits, n)) == bits
  {
    hide BitsOf, ValueOf, BitsToBytes, BytesToBits;
    if n == 0 {
      NoBytes();
    } else {
      var front, last := bits[..8 * n - 8], bits[8 * n - 8..];
      assert bits == front + last;
      BitsRoundTrip(front, n - 1);
      BitsOfValue(last);
      PackOne(front, last, n - 1);
      UnpackOne(BitsToBytes(front, n - 1), ValueOf(last));
    }
  }

  lemma {:induction false} BitsConcat(a: seq<Byte>, b: seq<Byte>)
    ensures BytesToBits(a + b) == BytesToBits(a) + BytesToBits(b)
  {
    if b == [] {
      assert a + b == a;
    } else {
      var n := |b| - 1;
      BitsConcat(a, b[..n]);
      assert (a + b)[..|a + b| - 1] == a + b[..n];
    }
  }

  // ---- the byte-mode bit stream ----

  const MODE: seq<Bit> := [0, 1, 0, 0]
  const TERMINATOR: seq<Bit> := [0, 0, 0, 0]

  function Segment(data: seq<Byte>): (bits: seq<Bit>)
    ensures |bits| == 16 + 8 * |data|
  {
    MODE + BitsOf(|data|, 8) + BytesToBits(data) + TERMINATOR
  }

  function PadByte(i: nat): Byte {
    if i % 2 == 0 then 0xEC else 0x11
  }

  function Padding(n: nat): (r: seq<Byte>)
    ensures |r| == n
  {
    seq(n, i requires 0 <= i => PadByte(i))
  }

  /** The data codewords: the segment packed into bytes, padded and cut to size. */
  function DataCodewords(data: seq<Byte>, dataCw: nat): (r: seq<Byte>)
    ensures |r| == dataCw
  {
    var packed := BitsToBytes(Segment(data), |data| + 2);
    if |packed| >= dataCw then packed[..dataCw] else packed + Padding(dataCw - |packed|)
  }

  /** Reads a byte-mode segment back: mode, 8-bit count, that many bytes. */
  function ReadSegment(bits: seq<Bit>): Option<seq<Byte>> {
    if |bits| < 12 || bits[..4] != MODE then None
    else ReadBytes(bits[12..], ValueOf(bits[4..12]))
  }

  function ReadBytes(bits: seq<Bit>, n: nat): Option<seq<Byte>> {
    if 8 * n > |bits| then None else Some(BitsToBytes(bits[..8 * n], n))
  }

  /** Every byte string that fits is read back from its data codewords. */
  lemma SegmentRoundTrip(data: seq<Byte>, dataCw: nat)
    requires |data| + 2 <= dataCw && |data| < 256
    ensures ReadSegment(BytesToBits(DataCodewords(data, dataCw))) == Some(data)
  {
    hide BitsOf, ValueOf, BitsToBytes, BytesToBits;
    var n := |data|;
    var packed := BitsToBytes(Segment(data), n + 2);
    var pad := Padding(dataCw - n - 2);
    assert DataCodewords(data, dataCw) == packed + pad;
    BitsConcat(packed, pad);
    BitsRoundTrip(Segment(data), n + 2);
    BytesRoundTrip(data);
    ByteValue(n);
    SegmentRead(data, BytesToBits(pad));
  }

  lemma SegmentRead(data: seq<Byte>, rest: seq<Bit>)
    requires |data| < 256 && ValueOf(BitsOf(|data|, 8)) == |data|
    requires BitsToBytes(BytesToBits(data), |data|) == data
    ensures ReadSegment(Segment(data) + rest) == Some(data)
  {
    hide BitsOf, ValueOf, BitsToBytes, BytesToBits;
    var n := |data|;
    var bits := Segment(data) + rest;
    assert bits[..4] == MODE;
    assert bits[4..12] == BitsOf(n, 8);
    assert bits[12..] == BytesToBits(data) + (TERMINATOR + rest);
    assert bits[12..][..8 * n] == BytesToBits(data);
  }

  // ---- the codewords without their bits ----

  lemma OneBitMore(v: nat, k: nat)
    ensures BitsOf(v, k + 1) == BitsOf(v / 2, k) + [v % 2]
  {
  }

  /** The lowest four bits of a number, after those of its sixteenth. */
  lemma LastFour(v: nat, k: nat)
    ensures BitsOf(v, k + 4) == BitsOf(v / 16, k) + [v / 8 % 2, v / 4 % 2, v / 2 % 2, v % 2]
  {
    hide BitsOf;
    var v1, v2, v3 := v / 2, v / 4, v / 8;
    OneBitMore(v, k + 3);
    OneBitMore(v1, k + 2);
    OneBitMore(v2, k + 1);
    OneBitMore(v3, k);
    assert v1 / 2 == v2 && v2 / 2 == v3 && v3 / 2 == v / 16;
  }

  lemma NoBits(v: nat)
    ensures BitsOf(v, 0) == []
  {
  }

  /** The eight bits of a byte, highest first. */
  lemma ByteBits(v: nat)
    ensures BitsOf(v, 8) == [v / 128 % 2, v / 64 % 2, v / 32 % 2, v / 16 % 2, v / 8 % 2, v / 4 % 2, v / 2 % 2, v % 2]
  {
    hide BitsOf;
    LastFour(v, 4);
    LastFour(v / 16, 0);
    NoBits(v / 16 / 16);
    assert v / 16 / 8 == v / 128 && v / 16 / 4 == v / 64 && v / 16 / 2 == v / 32;
  }

  lemma {:induction false} BytesToBitsAt(data: seq<Byte>, j: nat)
    requires j < |data|
    ensures BytesToBits(data)[8 * j..8 * j + 8] == BitsOf(data[j], 8)
  {
    hide BitsOf;
    var n := |data| - 1;
    var front := BytesToBits(data[..n]);
    if j == n {
      SplitConcat(front, BitsOf(data[n], 8));
    } else {
      BytesToBitsAt(data[..n], j);
      SliceOfFront(front, BitsOf(data[n], 8), 8 * j);
    }
  }

  lemma SliceOfFront(front: seq<Bit>, last: seq<Bit>, i: nat)
    requires i + 8 <= |front|
    ensures (front + last)[i..i + 8] == front[i..i + 8]
  {
  }

  /** Bytes become bits in their order, each highest bit first. */
  lemma BitOrder(data: seq<Byte>, j: nat)
    requires j < |data|
    ensures var v := data[j];
            BytesToBits(data)[8 * j..8 * j + 8] ==
            [v / 128 % 2, v / 64 % 2, v / 32 % 2, v / 16 % 2, v / 8 % 2, v / 4 % 2, v / 2 % 2, v % 2]
  {
    hide BitsOf, BytesToBits;
    BytesToBitsAt(data, j);
    ByteBits(data[j]);
  }

  lemma {:induction false} BitsToBytesAt(bits: seq<Bit>, n: nat, k: nat)
    requires |bits| == 8 * n && k < n
    ensures BitsToBytes(bits, n)[k] == ValueOf(bits[8 * k..8 * k + 8])
  {
    hide ValueOf, BitsToBytes;
    var front, last := bits[..8 * n - 8], bits[8 * n - 8..];
    PackOne(front, last, n - 1);
    assert bits == front + last;
    if k < n - 1 {
      BitsToBytesAt(front, n - 1, k);
      SliceOfFront(front, last, 8 * k);
    } else {
      assert bits[8 * k..8 * k + 8] == last;
    }
  }

  lemma FourBits(b: seq<Bit>)
    requires |b| == 4
    ensures var b0: int, b1: int, b2: int, b3: int := b[0], b[1], b[2], b[3];
            ValueOf(b) == 8 * b0 + 4 * b1 + 2 * b2 + b3
  {
    hide ValueOf;
    assert b == [] + [b[0]] + [b[1]] + [b[2]] + [b[3]];
    OneMoreBit([], b[0]);
    OneMoreBit([b[0]], b[1]);
    OneMoreBit([b[0], b[1]], b[2]);
    OneMoreBit([b[0], b[1], b[2]], b[3]);
    NoValue();
    assert b == [b[0], b[1], b[2]] + [b[3]];
    assert [b[0], b[1], b[2]] == [b[0], b[1]] + [b[2]];
    assert [b[0], b[1]] == [b[0]] + [b[1]];
    assert [b[0]] == [] + [b[0]];
  }

  lemma NoValue()
    ensures ValueOf([]) == 0
  {
  }

  lemma OneMoreBit(b: seq<Bit>, x: Bit)
    ensures ValueOf(b + [x]) == 2 * ValueOf(b) + x
  {
    assert (b + [x])[..|b|] == b;
  }

  lemma {:induction false} LowBits(w: nat, q: nat, k: nat)
    ensures BitsOf(w + Pow2(k) * q, k) == BitsOf(w, k)
  {
    if k > 0 {
      LowBits(w / 2, q, k - 1);
      var t := Pow2(k - 1) * q;
      Twice(Pow2(k - 1), q);
      assert Pow2(k) * q == 2 * t;
      assert (w + 2 * t) / 2 == w / 2 + t && (w + 2 * t) % 2 == w % 2;
    }
  }

  lemma Twice(a: nat, b: nat)
    ensures 2 * a * b == 2 * (a * b)
  {
  }

  lemma NibbleValue(v: nat)
    ensures ValueOf(BitsOf(v, 4)) == v % 16
  {
    assert Pow2(4) == 16;
    LowBits(v % 16, v / 16, 4);
    ValueOfBits(v % 16, 4);
    hide BitsOf, ValueOf, Pow2;
    assert v % 16 + 16 * (v / 16) == v;
  }

  /** The upper and the lower half of a byte. */
  lemma Nibbles(v: nat)
    ensures ValueOf(BitsOf(v, 8)[..4]) == v / 16 % 16 && ValueOf(BitsOf(v, 8)[4..]) == v % 16
  {
    hide BitsOf, ValueOf;
    LastFour(v, 4);
    LastFour(v, 0);
    NoBits(v / 16);
    NibbleValue(v);
    NibbleValue(v / 16);
    assert BitsOf(v, 8)[4..] == BitsOf(v, 4);
    assert BitsOf(v, 8)[..4] == BitsOf(v / 16, 4);
  }

  lemma EightBits(a: seq<Bit>, b: seq<Bit>)
    requires |a| == 4 && |b| == 4
    ensures ValueOf(a + b) == 16 * ValueOf(a) + ValueOf(b)
  {
    hide ValueOf;
    FourBits(b);
    OneMoreBit(a, b[0]);
    OneMoreBit(a + [b[0]], b[1]);
    OneMoreBit(a + [b[0]] + [b[1]], b[2]);
    OneMoreBit(a + [b[0]] + [b[1]] + [b[2]], b[3]);
    assert a + b == a + [b[0]] + [b[1]] + [b[2]] + [b[3]];
  }

  /** The count and the bytes, as they stand between mode and terminator. */
  function Counted(data: seq<Byte>): (ext: seq<Byte>)
    ensures |ext| == |data| + 1
  {
    [|data| % 256] + data
  }

  lemma SegmentIs(data: seq<Byte>)
    ensures Segment(data) == MODE + BytesToBits(Counted(data)) + TERMINATOR
  {
    hide BitsOf, BytesToBits;
    var count: Byte := |data| % 256;
    LowByte(|data|);
    BitsConcat([count], data);
    OneByte(count);
  }

  lemma OneByte(v: Byte)
    ensures BytesToBits([v]) == BitsOf(v, 8)
  {
    hide BitsOf;
    assert [v][..0] == [];
  }

  lemma LowByte(v: nat)
    ensures BitsOf(v, 8) == BitsOf(v % 256, 8)
  {
    assert Pow2(8) == 256;
    LowBits(v % 256, v / 256, 8);
    hide BitsOf, Pow2;
    assert v % 256 + 256 * (v / 256) == v;
  }

  /** The two halves of codeword k of the segment: the lower half of one byte, the upper of the next. */
  lemma SegmentHalves(data: seq<Byte>, k: nat)
    requires k <= |data| + 1
    ensures var ext, bits := Counted(data), Segment(data);
            && ValueOf(bits[8 * k..8 * k + 4]) == (if k == 0 then 4 else ext[k - 1] % 16)
            && ValueOf(bits[8 * k + 4..8 * k + 8]) == (if k == |ext| then 0 else ext[k] / 16)
  {
    hide BitsOf, ValueOf, BytesToBits, Segment, Counted;
    var ext, bits := Counted(data), Segment(data);
    SegmentIs(data);
    var body := BytesToBits(ext);
    if k == 0 {
      FourBits(MODE);
      assert bits[0..4] == MODE;
    } else {
      BytesToBitsAt(ext, k - 1);
      Nibbles(ext[k - 1]);
      assert bits[8 * k..8 * k + 4] == body[8 * (k - 1)..8 * (k - 1) + 8][4..];
    }
    if k == |ext| {
      FourBits(TERMINATOR);
      assert bits[8 * k + 4..8 * k + 8] == TERMINATOR;
    } else {
      BytesToBitsAt(ext, k);
      Nibbles(ext[k]);
      assert bits[8 * k + 4..8 * k + 8] == body[8 * k..8 * k + 8][..4];
    }
  }

  /** The data codewords in closed form: the nibble 4, the count modulo 256, the bytes and a nibble 0, all
      shifted by half a byte, and then 0xEC and 0x11 in turn. */
  lemma DataCodewordsAre(data: seq<Byte>, dataCw: nat, k: nat)
    requires k < dataCw
    ensures var n, ext := |data|, [|data| % 256] + data;
            DataCodewords(data, dataCw)[k] ==
            if k <= n + 1 then 16 * (if k == 0 then 4 else ext[k - 1] % 16) + (if k == n + 1 then 0 else ext[k] / 16)
            else if (k - n) % 2 == 0 then 0xEC else 0x11
  {
    hide Segment, BitsToBytes, ValueOf;
    var bits := Segment(data);
    if k <= |data| + 1 {
      BitsToBytesAt(bits, |data| + 2, k);
      SegmentHalves(data, k);
      EightBits(bits[8 * k..8 * k + 4], bits[8 * k + 4..8 * k + 8]);
      assert bits[8 * k..8 * k + 8] == bits[8 * k..8 * k + 4] + bits[8 * k + 4..8 * k + 8];
    }
  }

  /** Appends the low eight bits of v, highest first. */
  method AppendByte(bits: seq<Bit>, v: nat) returns (r: seq<Bit>)
    ensures r == bits + BitsOf(v, 8)
  {
    r := bits;
    for i := 0 to 8
      invariant r == bits + BitsOf(v, 8)[..i]
    {
      BitAt(v, 8, i);
      r := r + [Shr(v, 7 - i) % 2];
    }
  }

  method Bitstream(data: seq<Byte>, dataCw: nat) returns (codewords: seq<Byte>)
    ensures codewords == DataCodewords(data, dataCw)
  {
    hide BitsOf, ValueOf, BitsToBytes;
    var bits: seq<Bit> := AppendByte(MODE, |data|);
    for i := 0 to |data|
      invariant bits == MODE + BitsOf(|data|, 8) + BytesToBits(data[..i])
    {
      assert data[..i + 1][..i] == data[..i];
      bits := AppendByte(bits, data[i]);
    }
    assert data[..|data|] == data;
    bits := bits + TERMINATOR;
    // Here the program pads to a byte boundary; the segment is always on one.
    assert bits == Segment(data) && |bits| == 8 * (|data| + 2);
    codewords := PackBytes(bits, |data| + 2);
    ghost var packed := codewords;
    var i := 0;
    while |codewords| < dataCw
      invariant codewords == packed + Padding(i)
      invariant |codewords| <= dataCw || i == 0
    {
      codewords := codewords + [PadByte(i)];
      i := i + 1;
    }
    codewords := codewords[..dataCw];
  }

  /** The packing loop of the bit stream. */
  method PackBytes(bits: seq<Bit>, n: nat) returns (codewords: seq<Byte>)
    requires |bits| == 8 * n
    ensures codewords == BitsToBytes(bits, n)
  {
    hide BitsOf, BitsToBytes;
    NoBytes();
    codewords := [];
    for i := 0 to n
      invariant codewords == BitsToBytes(bits[..8 * i], i)
    {
      var group := bits[8 * i..8 * i + 8];
      var val: nat := 0;
      for k := 0 to 8
        invariant val == ValueOf(group[..k])
      {
        assert group[..k + 1][..k] == group[..k];
        val := 2 * val + group[k];
      }
      assert group[..8] == group;
      ByteBound(group);
      assert bits[..8 * (i + 1)] == bits[..8 * i] + group;
      PackOne(bits[..8 * i], group, i);
      codewords := codewords + [val];
    }
    assert bits[..8 * n] == bits;
  }

  // ---- splitting into blocks ----

  function Total(lens: seq<nat>): nat {
    if lens == [] then 0 else lens[0] + Total(lens[1..])
  }

  function BlockLen(dataCw: nat, blocks: nat, b: nat): nat
    requires blocks > 0
  {
    dataCw / blocks + (if b >= blocks - dataCw % blocks then 1 else 0)
  }

  function BlockLensFrom(dataCw: nat, blocks: nat, b: nat): (lens: seq<nat>)
    requires b <= blocks && blocks > 0
    ensures |lens| == blocks - b
    decreases blocks - b
  {
    if b == blocks then [] else [BlockLen(dataCw, blocks, b)] + BlockLensFrom(dataCw, blocks, b + 1)
  }

  /** The block lengths account for every data codeword. */
  lemma {:induction false} BlockLensTotal(dataCw: nat, blocks: nat, b: nat)
    requires b <= blocks && blocks > 0
    ensures Total(BlockLensFrom(dataCw, blocks, b)) ==
            (blocks - b) * (dataCw / blocks) + (if b >= blocks - dataCw % blocks then blocks - b else dataCw % blocks)
    decreases blocks - b
  {
    if b < blocks {
      BlockLensTotal(dataCw, blocks, b + 1);
      var q := dataCw / blocks;
      assert (blocks - b) * q == (blocks - (b + 1)) * q + q;
    }
  }

  lemma BlockLensCover(dataCw: nat, blocks: nat)
    requires blocks > 0
    ensures Total(BlockLensFrom(dataCw, blocks, 0)) == dataCw
  {
    BlockLensTotal(dataCw, blocks, 0);
  }

  lemma {:induction false} BlockLensAt(dataCw: nat, blocks: nat, b: nat, c: nat)
    requires b <= c < blocks
    ensures BlockLensFrom(dataCw, blocks, b)[c - b] == BlockLen(dataCw, blocks, c)
    decreases c - b
  {
    if b < c {
      BlockLensAt(dataCw, blocks, b + 1, c);
    }
  }

  /** Which blocks are longer is fixed by this: together they hold all codewords, no block is more than
      one codeword longer than another, and no later one is shorter. */
  lemma BlocksAscend(dataCw: nat, blocks: nat)
    requires blocks > 0
    ensures var lens := BlockLensFrom(dataCw, blocks, 0);
            && Total(lens) == dataCw
            && forall b, c :: 0 <= b < c < |lens| ==> lens[b] <= lens[c] <= lens[b] + 1
  {
    BlockLensCover(dataCw, blocks);
    var lens := BlockLensFrom(dataCw, blocks, 0);
    forall b, c | 0 <= b < c < |lens| ensures lens[b] <= lens[c] <= lens[b] + 1 {
      BlockLensAt(dataCw, blocks, 0, b);
      BlockLensAt(dataCw, blocks, 0, c);
    }
  }

  function Split(word: seq<Byte>, lens: seq<nat>): (bs: seq<seq<Byte>>)
    requires |word| == Total(lens)
    ensures |bs| == |lens| && forall b :: 0 <= b < |bs| ==> |bs[b]| == lens[b]
  {
    if lens == [] then [] else [word[..lens[0]]] + Split(word[lens[0]..], lens[1..])
  }

  function Join(bs: seq<seq<Byte>>): seq<Byte> {
    if bs == [] then [] else bs[0] + Join(bs[1..])
  }

  lemma {:induction false} JoinSplit(word: seq<Byte>, lens: seq<nat>)
    requires |word| == Total(lens)
    ensures Join(Split(word, lens)) == word
  {
    if lens != [] {
      JoinSplit(word[lens[0]..], lens[1..]);
    }
  }

  // ---- interleaving ----

  function Lens(bs: seq<seq<Byte>>): (lens: seq<nat>)
    ensures |lens| == |bs|
  {
    seq(|bs|, b requires 0 <= b < |bs| => |bs[b]|)
  }

  /** The i-th byte of every block that has one. */
  function Column(bs: seq<seq<Byte>>, i: nat): seq<Byte> {
    if bs == [] then []
    else (if i < |bs[0]| then [bs[0][i]] else []) + Column(bs[1..], i)
  }

  function Columns(bs: seq<seq<Byte>>, i: nat, n: nat): seq<Byte>
    requires i <= n
    decreases n - i
  {
    if i == n then [] else Column(bs, i) + Columns(bs, i + 1, n)
  }

  function MaxLen(lens: seq<nat>): (m: nat)
    ensures forall b :: 0 <= b < |lens| ==> lens[b] <= m
    ensures lens != [] ==> exists b :: 0 <= b < |lens| && lens[b] == m
  {
    if lens == [] then 0
    else
      var m := MaxLen(lens[1..]);
      assert forall b :: 1 <= b < |lens| ==> lens[b] == lens[1..][b - 1];
      if lens[0] >= m then
        assert lens[0] == lens[0];
        lens[0]
      else
        assert exists b :: 0 <= b < |lens[1..]| && lens[1..][b] == m;
        m
  }

  function Interleaved(bs: seq<seq<Byte>>): seq<Byte> {
    Columns(bs, 0, MaxLen(Lens(bs)))
  }

  /** How many blocks have an i-th byte. */
  function Height(lens: seq<nat>, i: nat): nat {
    if lens == [] then 0 else (if i < lens[0] then 1 else 0) + Height(lens[1..], i)
  }

  /** Appends the bytes of one column to the blocks they belong to. */
  function Deal(column: seq<Byte>, lens: seq<nat>, i: nat, bs: seq<seq<Byte>>): (r: seq<seq<Byte>>)
    requires |lens| == |bs| && |column| == Height(lens, i)
    ensures |r| == |bs|
  {
    if lens == [] then []
    else if i < lens[0] then [bs[0] + [column[0]]] + Deal(column[1..], lens[1..], i, bs[1..])
    else [bs[0]] + Deal(column, lens[1..], i, bs[1..])
  }

  /** The de-interleaver: deals the word out column by column. */
  function DealAll(word: seq<Byte>, lens: seq<nat>, i: nat, n: nat, bs: seq<seq<Byte>>): Option<seq<seq<Byte>>>
    requires |lens| == |bs| && i <= n
    decreases n - i
  {
    if i == n then (if word == [] then Some(bs) else None)
    else
      var h := Height(lens, i);
      if |word| < h then None else DealAll(word[h..], lens, i + 1, n, Deal(word[..h], lens, i, bs))
  }

  function Deinterleave(word: seq<Byte>, lens: seq<nat>): Option<seq<seq<Byte>>> {
    DealAll(word, lens, 0, MaxLen(lens), EmptyBlocks(|lens|))
  }

  function EmptyBlocks(n: nat): (bs: seq<seq<Byte>>)
    ensures |bs| == n
  {
    seq(n, _ => [])
  }

  /** The first i bytes of a block, or all of a shorter one. */
  function First(block: seq<Byte>, i: nat): seq<Byte> {
    if i <= |block| then block[..i] else block
  }

  function Cut(bs: seq<seq<Byte>>, i: nat): (r: seq<seq<Byte>>)
    ensures |r| == |bs|
  {
    if bs == [] then [] else [First(bs[0], i)] + Cut(bs[1..], i)
  }

  lemma {:induction false} CutAt(bs: seq<seq<Byte>>, i: nat)
    ensures forall b :: 0 <= b < |bs| ==> Cut(bs, i)[b] == First(bs[b], i)
  {
    if bs != [] {
      CutAt(bs[1..], i);
    }
  }

  lemma {:induction false} ColumnHeight(bs: seq<seq<Byte>>, i: nat)
    ensures |Column(bs, i)| == Height(Lens(bs), i)
  {
    if bs != [] {
      ColumnHeight(bs[1..], i);
      assert Lens(bs)[1..] == Lens(bs[1..]);
    }
  }

  lemma AllOfBlock(block: seq<Byte>, n: nat)
    requires |block| <= n
    ensures First(block, n) == block
  {
  }

  lemma FirstNext(block: seq<Byte>, i: nat)
    ensures First(block, i + 1) == if i < |block| then First(block, i) + [block[i]] else First(block, i)
  {
  }

  lemma {:induction false} DealColumn(bs: seq<seq<Byte>>, i: nat)
    requires |Column(bs, i)| == Height(Lens(bs), i)
    ensures Deal(Column(bs, i), Lens(bs), i, Cut(bs, i)) == Cut(bs, i + 1)
  {
    hide First;
    if bs != [] {
      var rest := bs[1..];
      ColumnHeight(rest, i);
      DealColumn(rest, i);
      FirstNext(bs[0], i);
      assert Lens(bs)[1..] == Lens(rest);
      assert Cut(bs, i)[1..] == Cut(rest, i);
      assert i < |bs[0]| ==> Column(bs, i)[1..] == Column(rest, i);
      assert i >= |bs[0]| ==> Column(bs, i) == Column(rest, i);
    }
  }

  lemma {:induction false} DealColumns(bs: seq<seq<Byte>>, i: nat, n: nat)
    requires i <= n && n == MaxLen(Lens(bs))
    ensures DealAll(Columns(bs, i, n), Lens(bs), i, n, Cut(bs, i)) == Some(bs)
    decreases n - i
  {
    hide Column, Height, Deal, MaxLen, First;
    if i == n {
      assert Cut(bs, n) == bs by {
        CutAt(bs, n);
        forall b | 0 <= b < |bs| ensures First(bs[b], n) == bs[b] {
          assert Lens(bs)[b] <= n;
          AllOfBlock(bs[b], n);
        }
      }
    } else {
      ColumnHeight(bs, i);
      DealColumn(bs, i);
      DealColumns(bs, i + 1, n);
      var word, h := Columns(bs, i, n), Height(Lens(bs), i);
      assert word[..h] == Column(bs, i) && word[h..] == Columns(bs, i + 1, n);
    }
  }

  /** De-interleaving undoes interleaving, also for blocks of unequal length. */
  lemma DeinterleaveInterleaved(bs: seq<seq<Byte>>)
    ensures Deinterleave(Interleaved(bs), Lens(bs)) == Some(bs)
  {
    DealColumns(bs, 0, MaxLen(Lens(bs)));
    CutAt(bs, 0);
    assert Cut(bs, 0) == EmptyBlocks(|bs|);
  }

  function Remaining(lens: seq<nat>, i: nat): nat {
    if lens == [] then 0 else (if i < lens[0] then lens[0] - i else 0) + Remaining(lens[1..], i)
  }

  lemma {:induction false} RemainingStep(lens: seq<nat>, i: nat)
    ensures Remaining(lens, i) == Height(lens, i) + Remaining(lens, i + 1)
  {
    if lens != [] {
      RemainingStep(lens[1..], i);
    }
  }

  lemma {:induction false} RemainingEnds(lens: seq<nat>, n: nat)
    requires forall b :: 0 <= b < |lens| ==> lens[b] <= n
    ensures Remaining(lens, n) == 0 && Remaining(lens, 0) == Total(lens)
  {
    if lens != [] {
      RemainingEnds(lens[1..], n);
    }
  }

  lemma {:induction false} ColumnsLength(bs: seq<seq<Byte>>, i: nat, n: nat)
    requires i <= n && n == MaxLen(Lens(bs))
    ensures |Columns(bs, i, n)| == Remaining(Lens(bs), i)
    decreases n - i
  {
    hide MaxLen, Column, Height, Remaining, Lens;
    if i < n {
      ColumnsLength(bs, i + 1, n);
      ColumnHeight(bs, i);
      RemainingStep(Lens(bs), i);
    } else {
      RemainingEnds(Lens(bs), n);
    }
  }

  lemma InterleavedLength(bs: seq<seq<Byte>>)
    ensures |Interleaved(bs)| == Total(Lens(bs))
  {
    ColumnsLength(bs, 0, MaxLen(Lens(bs)));
    RemainingEnds(Lens(bs), MaxLen(Lens(bs)));
  }

  // ---- where interleaving puts each codeword ----

  function Least(a: nat, b: nat): nat {
    if a <= b then a else b
  }

  /** How many codewords come before byte i of block b: of the blocks before it those up to byte i, of the
      others those before it. */
  function Before(lens: seq<nat>, b: nat, i: nat): nat {
    if lens == [] then 0
    else if b > 0 then Least(lens[0], i + 1) + Before(lens[1..], b - 1, i)
    else Least(lens[0], i) + Before(lens[1..], 0, i)
  }

  lemma {:induction false} BeforeIs(lens: seq<nat>, b: nat, i: nat)
    requires b <= |lens|
    ensures Before(lens, b, i) == Total(lens) - Remaining(lens, i) + Height(lens[..b], i)
  {
    if lens != [] {
      if b > 0 {
        BeforeIs(lens[1..], b - 1, i);
        assert lens[..b][1..] == lens[1..][..b - 1];
      } else {
        BeforeIs(lens[1..], 0, i);
      }
    }
  }

  lemma {:induction false} ColumnAt(bs: seq<seq<Byte>>, i: nat, b: nat)
    requires b < |bs| && i < |bs[b]|
    ensures Height(Lens(bs)[..b], i) < |Column(bs, i)| && Column(bs, i)[Height(Lens(bs)[..b], i)] == bs[b][i]
  {
    assert Lens(bs)[1..] == Lens(bs[1..]);
    if b > 0 {
      ColumnAt(bs[1..], i, b - 1);
      assert Lens(bs)[..b][1..] == Lens(bs[1..])[..b - 1];
    }
  }

  lemma {:induction false} ColumnsAt(bs: seq<seq<Byte>>, from: nat, i: nat, n: nat, x: nat)
    requires from <= i < n && n == MaxLen(Lens(bs)) && x < |Column(bs, i)|
    ensures var at := Remaining(Lens(bs), from) - Remaining(Lens(bs), i) + x;
            0 <= at < |Columns(bs, from, n)| && Columns(bs, from, n)[at] == Column(bs, i)[x]
    decreases i - from
  {
    hide Column, MaxLen, Lens, Remaining, Height;
    if from < i {
      ColumnsAt(bs, from + 1, i, n, x);
      RemainingStep(Lens(bs), from);
      ColumnHeight(bs, from);
    }
  }

  /** Interleaving takes the first byte of every block, in the blocks' order, then the second ones, and so
      on, leaving out blocks that have run out. */
  lemma InterleavedAt(bs: seq<seq<Byte>>, b: nat, i: nat)
    requires b < |bs| && i < |bs[b]|
    ensures Before(Lens(bs), b, i) < |Interleaved(bs)| && Interleaved(bs)[Before(Lens(bs), b, i)] == bs[b][i]
  {
    hide Column, Columns, MaxLen, Remaining, Before, Height;
    var lens := Lens(bs);
    assert lens[b] <= MaxLen(lens);
    ColumnAt(bs, i, b);
    ColumnsAt(bs, 0, i, MaxLen(lens), Height(lens[..b], i));
    BeforeIs(lens, b, i);
    RemainingEnds(lens, MaxLen(lens));
  }

  // ---- the final codeword sequence ----

  ghost function CheckBlocks(bs: seq<seq<Byte>>, eccN: nat): (r: seq<seq<Byte>>)
    requires eccN > 0
    ensures |r| == |bs| && forall b :: 0 <= b < |bs| ==> r[b] == RS.Check(bs[b], eccN)
  {
    seq(|bs|, b requires 0 <= b < |bs| => RS.Check(bs[b], eccN))
  }

  ghost function DataBlocks(codewords: seq<Byte>, blocks: nat): (bs: seq<seq<Byte>>)
    requires blocks > 0
    ensures |bs| == blocks
  {
    BlockLensCover(|codewords|, blocks);
    Split(codewords, BlockLensFrom(|codewords|, blocks, 0))
  }

  function Repeat(v: nat, n: nat): (r: seq<nat>)
    ensures |r| == n && forall i :: 0 <= i < n ==> r[i] == v
  {
    if n == 0 then [] else [v] + Repeat(v, n - 1)
  }

  lemma {:induction false} TotalRepeat(v: nat, n: nat)
    ensures Total(Repeat(v, n)) == n * v
  {
    if n > 0 {
      TotalRepeat(v, n - 1);
      assert n * v == (n - 1) * v + v;
    }
  }

  lemma BlockShapes(codewords: seq<Byte>, eccN: nat, blocks: nat)
    requires eccN > 0 && blocks > 0
    ensures var bs := DataBlocks(codewords, blocks);
            && Lens(bs) == BlockLensFrom(|codewords|, blocks, 0)
            && Lens(CheckBlocks(bs, eccN)) == Repeat(eccN, blocks)
            && Join(bs) == codewords
            && |Interleaved(bs)| == |codewords|
            && |Interleaved(CheckBlocks(bs, eccN))| == blocks * eccN
  {
    hide Interleaved, MaxLen;
    var lens := BlockLensFrom(|codewords|, blocks, 0);
    var bs := DataBlocks(codewords, blocks);
    BlockLensCover(|codewords|, blocks);
    assert Lens(bs) == lens;
    var es := CheckBlocks(bs, eccN);
    assert Lens(es) == Repeat(eccN, blocks);
    InterleavedLength(bs);
    InterleavedLength(es);
    TotalRepeat(eccN, blocks);
    JoinSplit(codewords, lens);
  }

  ghost function FinalSequence(codewords: seq<Byte>, eccN: nat, blocks: nat): (word: seq<Byte>)
    requires eccN > 0 && blocks > 0
    ensures |word| >= |codewords|
  {
    BlockShapes(codewords, eccN, blocks);
    var bs := DataBlocks(codewords, blocks);
    Interleaved(bs) + Interleaved(CheckBlocks(bs, eccN))
  }

  /** De-interleaving the final sequence recovers the data codewords, and each
      block's check bytes are its own. */
  lemma SequenceRoundTrip(codewords: seq<Byte>, eccN: nat, blocks: nat)
    requires eccN > 0 && blocks > 0
    ensures var word := FinalSequence(codewords, eccN, blocks);
            var bs := DataBlocks(codewords, blocks);
            && Deinterleave(word[..|codewords|], BlockLensFrom(|codewords|, blocks, 0)) == Some(bs)
            && Deinterleave(word[|codewords|..], Repeat(eccN, blocks)) == Some(CheckBlocks(bs, eccN))
            && Join(bs) == codewords
            && |word| == |codewords| + blocks * eccN
  {
    hide Deinterleave, Interleaved, Join, DataBlocks, CheckBlocks;
    var bs := DataBlocks(codewords, blocks);
    var es := CheckBlocks(bs, eccN);
    BlockShapes(codewords, eccN, blocks);
    DeinterleaveInterleaved(bs);
    DeinterleaveInterleaved(es);
    SliceConcat(Interleaved(bs), Interleaved(es));
  }

  lemma SliceConcat(a: seq<Byte>, b: seq<Byte>)
    ensures (a + b)[..|a|] == a && (a + b)[|a|..] == b
  {
  }

  lemma {:induction false} BeforeEqual(v: nat, n: nat, b: nat, i: nat)
    requires b <= n && i < v
    ensures Before(Repeat(v, n), b, i) == n * i + b
  {
    if n > 0 {
      BeforeEqual(v, n - 1, if b > 0 then b - 1 else 0, i);
      assert n * i == (n - 1) * i + i;
    }
  }

  lemma {:induction false} BlockLensEqual(dataCw: nat, blocks: nat, b: nat)
    requires b <= blocks && blocks > 0 && dataCw % blocks == 0
    ensures BlockLensFrom(dataCw, blocks, b) == Repeat(dataCw / blocks, blocks - b)
    decreases blocks - b
  {
    if b < blocks {
      BlockLensEqual(dataCw, blocks, b + 1);
    }
  }

  lemma {:induction false} SplitEqual(word: seq<Byte>, v: nat, n: nat, b: nat)
    requires |word| == Total(Repeat(v, n)) && b < n
    ensures var at := Total(Repeat(v, b));
            at + v <= |word| && Split(word, Repeat(v, n))[b] == word[at..at + v]
  {
    hide Split, Total, Repeat;
    NextRepeat(v, n);
    NextRepeat(v, b);
    TotalCons(v, Repeat(v, n - 1));
    SplitStep(word, v, Repeat(v, n - 1));
    if b > 0 {
      TotalCons(v, Repeat(v, b - 1));
      SplitEqual(word[v..], v, n - 1, b - 1);
      SliceFurther(word, v, Total(Repeat(v, b - 1)), v);
    }
  }

  lemma NextRepeat(v: nat, n: nat)
    ensures if n == 0 then Total(Repeat(v, 0)) == 0 else Repeat(v, n) == [v] + Repeat(v, n - 1)
  {
  }

  lemma SliceFurther(s: seq<Byte>, v: nat, at: nat, length: nat)
    requires v + at + length <= |s|
    ensures s[v..][at..at + length] == s[v + at..v + at + length]
  {
  }

  /** Interleaving blocks of one length. */
  lemma EvenlyInterleaved(bs: seq<seq<Byte>>, v: nat, b: nat, i: nat)
    requires Lens(bs) == Repeat(v, |bs|) && b < |bs| && i < v
    ensures |bs| * i + b < |Interleaved(bs)| && i < |bs[b]| && Interleaved(bs)[|bs| * i + b] == bs[b][i]
  {
    hide Interleaved, Before, Lens;
    LensAt(bs, b);
    InterleavedAt(bs, b, i);
    BeforeEqual(v, |bs|, b, i);
  }

  lemma {:induction false} TimesAtLeast(v: nat, d: nat)
    requires d > 0
    ensures v * d >= v
  {
    if d > 1 {
      TimesAtLeast(v, d - 1);
      assert v * d == v * (d - 1) + v;
    }
  }

  /** Among the multiples of v only 0 is from 0 to v - 1. */
  lemma MultipleSize(v: nat, d: int)
    ensures (d > 0 ==> v * d >= v) && (d < 0 ==> v * d + v <= 0)
  {
    if d > 0 {
      TimesAtLeast(v, d);
    } else if d < 0 {
      TimesAtLeast(v, -d);
      assert v * d == -(v * -d);
    }
  }

  lemma ExactDivision(n: nat, length: nat, blocks: nat)
    requires blocks > 0 && n == blocks * length
    ensures n % blocks == 0 && n / blocks == length
  {
    var q, r := n / blocks, n % blocks;
    assert n == blocks * q + r;
    MultipleSize(blocks, length - q);
    assert blocks * (length - q) == blocks * length - blocks * q;
  }

  lemma WithinBlocks(length: nat, blocks: nat, b: nat)
    requires b < blocks
    ensures 0 <= b * length <= b * length + length <= blocks * length
  {
    TimesAtLeast(length, blocks - b);
    assert length * (blocks - b) == blocks * length - b * length;
  }

  /** Block b where all are of one length. */
  function EvenBlock(codewords: seq<Byte>, length: nat, blocks: nat, b: nat): (block: seq<Byte>)
    requires b < blocks && |codewords| == blocks * length
    ensures |block| == length
  {
    WithinBlocks(length, blocks, b);
    codewords[b * length..][..length]
  }

  lemma EvenBlocks(codewords: seq<Byte>, length: nat, blocks: nat, b: nat)
    requires b < blocks && |codewords| == blocks * length
    ensures Lens(DataBlocks(codewords, blocks)) == Repeat(length, blocks)
    ensures DataBlocks(codewords, blocks)[b] == EvenBlock(codewords, length, blocks, b)
  {
    hide Split, Lens, Total, Repeat, BlockLensFrom, Interleaved, CheckBlocks, Join;
    ExactDivision(|codewords|, length, blocks);
    BlockShapes(codewords, 1, blocks);
    BlockLensCover(|codewords|, blocks);
    BlockLensEqual(|codewords|, blocks, 0);
    SplitEqual(codewords, length, blocks, b);
    TotalRepeat(length, b);
    SliceTwice(codewords, Total(Repeat(length, b)), length);
  }

  lemma SliceTwice(s: seq<Byte>, at: nat, length: nat)
    requires at + length <= |s|
    ensures s[at..at + length] == s[at..][..length]
  {
  }

  /** The final sequence in closed form, where the blocks are of one length: round i holds codeword i of
      every block, in the blocks' order, and after all data codewords the check bytes likewise. */
  lemma SequenceAt(codewords: seq<Byte>, length: nat, eccN: nat, blocks: nat, b: nat, i: nat, at: nat)
    requires eccN > 0 && b < blocks && |codewords| == blocks * length && at == blocks * i + b
    ensures var word := FinalSequence(codewords, eccN, blocks);
            && (i < length ==> at < |word| && word[at] == EvenBlock(codewords, length, blocks, b)[i])
            && (i < eccN ==>
                  && |codewords| + at < |word|
                  && word[|codewords| + at] == RS.Check(EvenBlock(codewords, length, blocks, b), eccN)[i])
  {
    hide Interleaved, RS.Check, Lens, DataBlocks, CheckBlocks, EvenBlock;
    var bs := DataBlocks(codewords, blocks);
    var es := CheckBlocks(bs, eccN);
    BlockShapes(codewords, eccN, blocks);
    EvenBlocks(codewords, length, blocks, b);
    if i < length {
      EvenlyInterleaved(bs, length, b, i);
    }
    if i < eccN {
      EvenlyInterleaved(es, eccN, b, i);
    }
    TwoParts(Interleaved(bs), Interleaved(es), at);
  }

  lemma TwoParts(a: seq<Byte>, b: seq<Byte>, x: nat)
    ensures x < |a| ==> (a + b)[x] == a[x]
    ensures x < |b| ==> (a + b)[|a| + x] == b[x]
  {
  }

  lemma LensAt(bs: seq<seq<Byte>>, b: nat)
    requires b < |bs|
    ensures Lens(bs)[b] == |bs[b]|
  {
  }

  lemma CheckRounds(bs: seq<seq<Byte>>, eccN: nat)
    requires eccN > 0 && bs != []
    ensures MaxLen(Lens(CheckBlocks(bs, eccN))) == eccN
  {
    var lens := Lens(CheckBlocks(bs, eccN));
    assert forall b :: 0 <= b < |lens| ==> lens[b] == eccN;
  }

  method Interleave(t: Tables, codewords: seq<Byte>, eccN: nat, blocks: nat) returns (out: seq<Byte>)
    requires t.Valid() && 0 < eccN <= 512 && blocks > 0
    ensures out == FinalSequence(codewords, eccN, blocks)
  {
    hide Alpha, Columns, MaxLen, CheckBlocks, DataBlocks, Lens;
    var dataBlocks, eccBlocks := CutBlocks(t, codewords, eccN, blocks);
    CheckRounds(dataBlocks, eccN);
    out := AppendColumns([], dataBlocks, MaxLen(Lens(dataBlocks)));
    assert out == Interleaved(dataBlocks);
    out := AppendColumns(out, eccBlocks, eccN);
  }

  lemma AppendCons<T>(a: seq<T>, x: T, b: seq<T>)
    ensures (a + [x]) + b == a + ([x] + b)
  {
  }

  lemma SplitStep(word: seq<Byte>, length: nat, lens: seq<nat>)
    requires |word| == length + Total(lens)
    ensures Total([length] + lens) == length + Total(lens)
    ensures Split(word, [length] + lens) == [word[..length]] + Split(word[length..], lens)
  {
    assert ([length] + lens)[1..] == lens;
  }

  lemma CheckBlocksPush(bs: seq<seq<Byte>>, chunk: seq<Byte>, eccN: nat)
    requires eccN > 0
    ensures CheckBlocks(bs + [chunk], eccN) == CheckBlocks(bs, eccN) + [RS.Check(chunk, eccN)]
  {
  }

  /** The first loop: cuts the next chunk and computes its check bytes. */
  method CutBlocks(t: Tables, codewords: seq<Byte>, eccN: nat, blocks: nat)
    returns (dataBlocks: seq<seq<Byte>>, eccBlocks: seq<seq<Byte>>)
    requires t.Valid() && 0 < eccN <= 512 && blocks > 0
    ensures dataBlocks == DataBlocks(codewords, blocks)
    ensures eccBlocks == CheckBlocks(dataBlocks, eccN)
  {
    hide RS.Check, BlockLen, Alpha, Split, Total, CheckBlocks;
    var dataCw := |codewords|;
    dataBlocks, eccBlocks := [], [];
    var offset := 0;
    BlockLensCover(dataCw, blocks);
    assert codewords[0..] == codewords;
    ghost var all := DataBlocks(codewords, blocks);
    assert CheckBlocks([], eccN) == [];
    for i := 0 to blocks
      invariant offset <= dataCw
      invariant dataCw - offset == Total(BlockLensFrom(dataCw, blocks, i))
      invariant all == dataBlocks + Split(codewords[offset..], BlockLensFrom(dataCw, blocks, i))
      invariant eccBlocks == CheckBlocks(dataBlocks, eccN)
    {
      var length := BlockLen(dataCw, blocks, i);
      ghost var rest := BlockLensFrom(dataCw, blocks, i + 1);
      TotalCons(length, rest);
      SplitStep(codewords[offset..], length, rest);
      var chunk := codewords[offset..offset + length];
      assert codewords[offset..][..length] == chunk;
      assert codewords[offset..][length..] == codewords[offset + length..];
      AppendCons(dataBlocks, chunk, Split(codewords[offset + length..], rest));
      CheckBlocksPush(dataBlocks, chunk, eccN);
      var ecc := RS.RsEncode(t, chunk, eccN);
      offset := offset + length;
      dataBlocks := dataBlocks + [chunk];
      eccBlocks := eccBlocks + [ecc];
    }
    assert all == dataBlocks + [];
  }

  lemma TotalCons(length: nat, lens: seq<nat>)
    ensures Total([length] + lens) == length + Total(lens)
  {
    assert ([length] + lens)[1..] == lens;
  }

  /** One round of a reading loop: a byte of each block that still has one. */
  method AppendColumn(word: seq<Byte>, bs: seq<seq<Byte>>, i: nat) returns (out: seq<Byte>)
    ensures out == word + Column(bs, i)
  {
    out := word;
    for b := 0 to |bs|
      invariant out + Column(bs[b..], i) == word + Column(bs, i)
    {
      assert bs[b..][1..] == bs[b + 1..];
      if i < |bs[b]| {
        AppendCons(out, bs[b][i], Column(bs[b + 1..], i));
        out := out + [bs[b][i]];
      }
    }
    assert out == out + Column(bs[|bs|..], i);
  }

  method AppendColumns(word: seq<Byte>, bs: seq<seq<Byte>>, n: nat) returns (out: seq<Byte>)
    ensures out == word + Columns(bs, 0, n)
  {
    hide Column;
    out := word;
    for i := 0 to n
      invariant out + Columns(bs, i, n) == word + Columns(bs, 0, n)
    {
      ghost var rest := Columns(bs, i + 1, n);
      assert (out + Column(bs, i)) + rest == out + (Column(bs, i) + rest);
      out := AppendColumn(out, bs, i);
    }
    assert out == out + Columns(bs, n, n);
  }
}
