/** Bytes as integers against bytes as bit-vectors. */
module ByteBits {
  lemma RoundTrip(b: bv8)
    ensures (b as int) as bv8 == b
  {
  }

  lemma Successor(b: bv8)
    requires b != 0xFF
    ensures (b + 1) as int == b as int + 1
  {
  }

  lemma {:induction false} BitsOf(x: int) returns (b: bv8)
    requires 0 <= x < 256
    ensures b as int == x
    decreases x
  {
    if x == 0 {
      b := 0;
    } else {
      var c := BitsOf(x - 1);
      assert c != 0xFF;
      Successor(c);
      b := c + 1;
    }
  }

  lemma BytesAsBits(x: int)
    requires 0 <= x < 256
    ensures (x as bv8) as int == x
  {
    var b := BitsOf(x);
    RoundTrip(b);
  }
}

/** The field on bytes as integers, the form the encoder works in. */
module ByteField {
  import B = ByteBits
  import G = GaloisField

  type Byte = x: int | 0 <= x < 256

  function Add(x: Byte, y: Byte): Byte {
    G.Add(x as bv8, y as bv8) as int
  }

  ghost function Mul(x: Byte, y: Byte): Byte {
    G.Mul(x as bv8, y as bv8) as int
  }

  function Alpha(n: nat): Byte {
    G.Alpha(n) as int
  }

  lemma AddLaws(x: Byte, y: Byte, z: Byte)
    ensures Add(x, y) == Add(y, x)
    ensures Add(Add(x, y), z) == Add(x, Add(y, z))
    ensures Add(x, 0) == x && Add(0, x) == x
    ensures Add(x, x) == 0
    ensures Add(x, y) == 0 ==> x == y
  {
    hide G.Add;
    var u, v, w := x as bv8, y as bv8, z as bv8;
    G.AddLaws(u, v, w);
    B.BytesAsBits(x);
    B.BytesAsBits(y);
    B.RoundTrip(G.Add(u, v));
    B.RoundTrip(G.Add(v, w));
  }

  lemma MulLaws(a: Byte, b: Byte, c: Byte)
    ensures Mul(a, b) == Mul(b, a)
    ensures Mul(Mul(a, b), c) == Mul(a, Mul(b, c))
    ensures Mul(a, Add(b, c)) == Add(Mul(a, b), Mul(a, c))
    ensures Mul(1, a) == a && Mul(0, a) == 0
    ensures Mul(a, b) == 0 <==> a == 0 || b == 0
  {
    hide G.Add, G.Mul;
    var u, v, w := a as bv8, b as bv8, c as bv8;
    assert Mul(a, b) == Mul(b, a) by {
      G.MulCommutes(u, v);
    }
    assert Mul(Mul(a, b), c) == Mul(a, Mul(b, c)) by {
      G.MulAssociates(u, v, w);
      B.RoundTrip(G.Mul(u, v));
      B.RoundTrip(G.Mul(v, w));
    }
    assert Mul(a, Add(b, c)) == Add(Mul(a, b), Mul(a, c)) by {
      G.MulDistributes(u, v, w);
      B.RoundTrip(G.Add(v, w));
      B.RoundTrip(G.Mul(u, v));
      B.RoundTrip(G.Mul(u, w));
    }
    assert Mul(1, a) == a && Mul(0, a) == 0 by {
      B.BytesAsBits(a);
      G.MulOne(u);
      G.MulNonZero(0, u);
    }
    assert Mul(a, b) == 0 <==> a == 0 || b == 0 by {
      B.BytesAsBits(a);
      B.BytesAsBits(b);
      G.MulNonZero(u, v);
      B.RoundTrip(G.Mul(u, v));
    }
  }

  lemma AlphaLaws(m: nat, n: nat)
    ensures Mul(Alpha(m), Alpha(n)) == Alpha(m + n)
    ensures Alpha(n + 255) == Alpha(n) && Alpha(n) != 0 && Alpha(0) == 1
    ensures m < 255 && n < 255 && Alpha(m) == Alpha(n) ==> m == n
  {
    hide G.Mul;
    B.RoundTrip(G.Alpha(m));
    B.RoundTrip(G.Alpha(n));
    G.MulByAlpha(m, G.Alpha(n));
    G.TimesAdd(m, n, 1);
    G.AlphaPeriodic(n);
    G.AlphaNonZero(n);
    if m < 255 && n < 255 && Alpha(m) == Alpha(n) {
      G.AlphaInjective(m, n);
    }
  }

  ghost function Log(x: Byte): (i: nat)
    requires x != 0
    ensures i < 255 && Alpha(i) == x
  {
    B.BytesAsBits(x);
    G.Log(x as bv8)
  }

  // ---- doubling ----

  /** Shift left, and cancel bit 8 with 0x11D when it appears. */
  function Double(x: Byte): Byte {
    if 2 * x < 256 then 2 * x else Add(2 * x - 0x100, 0x1D)
  }

  lemma AlphaNext(n: nat)
    ensures Alpha(n + 1) == Double(Alpha(n))
  {
    var b := G.Alpha(n);
    assert G.Alpha(n + 1) == G.Double(b);
    DoubleByte(b);
  }

  lemma DoubleByte(b: bv8)
    ensures G.Double(b) as int == Double(b as int)
  {
    ShiftLeft(b);
    B.RoundTrip(b << 1);
    if b & 0x80 == 0 {
      assert G.Double(b) == b << 1;
    } else {
      assert G.Double(b) == G.Add(b << 1, 0x1D);
    }
  }

  lemma ShiftLeft(b: bv8)
    ensures b & 0x80 == 0 <==> b as int < 128
    ensures (b << 1) as int == if b as int < 128 then 2 * (b as int) else 2 * (b as int) - 256
  {
  }
}
