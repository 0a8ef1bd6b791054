/** GF(256) as the QR encoder's log tables define it: the generator alpha is 2,
    and doubling reduces by the polynomial 0x11D.  Multiplication by alpha^n is
    n doublings, a linear map; every law of the field follows from that and from
    alpha having order exactly 255. */
module GaloisField {

  function Double(x: bv8): bv8 {
    (x << 1) ^ (if x & 0x80 != 0 then 0x1D else 0)
  }

  /** alpha^n * x */
  function Times(n: nat, x: bv8): bv8 {
    if n == 0 then x else Double(Times(n - 1, x))
  }

  function Alpha(n: nat): bv8 {
    Times(n, 1)
  }

  // ---- addition: exclusive or ----

  function Add(x: bv8, y: bv8): bv8 {
    x ^ y
  }

  lemma AddLaws(x: bv8, y: bv8, z: bv8)
    ensures Add(x, y) == Add(y, x)
    ensures Add(Add(x, y), z) == Add(x, Add(y, z))
    ensures Add(x, 0) == x && Add(0, x) == x
    ensures Add(x, x) == 0
    ensures Add(x, y) == 0 ==> x == y
  {
    assert Add(x, y) == 0 ==> x == y by {
      if x ^ y == 0 { assert x == (x ^ y) ^ y; }
    }
  }

  lemma DoubleLinear(x: bv8, y: bv8)
    ensures Double(Add(x, y)) == Add(Double(x), Double(y))
  {
    assert (x ^ y) << 1 == (x << 1) ^ (y << 1);
    assert (x ^ y) & 0x80 == (x & 0x80) ^ (y & 0x80);
    assert x & 0x80 == 0 || x & 0x80 == 0x80;
    assert y & 0x80 == 0 || y & 0x80 == 0x80;
  }

  lemma DoubleInjective(x: bv8, y: bv8)
    requires Double(x) == Double(y)
    ensures x == y
  {
  }

  lemma {:induction false} TimesLinear(n: nat, x: bv8, y: bv8)
    ensures Times(n, Add(x, y)) == Add(Times(n, x), Times(n, y))
  {
    if n > 0 {
      TimesLinear(n - 1, x, y);
      DoubleLinear(Times(n - 1, x), Times(n - 1, y));
    }
  }

  lemma {:induction false} TimesAdd(m: nat, n: nat, x: bv8)
    ensures Times(m + n, x) == Times(m, Times(n, x))
  {
    if m > 0 {
      TimesAdd(m - 1, n, x);
    }
  }

  lemma {:induction false} TimesInjective(n: nat, x: bv8, y: bv8)
    requires Times(n, x) == Times(n, y)
    ensures x == y
  {
    if n > 0 {
      DoubleInjective(Times(n - 1, x), Times(n - 1, y));
      TimesInjective(n - 1, x, y);
    }
  }

  lemma TimesZero(n: nat)
    ensures Times(n, 0) == 0
  {
  }

  /** The first powers of the generator; the ninth is reduced by 0x11D. */
  lemma FirstPowers()
    ensures [Alpha(0), Alpha(1), Alpha(2), Alpha(3), Alpha(4), Alpha(5), Alpha(6), Alpha(7), Alpha(8)] ==
            [1, 2, 4, 8, 16, 32, 64, 128, 0x1D]
  {
    assert Alpha(1) == 2;
    assert Alpha(2) == 4;
    assert Alpha(3) == 8;
    assert Alpha(4) == 16;
    assert Alpha(5) == 32;
    assert Alpha(6) == 64;
    assert Alpha(7) == 128;
  }

  // ---- alpha has order exactly 255 ----

  function Double17(x: bv8): bv8 {
    Double(Double(Double(Double(Double(Double(Double(Double(Double(
    Double(Double(Double(Double(Double(Double(Double(Double(x)))))))))))))))))
  }

  lemma Times5(x: bv8)
    ensures Times(5, x) == Double(Double(Double(Double(Double(x)))))
  {
    assert Times(1, x) == Double(x);
    assert Times(2, x) == Double(Double(x));
    assert Times(3, x) == Double(Double(Double(x)));
    assert Times(4, x) == Double(Double(Double(Double(x))));
  }

  lemma AlphaPlus17(n: nat)
    ensures Alpha(n + 17) == Double17(Alpha(n))
  {
    var x := Alpha(n);
    Times5(x);
    Times5(Times(5, x));
    Times5(Times(10, x));
    TimesAdd(5, 5, x);
    TimesAdd(5, 10, x);
    TimesAdd(2, 15, x);
    var y := Times(15, x);
    assert Times(2, y) == Double(Double(y));
    TimesAdd(17, n, 1);
  }

  lemma AlphaConstants()
    ensures Alpha(15) == 0x26 && Alpha(51) == 0x0A && Alpha(85) == 0xD6 && Alpha(255) == 1
  {
    Times5(1);
    Times5(Times(5, 1));
    Times5(Times(10, 1));
    TimesAdd(5, 5, 1);
    TimesAdd(5, 10, 1);
    AlphaPlus17(0);
    AlphaPlus17(17);
    AlphaPlus17(34);
    assert Alpha(51) == 0x0A;
    AlphaPlus17(51);
    AlphaPlus17(68);
    assert Alpha(85) == 0xD6;
    AlphaPlus17(85);
    AlphaPlus17(102);
    AlphaPlus17(119);
    assert Alpha(136) == 0x4F;
    AlphaPlus17(136);
    AlphaPlus17(153);
    AlphaPlus17(170);
    assert Alpha(187) == 0xDC;
    AlphaPlus17(187);
    AlphaPlus17(204);
    AlphaPlus17(221);
    AlphaPlus17(238);
  }

  lemma {:induction false} AlphaMultiple(m: nat, k: nat)
    requires Alpha(m) == 1
    ensures Alpha(m * k) == 1
  {
    if k > 0 {
      AlphaMultiple(m, k - 1);
      assert m * k == m + m * (k - 1);
      TimesAdd(m, m * (k - 1), 1);
    }
  }

  lemma LeastPeriod(d: nat) returns (m: nat)
    requires 0 < d && Alpha(d) == 1
    ensures 0 < m <= d && Alpha(m) == 1
    ensures forall k :: 0 < k < m ==> Alpha(k) != 1
  {
    m := 1;
    while Alpha(m) != 1
      invariant 0 < m <= d
      invariant forall k :: 0 < k < m ==> Alpha(k) != 1
      decreases d - m
    {
      m := m + 1;
    }
  }

  lemma SmallDivisor(a: nat, b: nat)
    requires a * b == 255 && a <= 15
    ensures a == 1 || (a == 3 && b == 85) || (a == 5 && b == 51) || (a == 15 && b == 17)
  {
    if a == 0 {
    } else if a == 1 {
    } else if a == 2 {
    } else if a == 3 {
    } else if a == 4 {
    } else if a == 5 {
    } else if a == 6 {
    } else if a == 7 {
    } else if a == 8 {
    } else if a == 9 {
    } else if a == 10 {
    } else if a == 11 {
    } else if a == 12 {
    } else if a == 13 {
    } else if a == 14 {
    }
  }

  /** A proper divisor of 255 divides 85, 51 or 15. */
  lemma ProperDivisor(m: nat, q: nat) returns (k: nat)
    requires m * q == 255 && m < 255
    ensures m * k == 85 || m * k == 51 || m * k == 15
  {
    if q <= 15 {
      SmallDivisor(q, m);
      k := if m == 17 then 5 else 1;
    } else if m <= 15 {
      SmallDivisor(m, q);
      k := if m == 1 then 15 else if m == 3 then 5 else if m == 5 then 3 else 1;
    } else {
      assert false;
    }
  }

  lemma AlphaOrder(d: nat)
    requires 0 < d < 255
    ensures Alpha(d) != 1
  {
    if Alpha(d) == 1 {
      hide Times;
      AlphaConstants();
      var m := LeastPeriod(d);
      var q, r := 255 / m, 255 % m;
      AlphaMultiple(m, q);
      assert 255 == r + m * q;
      TimesAdd(r, m * q, 1);
      assert Times(r, 1) == 1;
      assert Alpha(r) == 1;
      assert r == 0;
      var k := ProperDivisor(m, q);
      AlphaMultiple(m, k);
      assert false;
    }
  }

  lemma AlphaInjective(i: nat, j: nat)
    requires i < 255 && j < 255 && Alpha(i) == Alpha(j)
    ensures i == j
  {
    if i < j {
      TimesAdd(i, j - i, 1);
      TimesInjective(i, 1, Alpha(j - i));
      AlphaOrder(j - i);
    } else if j < i {
      AlphaInjective(j, i);
    }
  }

  lemma AlphaPeriodic(n: nat)
    ensures Alpha(n + 255) == Alpha(n)
  {
    AlphaConstants();
    TimesAdd(n, 255, 1);
  }

  lemma AlphaNonZero(n: nat)
    ensures Alpha(n) != 0
  {
    if Alpha(n) == 0 {
      TimesZero(n);
      TimesInjective(n, 1, 0);
    }
  }

  // ---- every non-zero byte is a power of alpha ----

  ghost function Powers(n: nat): set<int> {
    set i: nat | i < n :: Alpha(i) as int
  }

  lemma {:induction false} PowersCount(n: nat)
    requires n <= 255
    ensures |Powers(n)| == n
  {
    if n > 0 {
      PowersCount(n - 1);
      assert Powers(n) == Powers(n - 1) + {Alpha(n - 1) as int};
      if Alpha(n - 1) as int in Powers(n - 1) {
        var i: nat :| i < n - 1 && Alpha(i) as int == Alpha(n - 1) as int;
        assert Alpha(i) == (Alpha(i) as int) as bv8;
        AlphaInjective(i, n - 1);
      }
    }
  }

  lemma {:induction false} RangeCount(s: set<int>, n: nat)
    requires forall x :: x in s ==> 0 < x <= n
    ensures |s| <= n
  {
    if n == 0 {
      assert forall x :: x in s ==> false;
      assert s == {};
    } else {
      RangeCount(s - {n}, n - 1);
      assert s <= (s - {n}) + {n};
    }
  }

  lemma LogExists(x: bv8)
    requires x != 0
    ensures exists i: nat :: i < 255 && Alpha(i) == x
  {
    var v := x as int;
    PowersCount(255);
    if v in Powers(255) {
      var i: nat :| i < 255 && Alpha(i) as int == v;
      assert Alpha(i) == (Alpha(i) as int) as bv8;
    } else {
      forall p | p in Powers(255) + {v}
        ensures 0 < p <= 255
      {
        if p in Powers(255) {
          var i: nat :| i < 255 && Alpha(i) as int == p;
          AlphaNonZero(i);
        }
      }
      RangeCount(Powers(255) + {v}, 255);
      assert false;
    }
  }

  ghost function Log(x: bv8): (i: nat)
    requires x != 0
    ensures i < 255 && Alpha(i) == x
  {
    LogExists(x);
    var i: nat :| i < 255 && Alpha(i) == x;
    i
  }

  /** The product of the field. */
  ghost function Mul(a: bv8, b: bv8): bv8 {
    if a == 0 || b == 0 then 0 else Alpha(Log(a) + Log(b))
  }

  lemma MulByAlpha(n: nat, b: bv8)
    ensures Mul(Alpha(n), b) == Times(n, b)
  {
    hide Times;
    TimesZero(n);
    AlphaNonZero(n);
    if b != 0 {
      var l := Log(Alpha(n));
      TimesAdd(l, Log(b), 1);
      TimesAdd(Log(b), l, 1);
      TimesAdd(Log(b), n, 1);
      TimesAdd(n, Log(b), 1);
    }
  }

  lemma MulCommutes(a: bv8, b: bv8)
    ensures Mul(a, b) == Mul(b, a)
  {
    if a != 0 && b != 0 {
      assert Log(a) + Log(b) == Log(b) + Log(a);
    }
  }

  lemma MulAssociates(a: bv8, b: bv8, c: bv8)
    ensures Mul(Mul(a, b), c) == Mul(a, Mul(b, c))
  {
    if a != 0 && c != 0 {
      MulByAlpha(Log(a), b);
      MulByAlpha(Log(c), b);
      MulByAlpha(Log(c), Mul(a, b));
      MulByAlpha(Log(a), Mul(c, b));
      MulCommutes(Mul(a, b), c);
      MulCommutes(b, c);
      TimesAdd(Log(a), Log(c), b);
      TimesAdd(Log(c), Log(a), b);
    } else {
      assert Mul(a, 0) == 0;
    }
  }

  lemma MulDistributes(a: bv8, b: bv8, c: bv8)
    ensures Mul(a, Add(b, c)) == Add(Mul(a, b), Mul(a, c))
  {
    if a != 0 {
      TimesLinear(Log(a), b, c);
      MulByAlpha(Log(a), b);
      MulByAlpha(Log(a), c);
      MulByAlpha(Log(a), Add(b, c));
    }
  }

  lemma MulOne(a: bv8)
    ensures Mul(1, a) == a
  {
    MulByAlpha(0, a);
  }

  lemma MulNonZero(a: bv8, b: bv8)
    ensures Mul(a, b) == 0 <==> a == 0 || b == 0
  {
    if a != 0 && b != 0 {
      AlphaNonZero(Log(a) + Log(b));
    }
  }
}
