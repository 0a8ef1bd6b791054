/** The power and log tables that the encoder multiplies through. */
module LogTables {
  import opened ByteField

  datatype Tables = Tables(exp: seq<Byte>, log: seq<nat>) {
    ghost predicate Valid() {
      && |exp| == 512 && |log| == 256
      && (forall i: nat :: i < 512 ==> exp[i] == Alpha(i))
      && (forall i: nat :: i < 255 ==> log[Alpha(i)] == i)
    }

    /** The product read off the tables is the product of the field. */
    function Product(a: Byte, b: Byte): (r: Byte)
      requires Valid()
      ensures r == Mul(a, b)
    {
      hide Add, Alpha;
      MulLaws(a, b, 0);
      if a == 0 || b == 0 then 0
      else
        AlphaLaws(Log(a), Log(b));
        assert log[Alpha(Log(a))] == Log(a) && log[Alpha(Log(b))] == Log(b);
        exp[log[a] + log[b]]
    }
  }

  /** Fills the two tables in place, one doubling at a time. */
  method InitTables() returns (t: Tables)
    ensures t.Valid()
  {
    hide Add, Alpha, Double;
    var exp := new Byte[512](_ => 0);
    var log := new nat[256](_ => 0);
    var x: Byte := 1;
    AlphaLaws(0, 0);
    for i := 0 to 255
      invariant x == Alpha(i)
      invariant forall k: nat :: k < i ==> exp[k] == Alpha(k)
      invariant forall k: nat :: k < i ==> log[Alpha(k)] == k
    {
      exp[i] := x;
      forall k: nat | k < i ensures Alpha(k) != x {
        AlphaLaws(k, i);
      }
      log[x] := i;
      AlphaNext(i);
      x := Double(x);
    }
    for i := 255 to 512
      invariant forall k: nat :: k < i ==> exp[k] == Alpha(k)
      invariant forall k: nat :: k < 255 ==> log[Alpha(k)] == k
    {
      AlphaLaws(0, i - 255);
      exp[i] := exp[i - 255];
    }
    t := Tables(exp[..], log[..]);
  }
}
