/** The Reed-Solomon encoder.  Words are read as polynomials, highest degree first. */
module ReedSolomon {
  import opened Basics
  import opened ByteField
  import opened LogTables

  ghost function Eval(p: seq<Byte>, x: Byte): Byte {
    if p == [] then 0 else Add(Mul(Eval(p[..|p| - 1], x), x), p[|p| - 1])
  }

  ghost function Sum(p: seq<Byte>, q: seq<Byte>): (r: seq<Byte>)
    requires |p| == |q|
    ensures |r| == |p|
  {
    seq(|p|, i requires 0 <= i < |p| => Add(p[i], q[i]))
  }

  ghost function Scale(f: Byte, p: seq<Byte>): (r: seq<Byte>)
    ensures |r| == |p|
  {
    seq(|p|, i requires 0 <= i < |p| => Mul(f, p[i]))
  }

  ghost function Zeros(n: nat): (r: seq<Byte>)
    ensures |r| == n
  {
    seq(n, _ => 0)
  }

  lemma EvalPush(p: seq<Byte>, c: Byte, x: Byte)
    ensures Eval(p + [c], x) == Add(Mul(Eval(p, x), x), c)
  {
    assert (p + [c])[..|p|] == p;
  }

  lemma {:induction false} EvalSum(p: seq<Byte>, q: seq<Byte>, x: Byte)
    requires |p| == |q|
    ensures Eval(Sum(p, q), x) == Add(Eval(p, x), Eval(q, x))
  {
    hide Add, Mul, Alpha;
    if p == [] {
      AddLaws(0, 0, 0);
    } else {
      var n := |p| - 1;
      EvalSum(p[..n], q[..n], x);
      assert Sum(p, q) == Sum(p[..n], q[..n]) + [Add(p[n], q[n])];
      EvalPush(Sum(p[..n], q[..n]), Add(p[n], q[n]), x);
      var a, b := Eval(p[..n], x), Eval(q[..n], x);
      MulDistributesRight(a, b, x);
      AddInterchange(Mul(a, x), Mul(b, x), p[n], q[n]);
    }
  }

  lemma MulDistributesRight(a: Byte, b: Byte, x: Byte)
    ensures Mul(Add(a, b), x) == Add(Mul(a, x), Mul(b, x))
  {
    hide Add, Mul, Alpha;
    MulLaws(x, a, b);
    MulLaws(x, a, 0);
    MulLaws(x, b, 0);
    MulLaws(x, Add(a, b), 0);
  }

  lemma AddInterchange(a: Byte, b: Byte, c: Byte, d: Byte)
    ensures Add(Add(a, b), Add(c, d)) == Add(Add(a, c), Add(b, d))
  {
    hide Add, Mul, Alpha;
    AddLaws(a, b, Add(c, d));
    AddLaws(b, c, d);
    AddLaws(c, b, d);
    AddLaws(a, c, Add(b, d));
  }

  lemma {:induction false} EvalScale(f: Byte, p: seq<Byte>, x: Byte)
    ensures Eval(Scale(f, p), x) == Mul(f, Eval(p, x))
  {
    hide Add, Mul, Alpha;
    MulLaws(f, 0, 0);
    if p == [] {
    } else {
      var n := |p| - 1;
      EvalScale(f, p[..n], x);
      assert Scale(f, p) == Scale(f, p[..n]) + [Mul(f, p[n])];
      EvalPush(Scale(f, p[..n]), Mul(f, p[n]), x);
      MulLaws(f, Eval(p[..n], x), x);
      MulLaws(f, Mul(Eval(p[..n], x), x), p[n]);
    }
  }

  lemma {:induction false} EvalZeros(n: nat, p: seq<Byte>, x: Byte)
    ensures Eval(Zeros(n) + p, x) == Eval(p, x)
  {
    hide Add, Mul, Alpha;
    AddLaws(0, 0, 0);
    MulLaws(0, x, 0);
    if p != [] {
      var m := |p| - 1;
      EvalZeros(n, p[..m], x);
      assert Zeros(n) + p == (Zeros(n) + p[..m]) + [p[m]];
      EvalPush(Zeros(n) + p[..m], p[m], x);
    } else if n > 0 {
      EvalZeros(n - 1, [], x);
      assert Zeros(n) + [] == (Zeros(n - 1) + []) + [0];
      EvalPush(Zeros(n - 1) + [], 0, x);
    } else {
      assert Zeros(0) + [] == [];
    }
  }

  // ---- the generator polynomial ----

  /** gen times (X + root) */
  ghost function TimesLinearFactor(gen: seq<Byte>, root: Byte): (r: seq<Byte>)
    ensures |r| == |gen| + 1
  {
    Sum(gen + [0], [0] + Scale(root, gen))
  }

  ghost function Generator(nsym: nat): (gen: seq<Byte>)
    ensures |gen| == nsym + 1 && gen[0] == 1
  {
    if nsym == 0 then [1]
    else
      var prev := Generator(nsym - 1);
      AddLaws(1, 0, 0);
      TimesLinearFactor(prev, Alpha(nsym - 1))
  }

  lemma EvalLinearFactor(gen: seq<Byte>, root: Byte, x: Byte)
    ensures Eval(TimesLinearFactor(gen, root), x) == Mul(Eval(gen, x), Add(x, root))
  {
    hide Add, Mul, Alpha;
    EvalSum(gen + [0], [0] + Scale(root, gen), x);
    EvalPush(gen, 0, x);
    assert [0] + Scale(root, gen) == Zeros(1) + Scale(root, gen);
    EvalZeros(1, Scale(root, gen), x);
    EvalScale(root, gen, x);
    MulLaws(root, Eval(gen, x), 0);
    MulLaws(Eval(gen, x), x, root);
    AddLaws(Mul(Eval(gen, x), x), 0, 0);
  }

  ghost predicate PowerBelow(nsym: nat, x: Byte) {
    exists i: nat :: i < nsym && x == Alpha(i)
  }

  lemma PowerBelowNext(n: nat, x: Byte)
    ensures !PowerBelow(0, x)
    ensures PowerBelow(n + 1, x) <==> PowerBelow(n, x) || x == Alpha(n)
  {
  }

  /** The generator vanishes at alpha^0 .. alpha^(nsym-1) and nowhere else. */
  lemma {:induction false} GeneratorRoots(nsym: nat, x: Byte)
    ensures Eval(Generator(nsym), x) == 0 <==> PowerBelow(nsym, x)
  {
    hide Add, Mul, Alpha, PowerBelow;
    if nsym == 0 {
      PowerBelowNext(0, x);
      assert Generator(0) == [] + [1];
      EvalPush([], 1, x);
      MulLaws(0, x, 0);
      AddLaws(1, 0, 0);
    } else {
      var n := nsym - 1;
      GeneratorRoots(n, x);
      PowerBelowNext(n, x);
      EvalLinearFactor(Generator(n), Alpha(n), x);
      MulLaws(Eval(Generator(n), x), Add(x, Alpha(n)), 0);
      AddLaws(x, Alpha(n), 0);
    }
  }

  method RsGenerator(t: Tables, nsym: nat) returns (gen: seq<Byte>)
    requires t.Valid() && nsym <= 512
    ensures gen == Generator(nsym)
  {
    gen := [1];
    for i := 0 to nsym
      invariant gen == Generator(i)
    {
      gen := TimesRoot(t, gen, t.exp[i]);
    }
  }

  /** The inner loop of the generator, which scatters each coefficient over two
      places of the next polynomial. */
  method TimesRoot(t: Tables, gen: seq<Byte>, root: Byte) returns (nxt: seq<Byte>)
    requires t.Valid()
    ensures nxt == TimesLinearFactor(gen, root)
  {
    hide Add, Mul, Alpha;
    var a := new Byte[|gen| + 1](_ => 0);
    ghost var shifted := [0] + Scale(root, gen);
    for j := 0 to |gen|
      invariant forall k :: 0 <= k < j ==> a[k] == Add(gen[k], shifted[k])
      invariant a[j] == shifted[j]
      invariant forall k :: j < k <= |gen| ==> a[k] == 0
    {
      AddLaws(a[j], gen[j], 0);
      MulLaws(gen[j], root, 0);
      AddLaws(t.Product(gen[j], root), 0, 0);
      a[j] := Add(a[j], gen[j]);
      a[j + 1] := Add(a[j + 1], t.Product(gen[j], root));
    }
    AddLaws(a[|gen|], 0, 0);
    nxt := a[..];
    assert forall k :: 0 <= k <= |gen| ==> nxt[k] == TimesLinearFactor(gen, root)[k];
  }

  // ---- the check bytes ----

  /** One turn of the shift register. */
  ghost function Turn(gen: seq<Byte>, ecc: seq<Byte>, byte: Byte): (r: seq<Byte>)
    requires |gen| == |ecc| + 1 && ecc != []
    ensures |r| == |ecc|
  {
    Sum(ecc[1..] + [0], Scale(Add(byte, ecc[0]), gen[1..]))
  }

  ghost function Check(data: seq<Byte>, nsym: nat): (ecc: seq<Byte>)
    requires nsym > 0
    ensures |ecc| == nsym
  {
    if data == [] then Zeros(nsym)
    else Turn(Generator(nsym), Check(data[..|data| - 1], nsym), data[|data| - 1])
  }

  lemma CheckPush(data: seq<Byte>, byte: Byte, nsym: nat)
    requires nsym > 0
    ensures Check(data + [byte], nsym) == Turn(Generator(nsym), Check(data, nsym), byte)
  {
    assert (data + [byte])[..|data|] == data;
  }

  method RsEncode(t: Tables, data: seq<Byte>, nsym: nat) returns (ecc: seq<Byte>)
    requires t.Valid() && 0 < nsym <= 512
    ensures ecc == Check(data, nsym)
  {
    hide Add, Mul, Alpha;
    var gen := RsGenerator(t, nsym);
    ecc := seq(nsym, _ => 0);
    for i := 0 to |data|
      invariant ecc == Check(data[..i], nsym)
    {
      assert data[..i + 1] == data[..i] + [data[i]];
      CheckPush(data[..i], data[i], nsym);
      var factor := Add(data[i], ecc[0]);
      var shifted := ecc[1..] + [0];
      ghost var target := Turn(gen, ecc, data[i]);
      ecc := shifted;
      if factor == 0 {
        forall k | 0 <= k < nsym ensures target[k] == ecc[k] {
          AddLaws(shifted[k], 0, 0);
          MulLaws(gen[k + 1], 0, 0);
        }
        assert ecc == target;
        continue;
      }
      for j := 0 to nsym
        invariant |ecc| == nsym
        invariant forall k :: 0 <= k < j ==> ecc[k] == target[k]
        invariant forall k :: j <= k < nsym ==> ecc[k] == shifted[k]
      {
        MulLaws(gen[j + 1], factor, 0);
        ecc := ecc[j := Add(ecc[j], t.Product(gen[j + 1], factor))];
      }
      assert ecc == target;
    }
    assert data[..|data|] == data;
  }

  /** A turn of the register keeps every root of the generator: sliding the
      codeword one place left and cancelling its leading check byte with a
      multiple of the generator gives the codeword of the longer message. */
  lemma TurnKeepsRoot(data: seq<Byte>, ecc: seq<Byte>, byte: Byte, gen: seq<Byte>, x: Byte)
    requires ecc != [] && |gen| == |ecc| + 1 && gen[0] == 1
    requires Eval(gen, x) == 0 && Eval(data + ecc, x) == 0
    ensures Eval(data + [byte] + Turn(gen, ecc, byte), x) == 0
  {
    hide Add, Mul, Alpha;
    var f := Add(byte, ecc[0]);
    var slid := data + ecc + [0];
    var cancel := Zeros(|data|) + Scale(f, gen);
    var word := data + [byte] + Turn(gen, ecc, byte);
    forall i | 0 <= i < |word| ensures word[i] == Sum(slid, cancel)[i] {
      if i < |data| {
        AddLaws(data[i], 0, 0);
      } else if i == |data| {
        MulLaws(f, 0, 0);
        MulLaws(f, 1, 0);
        AddLaws(ecc[0], ecc[0], byte);
        AddLaws(byte, ecc[0], 0);
        AddLaws(ecc[0], byte, 0);
        assert slid[i] == ecc[0] && cancel[i] == f;
        assert Add(ecc[0], Add(ecc[0], byte)) == byte;
      } else {
        var k := i - |data| - 1;
        assert word[i] == Turn(gen, ecc, byte)[k];
        assert slid[i] == (ecc[1..] + [0])[k];
        assert cancel[i] == Scale(f, gen)[k + 1] == Scale(f, gen[1..])[k];
      }
    }
    assert word == Sum(slid, cancel);
    EvalSum(slid, cancel, x);
    EvalPush(data + ecc, 0, x);
    EvalZeros(|data|, Scale(f, gen), x);
    EvalScale(f, gen, x);
    MulLaws(f, 0, 0);
    MulLaws(0, x, 0);
    AddLaws(0, 0, 0);
  }

  lemma GeneratorRoot(nsym: nat, i: nat)
    requires i < nsym
    ensures Eval(Generator(nsym), Alpha(i)) == 0
  {
    GeneratorRoots(nsym, Alpha(i));
    assert PowerBelow(nsym, Alpha(i));
  }

  /** The message followed by its check bytes vanishes at every root. */
  lemma {:induction false} CodewordRoots(data: seq<Byte>, nsym: nat, i: nat)
    requires i < nsym
    ensures Eval(data + Check(data, nsym), Alpha(i)) == 0
  {
    hide Add, Mul, Alpha, Generator, Turn;
    if data == [] {
      EvalZeros(nsym, [], Alpha(i));
      assert data + Check(data, nsym) == Zeros(nsym) + [];
    } else {
      var front, byte := data[..|data| - 1], data[|data| - 1];
      CodewordRoots(front, nsym, i);
      GeneratorRoot(nsym, i);
      TurnKeepsRoot(front, Check(front, nsym), byte, Generator(nsym), Alpha(i));
      assert data == front + [byte];
    }
  }

  // ---- minimum distance ----

  datatype Term = Term(coef: Byte, locator: Byte)

  ghost function Power(x: Byte, i: nat): Byte {
    if i == 0 then 1 else Mul(Power(x, i - 1), x)
  }

  ghost function PowerSum(ts: seq<Term>, i: nat): Byte {
    if ts == [] then 0
    else Add(PowerSum(ts[..|ts| - 1], i), Mul(ts[|ts| - 1].coef, Power(ts[|ts| - 1].locator, i)))
  }

  ghost predicate Distinct(ts: seq<Term>) {
    forall i, j :: 0 <= i < j < |ts| ==> ts[i].locator != ts[j].locator
  }

  /** Weights every term by (its locator + x). */
  ghost function Eliminate(ts: seq<Term>, x: Byte): (r: seq<Term>)
    ensures |r| == |ts|
  {
    seq(|ts|, k requires 0 <= k < |ts| => Term(Mul(ts[k].coef, Add(ts[k].locator, x)), ts[k].locator))
  }

  lemma {:induction false} PowerSumEliminate(ts: seq<Term>, x: Byte, i: nat)
    ensures PowerSum(Eliminate(ts, x), i) == Add(PowerSum(ts, i + 1), Mul(x, PowerSum(ts, i)))
  {
    hide Add, Mul, Alpha;
    if ts == [] {
      AddLaws(0, 0, 0);
      MulLaws(x, 0, 0);
    } else {
      var n := |ts| - 1;
      var front, c, y := ts[..n], ts[n].coef, ts[n].locator;
      PowerSumEliminate(front, x, i);
      assert Eliminate(ts, x)[..n] == Eliminate(front, x);
      EliminateTerm(c, y, x, Power(y, i));
      MulLaws(x, PowerSum(front, i), Mul(c, Power(y, i)));
      AddInterchange(PowerSum(front, i + 1), Mul(x, PowerSum(front, i)),
                     Mul(c, Power(y, i + 1)), Mul(x, Mul(c, Power(y, i))));
    }
  }

  lemma EliminateTerm(c: Byte, y: Byte, x: Byte, p: Byte)
    ensures Mul(Mul(c, Add(y, x)), p) == Add(Mul(c, Mul(p, y)), Mul(x, Mul(c, p)))
  {
    hide Add, Mul, Alpha;
    MulLaws(c, y, x);
    MulDistributesRight(Mul(c, y), Mul(c, x), p);
    MulLaws(c, y, p);
    MulLaws(y, p, 0);
    MulLaws(c, x, 0);
    MulLaws(x, c, p);
  }

  /** Vandermonde: w terms with distinct locators whose first w power sums
      vanish are all zero. */
  lemma {:induction false} Vandermonde(ts: seq<Term>)
    requires Distinct(ts)
    requires forall i: nat :: i < |ts| ==> PowerSum(ts, i) == 0
    ensures forall k :: 0 <= k < |ts| ==> ts[k].coef == 0
    decreases |ts|
  {
    hide Add, Mul, Alpha;
    if ts != [] {
      var n := |ts| - 1;
      var front, last := ts[..n], ts[n];
      var rest := Eliminate(front, last.locator);
      forall i: nat | i < n ensures PowerSum(rest, i) == 0 {
        assert PowerSum(ts, i) == 0 && PowerSum(ts, i + 1) == 0;
        PowerSumEliminate(front, last.locator, i);
        LastTermCancels(PowerSum(front, i + 1), PowerSum(front, i), last.coef, last.locator, Power(last.locator, i));
      }
      Vandermonde(rest);
      forall k | 0 <= k < n ensures front[k].coef == 0 {
        assert rest[k].coef == 0;
        assert ts[k].locator != ts[n].locator;
        MulLaws(front[k].coef, Add(front[k].locator, last.locator), 0);
        AddLaws(front[k].locator, last.locator, 0);
      }
      PowerSumZero(front, 0);
      assert PowerSum(ts, 0) == 0;
      AddLaws(0, Mul(last.coef, 1), 0);
      MulLaws(last.coef, 1, 0);
    }
  }

  lemma LastTermCancels(s1: Byte, s0: Byte, c: Byte, x: Byte, p: Byte)
    requires Add(s1, Mul(c, Mul(p, x))) == 0 && Add(s0, Mul(c, p)) == 0
    ensures Add(s1, Mul(x, s0)) == 0
  {
    hide Add, Mul, Alpha;
    AddLaws(s1, Mul(c, Mul(p, x)), 0);
    AddLaws(s0, Mul(c, p), 0);
    MulLaws(p, x, 0);
    MulLaws(c, x, p);
    MulLaws(x, c, p);
    MulLaws(c, x, 0);
    AddLaws(s1, s1, 0);
  }

  lemma {:induction false} PowerSumZero(ts: seq<Term>, i: nat)
    requires forall k :: 0 <= k < |ts| ==> ts[k].coef == 0
    ensures PowerSum(ts, i) == 0
  {
    AddLaws(0, 0, 0);
    if ts != [] {
      PowerSumZero(ts[..|ts| - 1], i);
    }
  }

  ghost function Weight(c: seq<Byte>): nat {
    if c == [] then 0 else Weight(c[..|c| - 1]) + (if c[|c| - 1] == 0 then 0 else 1)
  }

  /** The non-zero coefficients of c * X^d, each at the power of alpha that
      stands for its degree. */
  ghost function TermsOf(c: seq<Byte>, d: nat): (ts: seq<Term>)
    ensures |ts| == Weight(c)
    ensures forall k :: 0 <= k < |ts| ==> ts[k].coef != 0
  {
    if c == [] then []
    else
      var last := c[|c| - 1];
      TermsOf(c[..|c| - 1], d + 1) + (if last == 0 then [] else [Term(last, Alpha(d))])
  }

  lemma {:induction false} PowerOfAlpha(d: nat, i: nat)
    ensures Power(Alpha(d), i) == Alpha(i * d)
  {
    hide Add, Mul, Alpha;
    AlphaLaws(0, 0);
    if i > 0 {
      PowerOfAlpha(d, i - 1);
      AlphaLaws((i - 1) * d, d);
      assert (i - 1) * d + d == i * d;
    }
  }

  lemma {:induction false} PowerSumOfTerms(c: seq<Byte>, d: nat, i: nat)
    ensures PowerSum(TermsOf(c, d), i) == Mul(Eval(c, Alpha(i)), Alpha(i * d))
  {
    hide Add, Mul, Alpha;
    if c == [] {
      MulLaws(Alpha(i * d), 0, 0);
    } else {
      var front, last := c[..|c| - 1], c[|c| - 1];
      PowerSumOfTerms(front, d + 1, i);
      var e, x, y := Eval(front, Alpha(i)), Alpha(i), Alpha(i * d);
      AlphaLaws(i, i * d);
      assert i * (d + 1) == i + i * d;
      MulLaws(e, x, y);
      MulDistributesRight(Mul(e, x), last, y);
      PowerOfAlpha(d, i);
      MulLaws(y, 0, 0);
      AddLaws(Mul(Mul(e, x), y), 0, 0);
      if last != 0 {
        var ts := TermsOf(c, d);
        assert ts[..|ts| - 1] == TermsOf(front, d + 1);
      } else {
        assert TermsOf(c, d) == TermsOf(front, d + 1);
      }
    }
  }

  lemma {:induction false} TermLocators(c: seq<Byte>, d: nat)
    requires d + |c| <= 255
    ensures Distinct(TermsOf(c, d))
    ensures forall k :: 0 <= k < |TermsOf(c, d)| ==>
              exists e: nat :: d <= e < d + |c| && TermsOf(c, d)[k].locator == Alpha(e)
  {
    hide Add, Mul, Alpha;
    if c != [] {
      var front := TermsOf(c[..|c| - 1], d + 1);
      TermLocators(c[..|c| - 1], d + 1);
      forall k | 0 <= k < |front| ensures front[k].locator != Alpha(d) {
        var e: nat :| d + 1 <= e < d + |c| && front[k].locator == Alpha(e);
        AlphaLaws(e, d);
      }
    }
  }

  /** A word of at most 255 bytes with nsym consecutive roots is zero or has more
      than nsym non-zero bytes. */
  lemma LowWeight(c: seq<Byte>, nsym: nat)
    requires |c| <= 255 && Weight(c) <= nsym
    requires forall i: nat :: i < nsym ==> Eval(c, Alpha(i)) == 0
    ensures Weight(c) == 0
  {
    hide Add, Mul, Alpha, Eval;
    var ts := TermsOf(c, 0);
    TermLocators(c, 0);
    forall i: nat | i < |ts| ensures PowerSum(ts, i) == 0 {
      PowerSumOfTerms(c, 0, i);
      MulLaws(0, Alpha(i * 0), 0);
    }
    assert |ts| > 0 ==> ts[0].coef != 0;
    Vandermonde(ts);
  }

  lemma {:induction false} DistanceIsWeight(a: seq<Byte>, b: seq<Byte>)
    requires |a| == |b|
    ensures Weight(Sum(a, b)) == Distance(a, b)
  {
    hide Add;
    if a != [] {
      var n := |a| - 1;
      DistanceIsWeight(a[..n], b[..n]);
      assert Sum(a, b)[..n] == Sum(a[..n], b[..n]);
      AddLaws(a[n], b[n], 0);
    }
  }

  ghost predicate HasRoots(w: seq<Byte>, nsym: nat) {
    forall i: nat :: i < nsym ==> Eval(w, Alpha(i)) == 0
  }

  ghost function Codeword(data: seq<Byte>, nsym: nat): (w: seq<Byte>)
    requires nsym > 0
    ensures |w| == |data| + nsym
  {
    data + Check(data, nsym)
  }

  lemma CodewordHasRoots(data: seq<Byte>, nsym: nat)
    requires nsym > 0
    ensures HasRoots(Codeword(data, nsym), nsym)
  {
    forall i: nat | i < nsym ensures Eval(Codeword(data, nsym), Alpha(i)) == 0 {
      CodewordRoots(data, nsym, i);
    }
  }

  /** Two words with the roots that differ in at most nsym places are equal. */
  lemma CloseWordsAgree(u: seq<Byte>, v: seq<Byte>, nsym: nat)
    requires |u| == |v| <= 255 && HasRoots(u, nsym) && HasRoots(v, nsym)
    requires Distance(u, v) <= nsym
    ensures u == v
  {
    hide Add, Mul, Alpha;
    forall i: nat | i < nsym ensures Eval(Sum(u, v), Alpha(i)) == 0 {
      EvalSum(u, v, Alpha(i));
      AddLaws(0, 0, 0);
    }
    DistanceIsWeight(u, v);
    LowWeight(Sum(u, v), nsym);
    DistanceZero(u, v);
  }

  /** Minimum distance: codewords of different messages differ in more than nsym places. */
  lemma MinimumDistance(m1: seq<Byte>, m2: seq<Byte>, nsym: nat)
    requires nsym > 0 && |m1| == |m2| && |m1| + nsym <= 255 && m1 != m2
    ensures Distance(Codeword(m1, nsym), Codeword(m2, nsym)) > nsym
  {
    var u, v := Codeword(m1, nsym), Codeword(m2, nsym);
    assert m1 == u[..|m1|] && m2 == v[..|m1|];
    if Distance(u, v) <= nsym {
      CodewordHasRoots(m1, nsym);
      CodewordHasRoots(m2, nsym);
      CloseWordsAgree(u, v, nsym);
      assert false;
    }
  }

  /** A received word within nsym/2 errors of a codeword determines the message. */
  lemma UniqueDecoding(received: seq<Byte>, m1: seq<Byte>, m2: seq<Byte>, nsym: nat)
    requires nsym > 0 && |m1| == |m2| && |received| == |m1| + nsym <= 255
    requires 2 * Distance(received, Codeword(m1, nsym)) <= nsym
    requires 2 * Distance(received, Codeword(m2, nsym)) <= nsym
    ensures m1 == m2
  {
    Triangle(Codeword(m1, nsym), received, Codeword(m2, nsym));
    if m1 != m2 {
      MinimumDistance(m1, m2, nsym);
    }
  }

  /** The encoder's check bytes are the only ones that give the message its roots. */
  lemma CheckBytesUnique(data: seq<Byte>, ecc: seq<Byte>, nsym: nat)
    requires |ecc| == nsym > 0 && |data| + nsym <= 255
    ensures HasRoots(data + ecc, nsym) <==> ecc == Check(data, nsym)
  {
    CodewordHasRoots(data, nsym);
    if HasRoots(data + ecc, nsym) {
      var u, v := data + ecc, Codeword(data, nsym);
      SharedPrefix(data, ecc, Check(data, nsym));
      CloseWordsAgree(u, v, nsym);
      assert ecc == u[|data|..] == v[|data|..];
    }
  }

  lemma {:induction false} SharedPrefix(p: seq<Byte>, a: seq<Byte>, b: seq<Byte>)
    requires |a| == |b|
    ensures Distance(p + a, p + b) <= |a|
    decreases |p| + |a|
  {
    if a != [] {
      var n := |a| - 1;
      SharedPrefix(p, a[..n], b[..n]);
      assert (p + a)[..|p| + n] == p + a[..n] && (p + b)[..|p| + n] == p + b[..n];
    } else if p != [] {
      var n := |p| - 1;
      SharedPrefix(p[..n], [], []);
      assert (p + a)[..n] == p[..n] + [] && (p + b)[..n] == p[..n] + [];
    }
  }
}
