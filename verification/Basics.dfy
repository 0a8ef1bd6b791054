/** Small things that several components share. */
module Basics {
  datatype Option<T> = None | Some(value: T)

  // ---- text ----

  predicate IsSpace(c: char) {
    c in " \t\n\r"
  }

  function TrimLeft(s: string): string {
    if s != "" && IsSpace(s[0]) then TrimLeft(s[1..]) else s
  }

  function TrimRight(s: string): string {
    if s != "" && IsSpace(s[|s| - 1]) then TrimRight(s[..|s| - 1]) else s
  }

  function Trim(s: string): string {
    TrimRight(TrimLeft(s))
  }

  ghost predicate AllSpace(s: string) {
    forall i :: 0 <= i < |s| ==> s[i] in " \t\n\r"
  }

  /** Trimming takes off blanks at both ends, and stops at the first character that is none. */
  lemma TrimIs(s: string) returns (front: string, back: string)
    ensures s == front + Trim(s) + back && AllSpace(front) && AllSpace(back)
    ensures Trim(s) != "" ==> !AllSpace(Trim(s)[..1]) && !AllSpace(Trim(s)[|Trim(s)| - 1..])
  {
    front := TrimLeftIs(s);
    back := TrimRightIs(TrimLeft(s));
    if Trim(s) != "" {
      assert TrimLeft(s)[0] == Trim(s)[0];
    }
    hide Trim, TrimLeft, TrimRight;
  }

  lemma {:induction false} TrimLeftIs(s: string) returns (front: string)
    ensures s == front + TrimLeft(s) && AllSpace(front)
    ensures TrimLeft(s) != "" ==> TrimLeft(s)[0] !in " \t\n\r"
  {
    front := "";
    if s != "" && IsSpace(s[0]) {
      var first, tail := [s[0]], s[1..];
      var rest := TrimLeftIs(tail);
      front := first + rest;
      assert s == first + tail;
      assert TrimLeft(s) == TrimLeft(tail);
      hide TrimLeft;
      assert (first + rest) + TrimLeft(tail) == first + (rest + TrimLeft(tail));
    }
  }

  lemma {:induction false} TrimRightIs(s: string) returns (back: string)
    ensures s == TrimRight(s) + back && AllSpace(back)
    ensures TrimRight(s) != "" ==> TrimRight(s)[|TrimRight(s)| - 1] !in " \t\n\r"
  {
    back := "";
    if s != "" && IsSpace(s[|s| - 1]) {
      var front, last := s[..|s| - 1], [s[|s| - 1]];
      var rest := TrimRightIs(front);
      back := rest + last;
      assert s == front + last;
      assert TrimRight(s) == TrimRight(front);
      hide TrimRight;
      assert TrimRight(front) + (rest + last) == TrimRight(front) + rest + last;
    }
  }

  // ---- sets ----

  lemma NonEmpty(s: set<int>)
    requires s != {}
    ensures exists x :: x in s
  {
    assert (forall x :: x !in s) ==> s == {};
  }

  lemma SubsetSize<T>(a: set<T>, b: set<T>)
    requires a <= b
    ensures |a| <= |b|
  {
    assert b == a + (b - a);
  }

  // ---- words ----

  /** The number of places where two words differ. */
  function Distance<T(==)>(a: seq<T>, b: seq<T>): nat
    requires |a| == |b|
  {
    if a == [] then 0
    else Distance(a[..|a| - 1], b[..|a| - 1]) + (if a[|a| - 1] == b[|a| - 1] then 0 else 1)
  }

  lemma DistancePush<T>(a: seq<T>, b: seq<T>, x: T, y: T)
    requires |a| == |b|
    ensures Distance(a + [x], b + [y]) == Distance(a, b) + (if x == y then 0 else 1)
  {
    assert (a + [x])[..|a|] == a && (b + [y])[..|b|] == b;
  }

  lemma PushEqual<T>(a: seq<T>, b: seq<T>, x: T, y: T)
    requires |a| == |b|
    ensures a + [x] == b + [y] <==> a == b && x == y
  {
    assert (a + [x])[..|a|] == a && (b + [y])[..|b|] == b;
    assert (a + [x])[|a|] == x && (b + [y])[|b|] == y;
  }

  lemma {:induction false} DistanceZero<T>(a: seq<T>, b: seq<T>)
    requires |a| == |b|
    ensures Distance(a, b) == 0 <==> a == b
  {
    if a != [] {
      var n := |a| - 1;
      DistanceZero(a[..n], b[..n]);
      DistancePush(a[..n], b[..n], a[n], b[n]);
      PushEqual(a[..n], b[..n], a[n], b[n]);
      assert a == a[..n] + [a[n]] && b == b[..n] + [b[n]];
      hide Distance;
    }
  }

  lemma {:induction false} DistanceConcat<T>(a: seq<T>, b: seq<T>, c: seq<T>, d: seq<T>)
    requires |a| == |c| && |b| == |d|
    ensures Distance(a + b, c + d) == Distance(a, c) + Distance(b, d)
  {
    if b == [] {
      assert a + b == a && c + d == c;
    } else {
      var n := |b| - 1;
      DistanceConcat(a, b[..n], c, d[..n]);
      assert (a + b)[..|a| + n] == a + b[..n] && (c + d)[..|a| + n] == c + d[..n];
    }
  }

  lemma {:induction false} Triangle<T>(a: seq<T>, b: seq<T>, c: seq<T>)
    requires |a| == |b| == |c|
    ensures Distance(a, c) <= Distance(b, a) + Distance(b, c)
  {
    if a != [] {
      var n := |a| - 1;
      Triangle(a[..n], b[..n], c[..n]);
    }
  }
}
