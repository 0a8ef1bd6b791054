/** Flags that must be found in order, and the rows that record a player's progress. */
module WhaleFlags {
  import opened Basics

  type Id = int

  /** What a flag's data says of its place: a plain number, a number in a JSON object, or nothing usable. */
  datatype Data = Plain(number: nat) | Json(order: int) | Unordered

  datatype Flag = Flag(id: Id, data: Data)

  function OrderOf(f: Flag): int {
    match f.data
    case Plain(n) => n
    case Json(n) => n
    case Unordered => f.id + 100000
  }

  // ---- the order ----

  function Insert(f: Flag, fs: seq<Flag>): seq<Flag> {
    if fs == [] || OrderOf(f) <= OrderOf(fs[0]) then [f] + fs else [fs[0]] + Insert(f, fs[1..])
  }

  /** The library's stable sort by the order of each flag. */
  function SortFlags(fs: seq<Flag>): seq<Flag> {
    if fs == [] then [] else Insert(fs[0], SortFlags(fs[1..]))
  }

  /** By order, and by id where orders tie. */
  ghost predicate Before(f: Flag, g: Flag) {
    OrderOf(f) < OrderOf(g) || (OrderOf(f) == OrderOf(g) && f.id < g.id)
  }

  ghost predicate InOrder(fs: seq<Flag>) {
    forall i, j :: 0 <= i < j < |fs| ==> Before(fs[i], fs[j])
  }

  ghost predicate AscendingIds(fs: seq<Flag>) {
    forall i, j :: 0 <= i < j < |fs| ==> fs[i].id < fs[j].id
  }

  lemma {:induction false} InsertAdds(f: Flag, fs: seq<Flag>)
    ensures multiset(Insert(f, fs)) == multiset{f} + multiset(fs)
  {
    if fs != [] {
      assert fs == [fs[0]] + fs[1..];
      InsertAdds(f, fs[1..]);
    }
  }

  lemma {:induction false} SortPermutes(fs: seq<Flag>)
    ensures multiset(SortFlags(fs)) == multiset(fs)
  {
    if fs != [] {
      assert fs == [fs[0]] + fs[1..];
      SortPermutes(fs[1..]);
      InsertAdds(fs[0], SortFlags(fs[1..]));
    }
  }

  lemma {:induction false} InsertInOrder(f: Flag, fs: seq<Flag>)
    requires InOrder(fs) && forall g :: g in fs ==> f.id < g.id
    ensures InOrder(Insert(f, fs))
  {
    if fs != [] && OrderOf(f) > OrderOf(fs[0]) {
      InsertInOrder(f, fs[1..]);
      InsertAdds(f, fs[1..]);
      var rest := Insert(f, fs[1..]);
      forall g | g in rest ensures Before(fs[0], g) {
        assert g in multiset(rest);
      }
      hide Insert, Before;
      ConsInOrder(fs[0], rest);
    }
  }

  lemma ConsInOrder(f: Flag, rest: seq<Flag>)
    requires InOrder(rest) && forall g :: g in rest ==> Before(f, g)
    ensures InOrder([f] + rest)
  {
    hide Before;
  }

  /** Flags read in the order of their ids come out by order and then by id. */
  lemma {:induction false} SortInOrder(fs: seq<Flag>)
    requires AscendingIds(fs)
    ensures InOrder(SortFlags(fs))
  {
    if fs != [] {
      SortInOrder(fs[1..]);
      SortPermutes(fs[1..]);
      forall g | g in SortFlags(fs[1..]) ensures fs[0].id < g.id {
        assert g in multiset(SortFlags(fs[1..]));
      }
      InsertInOrder(fs[0], SortFlags(fs[1..]));
    }
  }

  /** The place a flag's data gives it, if any. */
  function Given(f: Flag): Option<int> {
    match f.data
    case Plain(n) => Some(n)
    case Json(n) => Some(n)
    case Unordered => None
  }

  /** Sorted, flags with a place come in the order of their places; those without come in the order of
      their ids, each as if its place were its id and 100000 more. */
  lemma SortedByPlace(fs: seq<Flag>, i: nat, j: nat)
    requires AscendingIds(fs) && i < |SortFlags(fs)| && j < |SortFlags(fs)|
    ensures var f, g := SortFlags(fs)[i], SortFlags(fs)[j];
            && (Given(f).Some? && Given(g).Some? && Given(f).value < Given(g).value ==> i < j)
            && (Given(f).Some? && Given(g).None? && Given(f).value < g.id + 100000 ==> i < j)
            && (Given(f).Some? && Given(g).None? && Given(f).value > g.id + 100000 ==> j < i)
            && (Given(f).None? && Given(g).None? && f.id < g.id ==> i < j)
            && (Given(f).Some? && Given(g) == Given(f) && f.id < g.id ==> i < j)
  {
    hide SortFlags;
    SortInOrder(fs);
    if j < i {
      assert Before(SortFlags(fs)[j], SortFlags(fs)[i]);
    }
  }

  // ---- submissions ----

  /** A submission: the index in strict mode, and the flags whose comparison accepts the text. */
  datatype Submission = Submission(index: Option<nat>, hits: set<Id>)

  datatype Answer = Correct(id: Id) | SolveFirst(n: nat) | Incorrect

  function FirstHit(fs: seq<Flag>, hits: set<Id>, from: nat): (i: Option<nat>)
    requires from <= |fs|
    ensures i.Some? ==> from <= i.value < |fs| && fs[i.value].id in hits && forall j :: from <= j < i.value ==> fs[j].id !in hits
    ensures i.None? ==> forall j :: from <= j < |fs| ==> fs[j].id !in hits
    decreases |fs| - from
  {
    if from == |fs| then None else if fs[from].id in hits then Some(from) else FirstHit(fs, hits, from + 1)
  }

  /** The flag a submission is for: the one at its index if that matches, or else the first that matches. */
  function Matched(fs: seq<Flag>, s: Submission): (i: Option<nat>)
    ensures i.Some? ==> i.value < |fs| && fs[i.value].id in s.hits
    ensures s.index.Some? ==> i == if s.index.value < |fs| && fs[s.index.value].id in s.hits then s.index else None
    ensures s.index.None? ==> forall j :: 0 <= j < (if i.Some? then i.value else |fs|) ==> fs[j].id !in s.hits
  {
    if s.index.Some? then
      if s.index.value < |fs| && fs[s.index.value].id in s.hits then s.index else None
    else FirstHit(fs, s.hits, 0)
  }

  function Ids(fs: seq<Flag>): (ids: seq<Id>)
    ensures |ids| == |fs| && forall i :: 0 <= i < |fs| ==> ids[i] == fs[i].id
  {
    seq(|fs|, i requires 0 <= i < |fs| => fs[i].id)
  }

  function FirstUnsolved(fs: seq<Flag>, progress: seq<Id>, upTo: nat, from: nat): (i: Option<nat>)
    requires from <= upTo <= |fs|
    ensures i.Some? ==> from <= i.value < upTo && fs[i.value].id !in progress
                        && forall j :: from <= j < i.value ==> fs[j].id in progress
    ensures i.None? ==> forall j :: from <= j < upTo ==> fs[j].id in progress
    decreases upTo - from
  {
    if from == upTo then None
    else if fs[from].id !in progress then Some(from)
    else FirstUnsolved(fs, progress, upTo, from + 1)
  }

  /** One submission against the sorted flags and the rows of one player and challenge. */
  function Submit(fs: seq<Flag>, progress: seq<Id>, s: Submission): (seq<Id>, Answer) {
    var i := Matched(fs, s);
    if i.None? then (progress, Incorrect)
    else
      var missing := FirstUnsolved(fs, progress, i.value, 0);
      if missing.Some? then (progress, SolveFirst(missing.value + 1))
      else if fs[i.value].id in progress then (progress, Correct(fs[i.value].id))
      else (progress + [fs[i.value].id], Correct(fs[i.value].id))
  }

  function Run(flags: seq<Flag>, submissions: seq<Submission>): seq<Id> {
    if submissions == [] then []
    else Submit(SortFlags(flags), Run(flags, submissions[..|submissions| - 1]), submissions[|submissions| - 1]).0
  }

  ghost predicate DistinctIds(fs: seq<Flag>) {
    forall i, j :: 0 <= i < j < |fs| ==> fs[i].id != fs[j].id
  }

  /** With the first k flags solved, a submission counts exactly when it is for one of the
      first k + 1, and adds a row exactly when it is for the next. */
  lemma SubmitAdvances(fs: seq<Flag>, k: nat, s: Submission)
    requires DistinctIds(fs) && k <= |fs|
    ensures var (after, answer) := Submit(fs, Ids(fs)[..k], s);
            var i := Matched(fs, s);
            && (answer.Correct? <==> i.Some? && i.value <= k)
            && (answer.Correct? ==> answer.id == fs[i.value].id && answer.id in s.hits)
            && after == (if i == Some(k) then Ids(fs)[..k + 1] else Ids(fs)[..k])
            && (i.Some? && i.value > k ==> answer == SolveFirst(k + 1))
  {
    var done := Ids(fs)[..k];
    assert forall j :: 0 <= j < |fs| ==> (fs[j].id in done <==> j < k) by {
      forall j | 0 <= j < |fs| ensures fs[j].id in done <==> j < k {
        if j < k {
          assert done[j] == fs[j].id;
        }
      }
    }
    if k < |fs| {
      assert Ids(fs)[..k + 1] == done + [fs[k].id];
    }
  }

  /** After any submissions the rows are the ids of a prefix of the sorted flags: in order, and each once. */
  lemma {:induction false} ProgressIsPrefix(flags: seq<Flag>, submissions: seq<Submission>) returns (k: nat)
    requires DistinctIds(flags)
    ensures DistinctIds(SortFlags(flags))
    ensures k <= |SortFlags(flags)| == |flags| && Run(flags, submissions) == Ids(SortFlags(flags))[..k]
    ensures forall i, j :: 0 <= i < j < |Run(flags, submissions)| ==> Run(flags, submissions)[i] != Run(flags, submissions)[j]
  {
    var fs := SortFlags(flags);
    SortPermutes(flags);
    assert |multiset(fs)| == |multiset(flags)|;
    SortedDistinct(flags);
    k := 0;
    if submissions != [] {
      hide SortFlags, Submit;
      var n := |submissions| - 1;
      k := ProgressIsPrefix(flags, submissions[..n]);
      SubmitAdvances(fs, k, submissions[n]);
      k := if Matched(fs, submissions[n]) == Some(k) then k + 1 else k;
    }
  }

  lemma {:induction false} InsertDistinct(f: Flag, fs: seq<Flag>)
    requires DistinctIds(fs) && forall g :: g in fs ==> g.id != f.id
    ensures DistinctIds(Insert(f, fs))
  {
    if fs != [] && OrderOf(f) > OrderOf(fs[0]) {
      InsertDistinct(f, fs[1..]);
      InsertAdds(f, fs[1..]);
      var rest := Insert(f, fs[1..]);
      forall j | 0 <= j < |rest| ensures rest[j].id != fs[0].id {
        assert rest[j] in multiset(rest);
      }
    }
  }

  lemma {:induction false} SortedDistinct(flags: seq<Flag>)
    requires DistinctIds(flags)
    ensures DistinctIds(SortFlags(flags))
  {
    if flags != [] {
      SortedDistinct(flags[1..]);
      SortPermutes(flags[1..]);
      forall g | g in SortFlags(flags[1..]) ensures g.id != flags[0].id {
        assert g in multiset(SortFlags(flags[1..]));
      }
      InsertDistinct(flags[0], SortFlags(flags[1..]));
    }
  }

  /** Progress is never lost. */
  lemma ProgressGrows(flags: seq<Flag>, submissions: seq<Submission>, s: Submission)
    ensures Run(flags, submissions) <= Run(flags, submissions + [s])
  {
    assert (submissions + [s])[..|submissions|] == submissions;
  }

  // ---- the route ----

  class Progress {
    var solved: seq<Id>

    constructor ()
      ensures solved == []
    {
      solved := [];
    }

    /** Sorts the flags, finds the one submitted, checks that all before it are solved, and saves it once. */
    method SubmitFlag(flags: seq<Flag>, s: Submission) returns (answer: Answer)
      modifies this
      ensures (solved, answer) == Submit(SortFlags(flags), old(solved), s)
    {
      hide SortFlags;
      var sorted := SortFlags(flags);
      var matched: Option<nat> := None;
      if s.index.Some? {
        if s.index.value < |sorted| {
          if sorted[s.index.value].id in s.hits {
            matched := s.index;
          }
        }
      } else {
        var i := 0;
        while i < |sorted| && matched.None?
          invariant 0 <= i <= |sorted|
          invariant matched.None? ==> FirstHit(sorted, s.hits, 0) == FirstHit(sorted, s.hits, i)
          invariant matched.Some? ==> FirstHit(sorted, s.hits, 0) == matched
          decreases |sorted| - i, matched.None?
        {
          if sorted[i].id in s.hits {
            matched := Some(i);
          } else {
            i := i + 1;
          }
        }
      }
      if matched.None? {
        return Incorrect;
      }
      for i := 0 to matched.value
        invariant FirstUnsolved(sorted, solved, matched.value, 0) == FirstUnsolved(sorted, solved, matched.value, i)
        invariant solved == old(solved)
      {
        if sorted[i].id !in solved {
          return SolveFirst(i + 1);
        }
      }
      var id := sorted[matched.value].id;
      if id !in solved {
        solved := solved + [id];
      }
      answer := Correct(id);
    }
  }
}
