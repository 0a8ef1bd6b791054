/** The in-memory limiter of flag attempts: a list of recent attempts a user and challenge. */
module RateLimiter {
  import opened Basics

  const WINDOW := 60.0
  const MAX_TRIES := 5

  type Key = (int, int)

  predicate Recent(t: real, now: real) {
    now - t < WINDOW
  }

  function Prune(ts: seq<real>, now: real): seq<real> {
    if ts == [] then []
    else if Recent(ts[0], now) then [ts[0]] + Prune(ts[1..], now)
    else Prune(ts[1..], now)
  }

  ghost predicate Sorted(ts: seq<real>) {
    forall i, j :: 0 <= i < j < |ts| ==> ts[i] <= ts[j]
  }

  ghost predicate NotAfter(ts: seq<real>, now: real) {
    forall i :: 0 <= i < |ts| ==> ts[i] <= now
  }

  /** The rule in terms of the full history of accepted attempts. */
  function Accepts(history: seq<real>, now: real): bool {
    |Prune(history, now)| < MAX_TRIES
  }

  function Attempt(history: seq<real>, now: real): seq<real> {
    if Accepts(history, now) then history + [now] else history
  }

  /** The history after calls at the given times. */
  function Run(calls: seq<real>): seq<real> {
    if calls == [] then [] else Attempt(Run(calls[..|calls| - 1]), calls[|calls| - 1])
  }

  lemma {:induction false} AllRecent(ts: seq<real>, now: real)
    requires forall i :: 0 <= i < |ts| ==> Recent(ts[i], now)
    ensures Prune(ts, now) == ts
  {
    if ts != [] {
      AllRecent(ts[1..], now);
    }
  }

  /** In a sorted history the attempts of the window are its last ones. */
  lemma {:induction false} PruneIsSuffix(ts: seq<real>, now: real)
    requires Sorted(ts)
    ensures var n := |Prune(ts, now)|;
            && n <= |ts| && Prune(ts, now) == ts[|ts| - n..]
            && (forall i :: 0 <= i < |ts| ==> (Recent(ts[i], now) <==> i >= |ts| - n))
  {
    if ts != [] {
      if Recent(ts[0], now) {
        AllRecent(ts, now);
      } else {
        var rest := ts[1..];
        PruneIsSuffix(rest, now);
        var n := |Prune(rest, now)|;
        forall i | 0 <= i < |ts| ensures Recent(ts[i], now) <==> i >= |ts| - n {
          assert i > 0 ==> ts[i] == rest[i - 1];
        }
      }
    }
  }

  // ---- safety ----

  /** Any six accepted attempts in a row span the window. */
  ghost predicate Spaced(h: seq<real>) {
    forall i, j :: 0 <= i && i + MAX_TRIES <= j < |h| ==> h[j] - h[i] >= WINDOW
  }

  lemma AttemptKeeps(h: seq<real>, now: real)
    requires Sorted(h) && NotAfter(h, now) && Spaced(h)
    ensures Sorted(Attempt(h, now)) && NotAfter(Attempt(h, now), now) && Spaced(Attempt(h, now))
    ensures |Prune(h, now)| <= MAX_TRIES
  {
    hide Prune;
    PruneIsSuffix(h, now);
    AcceptsWhenSpaced(h, now);
    var n := |Prune(h, now)|;
    assert n > 0 ==> Recent(h[|h| - n], now) && h[|h| - 1] <= now;
  }

  /** The rule looks at one attempt only: the fifth from the end. */
  lemma AcceptsWhenSpaced(h: seq<real>, now: real)
    requires Sorted(h)
    ensures Accepts(h, now) <==> |h| < MAX_TRIES || !Recent(h[|h| - MAX_TRIES], now)
  {
    hide Prune;
    PruneIsSuffix(h, now);
  }

  lemma {:induction false} RunKeeps(calls: seq<real>)
    requires Sorted(calls)
    ensures Sorted(Run(calls)) && Spaced(Run(calls))
    ensures calls == [] ==> Run(calls) == []
    ensures calls != [] ==> NotAfter(Run(calls), calls[|calls| - 1])
  {
    hide Attempt;
    if calls != [] {
      var n := |calls| - 1;
      RunKeeps(calls[..n]);
      AttemptKeeps(Run(calls[..n]), calls[n]);
    }
  }

  /** The accepted attempts of a window, by their place in the history. */
  function Inside(h: seq<real>, start: real): set<nat> {
    set i: nat | i < |h| && start <= h[i] < start + WINDOW
  }

  lemma FiveInside(h: seq<real>, start: real, lo: nat)
    requires Sorted(h) && Spaced(h) && lo <= |h|
    requires forall i :: 0 <= i < lo ==> h[i] < start
    requires lo < |h| ==> start <= h[lo]
    ensures forall i: nat :: i in Inside(h, start) ==> i in {lo, lo + 1, lo + 2, lo + 3, lo + 4}
  {
    assert forall i :: lo + MAX_TRIES <= i < |h| ==> h[i] - h[lo] >= WINDOW;
  }

  /** Whatever the calls, no 60 seconds hold more than five accepted attempts. */
  lemma WindowSafety(calls: seq<real>, start: real)
    requires Sorted(calls)
    ensures |set i: nat | i < |Run(calls)| && start <= Run(calls)[i] < start + 60.0| <= 5
  {
    RunKeeps(calls);
    assert Inside(Run(calls), start) == set i: nat | i < |Run(calls)| && start <= Run(calls)[i] < start + 60.0;
    var lo := FirstInside(Run(calls), start, 0);
    FiveInside(Run(calls), start, lo);
    hide Run, Inside;
    SubsetSize(Inside(Run(calls), start), {lo, lo + 1, lo + 2, lo + 3, lo + 4});
  }

  lemma FirstInside(h: seq<real>, start: real, from: nat) returns (lo: nat)
    requires Sorted(h) && from <= |h| && forall i :: 0 <= i < from ==> h[i] < start
    ensures from <= lo <= |h| && (forall i :: 0 <= i < lo ==> h[i] < start)
    ensures lo < |h| ==> start <= h[lo]
    decreases |h| - from
  {
    if from < |h| && h[from] < start {
      lo := FirstInside(h, start, from + 1);
    } else {
      lo := from;
    }
  }

  // ---- the reported wait ----

  function Wait(recent: seq<real>, now: real): int
    requires recent != []
  {
    var reset := (WINDOW - (now - recent[0])).Floor;
    if reset > 0 then reset else 0
  }

  predicate Whole(t: real) {
    t == t.Floor as real
  }

  /** A refused call repeated after the reported wait is accepted, with nothing accepted in
      between, exactly when the time left was a whole number of seconds. */
  lemma RetryAfterWait(h: seq<real>, now: real)
    requires Sorted(h) && NotAfter(h, now) && Spaced(h) && !Accepts(h, now)
    ensures Prune(h, now) != []
    ensures Accepts(h, now + Wait(Prune(h, now), now) as real) <==> Whole(WINDOW - (now - Prune(h, now)[0]))
  {
    hide Prune;
    AttemptKeeps(h, now);
    PruneIsSuffix(h, now);
    assert Prune(h, now)[0] == h[|h| - MAX_TRIES];
    AcceptsWhenSpaced(h, now + Wait(Prune(h, now), now) as real);
    hide Accepts;
  }

  /** Five attempts at one time, and a sixth half a second later. */
  const BURST: seq<real> := [0.0, 0.0, 0.0, 0.0, 0.0]

  /** The sixth attempt is refused with a wait of 59 seconds, and refused again after them. */
  lemma WaitIsTooShort()
    ensures Run(BURST) == BURST && !Accepts(Run(BURST), 0.5)
    ensures Prune(BURST, 0.5) != [] && Wait(Prune(BURST, 0.5), 0.5) == 59
    ensures !Accepts(Run(BURST + [0.5]), 0.5 + 59.0)
  {
    FirstFive(BURST);
    AcceptsWhenSpaced(BURST, 0.5);
    AllRecent(BURST, 0.5);
    AcceptsWhenSpaced(BURST, 59.5);
    assert (BURST + [0.5])[..5] == BURST;
    hide Prune;
    assert Run(BURST + [0.5]) == BURST;
    assert (WINDOW - (0.5 - 0.0)).Floor == 59;
  }

  lemma {:induction false} FirstFive(calls: seq<real>)
    requires |calls| <= MAX_TRIES && Sorted(calls)
    ensures Run(calls) == calls
  {
    if calls != [] {
      var n := |calls| - 1;
      FirstFive(calls[..n]);
      hide Prune;
      PruneIsSuffix(calls[..n], calls[n]);
      assert calls == calls[..n] + [calls[n]];
    }
  }

  /** On a clock of whole seconds the reported wait is always enough. */
  lemma RetryOnWholeClock(calls: seq<real>, now: real)
    requires Sorted(calls) && NotAfter(calls, now)
    requires Whole(now) && forall i :: 0 <= i < |calls| ==> Whole(calls[i])
    requires !Accepts(Run(calls), now)
    ensures Prune(Run(calls), now) != []
    ensures Accepts(Run(calls), now + Wait(Prune(Run(calls), now), now) as real)
  {
    hide Prune, Accepts, Whole;
    RunKeeps(calls);
    WholeHistory(calls);
    hide Run;
    RetryAfterWait(Run(calls), now);
    OldestIsWhole(Run(calls), now);
    WholeLeft(now, Prune(Run(calls), now)[0]);
  }

  lemma OldestIsWhole(h: seq<real>, now: real)
    requires Sorted(h) && Prune(h, now) != []
    requires forall i :: 0 <= i < |h| ==> Whole(h[i])
    ensures Whole(Prune(h, now)[0])
  {
    hide Prune, Whole;
    PruneIsSuffix(h, now);
  }

  lemma WholeLeft(now: real, oldest: real)
    requires Whole(now) && Whole(oldest)
    ensures Whole(WINDOW - (now - oldest))
  {
    assert WINDOW - (now - oldest) == (60 - (now.Floor - oldest.Floor)) as real;
  }

  lemma {:induction false} WholeHistory(calls: seq<real>)
    requires forall i :: 0 <= i < |calls| ==> Whole(calls[i])
    ensures forall i :: 0 <= i < |Run(calls)| ==> Whole(Run(calls)[i])
  {
    hide Accepts, Whole;
    if calls != [] {
      WholeHistory(calls[..|calls| - 1]);
    }
  }

  // ---- the cache ----

  /** A suffix of the history that lacks only attempts older than the window. */
  ghost predicate Remembers(ts: seq<real>, history: seq<real>, clock: real) {
    && |ts| <= |history| && ts == history[|history| - |ts|..]
    && forall i :: 0 <= i < |history| - |ts| ==> !Recent(history[i], clock)
  }

  lemma {:induction false} PruneDrops(ts: seq<real>, now: real, d: nat)
    requires d <= |ts| && forall i :: 0 <= i < d ==> !Recent(ts[i], now)
    ensures Prune(ts, now) == Prune(ts[d..], now)
  {
    if d > 0 {
      PruneDrops(ts[1..], now, d - 1);
      assert ts[1..][d - 1..] == ts[d..];
    }
  }

  /** Pruning what is remembered gives what pruning the history would. */
  lemma SamePruned(ts: seq<real>, history: seq<real>, clock: real, now: real)
    requires Remembers(ts, history, clock) && clock <= now && Sorted(history)
    ensures Prune(ts, now) == Prune(history, now) && Remembers(Prune(ts, now), history, now)
  {
    hide Prune;
    PruneDrops(history, now, |history| - |ts|);
    PruneIsSuffix(history, now);
  }

  ghost predicate Fine(ts: seq<real>, history: seq<real>, clock: real) {
    Remembers(ts, history, clock) && Sorted(history) && NotAfter(history, clock) && Spaced(history)
  }

  lemma FineLater(ts: seq<real>, history: seq<real>, clock: real, now: real)
    requires Fine(ts, history, clock) && clock <= now
    ensures Fine(ts, history, now)
  {
  }

  lemma FineFromStart(clock: real)
    ensures Fine([], [], clock)
  {
  }

  lemma CheckOne(ts: seq<real>, history: seq<real>, clock: real, now: real)
    requires Fine(ts, history, clock) && clock <= now
    ensures Prune(ts, now) == Prune(history, now)
    ensures Fine(Prune(ts, now), history, now)
    ensures Accepts(history, now) ==> Fine(Prune(ts, now) + [now], history + [now], now)
  {
    SamePruned(ts, history, clock, now);
    AttemptKeeps(history, now);
    hide Prune;
  }

  class Limiter {
    var cache: map<Key, seq<real>>
    ghost var history: map<Key, seq<real>>
    ghost var clock: real

    constructor (now: real)
      ensures Valid() && clock == now && history == map[]
    {
      cache, history, clock := map[], map[], now;
    }

    /** Each list is what its key's history left in the window. */
    ghost predicate Valid()
      reads this
    {
      cache.Keys == history.Keys && forall k :: k in history ==> Fine(cache[k], history[k], clock)
    }

    /** The accepted attempts of the key so far. */
    ghost function Past(k: Key): seq<real>
      reads this
    {
      if k in history then history[k] else []
    }

    /** Prunes the list of the key in place, and refuses while it still holds five attempts. */
    method Check(user: int, challenge: int, now: real) returns (allowed: bool, wait: int)
      requires Valid() && clock <= now
      modifies this
      ensures Valid() && clock == now
      ensures allowed <==> Accepts(old(Past((user, challenge))), now)
      ensures history == old(history)[(user, challenge) := Attempt(old(Past((user, challenge))), now)]
      ensures allowed ==> wait == 0
      ensures var recent := Prune(old(Past((user, challenge))), now);
              !allowed ==> recent != [] && wait == Wait(recent, now)
    {
      hide Prune, Fine;
      var key := (user, challenge);
      ghost var past := Past(key);
      FineFromStart(clock);
      forall k | k in history ensures Fine(cache[k], history[k], now) {
        FineLater(cache[k], history[k], clock, now);
      }
      var timestamps := if key in cache then cache[key] else [];
      CheckOne(timestamps, past, clock, now);
      timestamps := PruneList(timestamps, now);
      clock := now;
      if |timestamps| >= MAX_TRIES {
        cache := cache[key := timestamps];
        history := history[key := past];
        var reset := (WINDOW - (now - timestamps[0])).Floor;
        return false, if reset > 0 then reset else 0;
      }
      cache := cache[key := timestamps + [now]];
      history := history[key := past + [now]];
      return true, 0;
    }

    method PruneList(ts: seq<real>, now: real) returns (kept: seq<real>)
      ensures kept == Prune(ts, now)
    {
      kept := [];
      for i := 0 to |ts|
        invariant Prune(ts, now) == kept + Prune(ts[i..], now)
      {
        assert ts[i..][1..] == ts[i + 1..];
        if now - ts[i] < WINDOW {
          kept := kept + [ts[i]];
        }
      }
    }
  }
}
