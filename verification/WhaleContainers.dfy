/** Target containers: one row a user, the pool of free ports, and renewals. */
module WhaleContainers {
  import opened Basics

  /** The time of creation is kept for the statements below; the table keeps only the start time that
      begins with it. */
  datatype Row = Row(user: int, challenge: int, port: int, created: real, start: real, renewals: int)

  /** The port range, the seconds until a container expires, and the limits on containers and on renewals. */
  datatype Config = Config(lo: int, hi: int, timeout: int, maxContainers: int, maxRenewals: int)

  datatype Whale = Whale(pool: set<int>, rows: seq<Row>)

  function Current(rows: seq<Row>, user: int): (r: Option<nat>)
    ensures r.Some? ==> r.value < |rows| && rows[r.value].user == user && forall j :: 0 <= j < r.value ==> rows[j].user != user
    ensures r.None? ==> forall j :: 0 <= j < |rows| ==> rows[j].user != user
  {
    if rows == [] then None
    else if rows[0].user == user then Some(0)
    else
      var later := Current(rows[1..], user);
      if later.Some? then Some(later.value + 1) else None
  }

  function OthersRows(rows: seq<Row>, user: int): seq<Row> {
    if rows == [] then []
    else if rows[0].user == user then OthersRows(rows[1..], user)
    else [rows[0]] + OthersRows(rows[1..], user)
  }

  function PortsOf(rows: seq<Row>): set<int> {
    set i | 0 <= i < |rows| :: rows[i].port
  }

  predicate Expired(row: Row, now: real, timeout: int) {
    row.start < now - timeout as real
  }

  function AliveCount(rows: seq<Row>, now: real, timeout: int): nat {
    if rows == [] then 0
    else (if Expired(rows[0], now, timeout) then 0 else 1) + AliveCount(rows[1..], now, timeout)
  }

  // ---- operations ----

  /** The pool holds the range without the ports of rows; a row with port 0 counts as one without a port. */
  function InitPool(rows: seq<Row>, lo: int, hi: int): (pool: set<int>)
    ensures forall p :: p in pool <==> lo <= p <= hi && (p == 0 || p !in PortsOf(rows))
    decreases hi - lo
  {
    if lo > hi then {}
    else (if lo != 0 && lo in PortsOf(rows) then {} else {lo}) + InitPool(rows, lo + 1, hi)
  }

  /** Deletes all rows of the user and returns the port of the first, save port 0. */
  function Remove(w: Whale, user: int): (Whale, bool) {
    var i := Current(w.rows, user);
    if i.None? then (w, false)
    else
      var port := w.rows[i.value].port;
      (Whale(if port != 0 then w.pool + {port} else w.pool, OthersRows(w.rows, user)), true)
  }

  /** Whether a container may start once the user's old one is gone. */
  predicate MayStart(c: Config, w: Whale, now: real, allowed: bool) {
    allowed && c.maxContainers > AliveCount(w.rows, now, c.timeout) && w.pool != {}
  }

  /** Starts a container on a port popped from the pool; its row stays even when the container itself
      fails to start. */
  function Add(c: Config, w: Whale, user: int, challenge: int, now: real, allowed: bool, port: int): Whale {
    var freed := Remove(w, user).0;
    if MayStart(c, freed, now, allowed)
    then Whale(freed.pool - {port}, freed.rows + [Row(user, challenge, port, now, now, 0)])
    else freed
  }

  function RenewedStart(start: real, now: real, timeout: int): real {
    if start + timeout as real > now then now else start + timeout as real
  }

  datatype Renewal = NotFound | LimitReached | Renewed

  /** The player's renewal; a container of another challenge is left alone, and yet the answer is success. */
  function Renew(c: Config, w: Whale, user: int, challenge: int, now: real): (Whale, Renewal) {
    var i := Current(w.rows, user);
    if i.None? then (w, NotFound)
    else if w.rows[i.value].renewals >= c.maxRenewals then (w, LimitReached)
    else (w.(rows := RenewRows(w.rows, user, challenge, now, c.timeout)), Renewed)
  }

  /** Moves the start of the first row of the user and challenge. */
  function RenewRows(rows: seq<Row>, user: int, challenge: int, now: real, timeout: int): seq<Row> {
    if rows == [] then []
    else if rows[0].user == user && rows[0].challenge == challenge then
      [rows[0].(start := RenewedStart(rows[0].start, now, timeout), renewals := rows[0].renewals + 1)] + rows[1..]
    else [rows[0]] + RenewRows(rows[1..], user, challenge, now, timeout)
  }

  // ---- runs ----

  datatype State = State(whale: Whale, now: real)

  datatype Event =
    | Reinitialises
    | Adds(user: int, challenge: int, allowed: bool, port: int)
    | Removes(user: int)
    | Renews(user: int, challenge: int)
    | Tick(seconds: real)

  /** One step; the port is what the pool happened to give, so it was in the pool. */
  function Step(c: Config, s: State, e: Event): State {
    match e
    case Reinitialises => s.(whale := s.whale.(pool := InitPool(s.whale.rows, c.lo, c.hi)))
    case Adds(user, challenge, allowed, port) =>
      var freed := Remove(s.whale, user).0;
      if MayStart(c, freed, s.now, allowed) && port !in freed.pool then s
      else s.(whale := Add(c, s.whale, user, challenge, s.now, allowed, port))
    case Removes(user) => s.(whale := Remove(s.whale, user).0)
    case Renews(user, challenge) => s.(whale := Renew(c, s.whale, user, challenge, s.now).0)
    case Tick(seconds) => if seconds < 0.0 then s else s.(now := s.now + seconds)
  }

  function Run(c: Config, s: State, events: seq<Event>): State {
    if events == [] then s else Step(c, Run(c, s, events[..|events| - 1]), events[|events| - 1])
  }

  /** The pool filled and no container yet. */
  function Start(c: Config, now: real): State {
    State(Whale(InitPool([], c.lo, c.hi), []), now)
  }

  // ---- conservation of ports ----

  ghost predicate OneRowEach(rows: seq<Row>) {
    forall i, j :: 0 <= i < j < |rows| ==> rows[i].user != rows[j].user
  }

  ghost predicate OneEach(rows: seq<Row>) {
    && OneRowEach(rows)
    && (forall i, j :: 0 <= i < j < |rows| ==> rows[i].port != rows[j].port)
  }

  /** Free ports and held ports are the range, split in two; no port and no user has two rows. */
  ghost predicate Conserved(c: Config, w: Whale) {
    && (forall p :: p in w.pool ==> p !in PortsOf(w.rows))
    && (forall p :: p in w.pool || p in PortsOf(w.rows) <==> c.lo <= p <= c.hi)
    && OneEach(w.rows)
  }

  lemma {:induction false} OthersAre(rows: seq<Row>, user: int)
    ensures forall r :: r in OthersRows(rows, user) <==> r in rows && r.user != user
  {
    if rows != [] {
      assert rows == [rows[0]] + rows[1..];
      OthersAre(rows[1..], user);
    }
  }

  lemma {:induction false} OthersOneEach(rows: seq<Row>, user: int)
    ensures OneRowEach(rows) ==> OneRowEach(OthersRows(rows, user))
    ensures OneEach(rows) ==> OneEach(OthersRows(rows, user))
  {
    if rows != [] {
      OthersOneEach(rows[1..], user);
      var rest := OthersRows(rows[1..], user);
      forall j | 0 <= j < |rest| ensures exists k :: 0 < k < |rows| && rows[k] == rest[j] {
        OthersAre(rows[1..], user);
        assert rest[j] in rest;
        var k :| 0 <= k < |rows[1..]| && rows[1..][k] == rest[j];
        assert rows[k + 1] == rest[j];
      }
    }
  }

  lemma PortHeld(rows: seq<Row>, p: int)
    ensures p in PortsOf(rows) <==> exists r :: r in rows && r.port == p
  {
    if p in PortsOf(rows) {
      var i :| 0 <= i < |rows| && rows[i].port == p;
      assert rows[i] in rows;
    }
  }

  /** A removal takes all rows of the user and no other, and succeeds exactly when there is one. */
  lemma RemovedExactly(w: Whale, user: int)
    ensures var (after, ok) := Remove(w, user);
            && (ok <==> exists r :: r in w.rows && r.user == user)
            && (forall r :: r in after.rows <==> r in w.rows && r.user != user)
            && (!ok ==> after == w)
  {
    OthersAre(w.rows, user);
    var i := Current(w.rows, user);
    if i.Some? {
      assert w.rows[i.value] in w.rows;
    }
    hide OthersRows, Current;
  }

  /** Without a port 0, removing hands exactly the user's port back. */
  lemma RemoveConserves(c: Config, w: Whale, user: int)
    requires Conserved(c, w) && !(c.lo <= 0 <= c.hi)
    ensures Conserved(c, Remove(w, user).0)
    ensures forall r :: r in Remove(w, user).0.rows <==> r in w.rows && r.user != user
  {
    OthersAre(w.rows, user);
    OthersOneEach(w.rows, user);
    var i := Current(w.rows, user);
    if i.Some? {
      var row := w.rows[i.value];
      var after := Remove(w, user).0;
      assert row in w.rows;
      forall p ensures p in PortsOf(w.rows) <==> p in PortsOf(after.rows) || p == row.port {
        PortHeld(w.rows, p);
        PortHeld(after.rows, p);
        if p in PortsOf(w.rows) && p != row.port {
          var r :| r in w.rows && r.port == p;
          var k :| 0 <= k < |w.rows| && w.rows[k] == r;
          assert r.user != user;
        }
      }
      assert row.port !in PortsOf(after.rows) by {
        PortHeld(after.rows, row.port);
        forall r | r in after.rows ensures r.port != row.port {
          var k :| 0 <= k < |w.rows| && w.rows[k] == r;
        }
      }
      hide OthersRows, PortsOf, Current;
    } else {
      forall r | r in w.rows ensures r.user != user {
      }
    }
  }

  lemma AddConserves(c: Config, w: Whale, user: int, challenge: int, now: real, allowed: bool, port: int)
    requires Conserved(c, w) && !(c.lo <= 0 <= c.hi)
    requires MayStart(c, Remove(w, user).0, now, allowed) ==> port in Remove(w, user).0.pool
    ensures Conserved(c, Add(c, w, user, challenge, now, allowed, port))
  {
    RemoveConserves(c, w, user);
    var freed := Remove(w, user).0;
    hide Remove;
    if MayStart(c, freed, now, allowed) {
      hide MayStart;
      var row := Row(user, challenge, port, now, now, 0);
      forall p ensures p in PortsOf(freed.rows + [row]) <==> p in PortsOf(freed.rows) || p == port {
        PortHeld(freed.rows + [row], p);
        PortHeld(freed.rows, p);
        assert row in freed.rows + [row];
      }
      forall i | 0 <= i < |freed.rows| ensures freed.rows[i].user != user && freed.rows[i].port != port {
        assert freed.rows[i] in freed.rows;
        assert freed.rows[i].port in PortsOf(freed.rows);
      }
    }
  }

  /** A renewal touches nothing but one row's start and count. */
  lemma {:induction false} RenewKeepsRows(rows: seq<Row>, user: int, challenge: int, now: real, timeout: int)
    ensures var after := RenewRows(rows, user, challenge, now, timeout);
            && |after| == |rows|
            && forall i :: 0 <= i < |rows| ==>
                 || after[i] == rows[i]
                 || after[i] == rows[i].(start := RenewedStart(rows[i].start, now, timeout), renewals := rows[i].renewals + 1)
  {
    if rows != [] && !(rows[0].user == user && rows[0].challenge == challenge) {
      RenewKeepsRows(rows[1..], user, challenge, now, timeout);
    }
  }

  lemma SamePorts(a: seq<Row>, b: seq<Row>)
    requires |a| == |b| && forall i :: 0 <= i < |a| ==> a[i].port == b[i].port
    ensures PortsOf(a) == PortsOf(b)
  {
    forall p ensures p in PortsOf(a) <==> p in PortsOf(b) {
      if p in PortsOf(a) {
        var i :| 0 <= i < |a| && a[i].port == p;
        assert b[i].port == p;
      }
      if p in PortsOf(b) {
        var i :| 0 <= i < |b| && b[i].port == p;
        assert a[i].port == p;
      }
    }
  }

  lemma RenewConserves(c: Config, w: Whale, user: int, challenge: int, now: real)
    requires Conserved(c, w)
    ensures Conserved(c, Renew(c, w, user, challenge, now).0)
  {
    RenewKeepsRows(w.rows, user, challenge, now, c.timeout);
    SamePorts(RenewRows(w.rows, user, challenge, now, c.timeout), w.rows);
    hide RenewRows, PortsOf;
  }

  lemma StepConserves(c: Config, s: State, e: Event)
    requires Conserved(c, s.whale) && !(c.lo <= 0 <= c.hi)
    ensures Conserved(c, Step(c, s, e).whale)
  {
    match e
    case Reinitialises =>
    case Adds(user, challenge, allowed, port) =>
      var freed := Remove(s.whale, user).0;
      if !(MayStart(c, freed, s.now, allowed) && port !in freed.pool) {
        AddConserves(c, s.whale, user, challenge, s.now, allowed, port);
      }
    case Removes(user) => RemoveConserves(c, s.whale, user);
    case Renews(user, challenge) => RenewConserves(c, s.whale, user, challenge, s.now);
    case Tick(_) =>
  }

  lemma {:induction false} RunConserves(c: Config, now: real, events: seq<Event>)
    requires !(c.lo <= 0 <= c.hi)
    ensures Conserved(c, Run(c, Start(c, now), events).whale)
  {
    hide Step, Conserved;
    if events == [] {
      StartConserves(c, now);
    } else {
      var n := |events| - 1;
      RunConserves(c, now, events[..n]);
      StepConserves(c, Run(c, Start(c, now), events[..n]), events[n]);
    }
  }

  lemma StartConserves(c: Config, now: real)
    ensures Conserved(c, Start(c, now).whale)
  {
  }

  lemma RunOne(c: Config, s: State, e: Event)
    ensures Run(c, s, [e]) == Step(c, s, e)
  {
    hide Step;
    assert [e][..0] == [];
    assert Run(c, s, [e]) == Step(c, Run(c, s, []), e);
  }

  lemma RunTwo(c: Config, s: State, e: Event, f: Event)
    ensures Run(c, s, [e, f]) == Step(c, Step(c, s, e), f)
  {
    hide Step;
    assert [e, f][..1] == [e];
    RunOne(c, s, e);
  }

  /** A player who is given port 0 and stops the container takes the port out of the pool for good. */
  lemma PortZeroLeaks(c: Config, now: real)
    requires c.lo <= 0 <= c.hi && c.maxContainers > 0
    ensures !Conserved(c, Run(c, Start(c, now), [Adds(1, 1, true, 0), Removes(1)]).whale)
  {
    var s := Start(c, now);
    var row := Row(1, 1, 0, now, now, 0);
    RunTwo(c, s, Adds(1, 1, true, 0), Removes(1));
    hide Run, InitPool;
    assert 0 in s.whale.pool;
    assert Step(c, s, Adds(1, 1, true, 0)).whale == Whale(s.whale.pool - {0}, [row]);
    assert [row][1..] == [] && OthersRows([row][1..], 1) == [];
    assert OthersRows([row], 1) == [];
    assert Remove(Whale(s.whale.pool - {0}, [row]), 1).0 == Whale(s.whale.pool - {0}, []);
  }

  /** Every run conserves the ports exactly when the range leaves port 0 out, or no container may ever start. */
  lemma PortsConservedExactly(c: Config, now: real)
    ensures (forall events :: Conserved(c, Run(c, Start(c, now), events).whale)) <==> !(c.lo <= 0 <= c.hi) || c.maxContainers <= 0
  {
    if !(c.lo <= 0 <= c.hi) {
      forall events ensures Conserved(c, Run(c, Start(c, now), events).whale) {
        RunConserves(c, now, events);
      }
    } else if c.maxContainers > 0 {
      PortZeroLeaks(c, now);
    } else {
      forall events ensures Conserved(c, Run(c, Start(c, now), events).whale) {
        NothingStarts(c, now, events);
        StartConserves(c, now);
      }
    }
  }

  lemma {:induction false} NothingStarts(c: Config, now: real, events: seq<Event>)
    requires c.maxContainers <= 0
    ensures Run(c, Start(c, now), events).whale == Start(c, now).whale
  {
    if events != [] {
      NothingStarts(c, now, events[..|events| - 1]);
    }
  }

  /** Whatever the range, no user ever has two rows. */
  lemma {:induction false} RunOneRowEach(c: Config, now: real, events: seq<Event>)
    ensures OneRowEach(Run(c, Start(c, now), events).whale.rows)
  {
    hide Step;
    if events != [] {
      var n := |events| - 1;
      RunOneRowEach(c, now, events[..n]);
      StepOneRowEach(c, Run(c, Start(c, now), events[..n]), events[n]);
    }
  }

  lemma StepOneRowEach(c: Config, s: State, e: Event)
    requires OneRowEach(s.whale.rows)
    ensures OneRowEach(Step(c, s, e).whale.rows)
  {
    hide MayStart, InitPool;
    if e.Adds? || e.Removes? {
      OthersAre(s.whale.rows, e.user);
      OthersOneEach(s.whale.rows, e.user);
      var others := OthersRows(s.whale.rows, e.user);
      assert forall j :: 0 <= j < |others| ==> others[j] in others;
    } else if e.Renews? {
      RenewKeepsRows(s.whale.rows, e.user, e.challenge, s.now, c.timeout);
    }
  }

  /** The rows of containers that are not past their time. */
  function Running(rows: seq<Row>, now: real, timeout: int): set<nat> {
    set i: nat | i < |rows| && rows[i].start >= now - timeout as real
  }

  lemma {:induction false} AliveCountIs(rows: seq<Row>, now: real, timeout: int)
    ensures AliveCount(rows, now, timeout) == |Running(rows, now, timeout)|
  {
    if rows != [] {
      var n := |rows| - 1;
      AliveCountIs(rows[..n], now, timeout);
      AliveAppend(rows[..n], rows[n], now, timeout);
      assert rows == rows[..n] + [rows[n]];
      RunningAppend(rows[..n], rows[n], now, timeout);
    } else {
      assert Running(rows, now, timeout) == {};
    }
  }

  lemma RunningAppend(rows: seq<Row>, row: Row, now: real, timeout: int)
    ensures |Running(rows + [row], now, timeout)|
            == |Running(rows, now, timeout)| + (if Expired(row, now, timeout) then 0 else 1)
  {
    var last: nat := |rows|;
    assert Running(rows + [row], now, timeout)
           == Running(rows, now, timeout) + (if Expired(row, now, timeout) then {} else {last});
  }

  /** A container starts exactly when the challenge is there, fewer than the limit run once the user's
      old one is gone, and a port is free; its row starts now and without renewals. */
  lemma AddedExactly(c: Config, w: Whale, user: int, challenge: int, now: real, allowed: bool, port: int)
    ensures var freed := Remove(w, user).0;
            Add(c, w, user, challenge, now, allowed, port) ==
            if allowed && |Running(freed.rows, now, c.timeout)| < c.maxContainers && freed.pool != {}
            then Whale(freed.pool - {port}, freed.rows + [Row(user, challenge, port, now, now, 0)])
            else freed
  {
    hide Remove, AliveCount, Running;
    AliveCountIs(Remove(w, user).0.rows, now, c.timeout);
  }

  /** When a renewal ends in each answer; only its success changes a row. */
  lemma RenewedExactly(c: Config, w: Whale, user: int, challenge: int, now: real)
    requires OneRowEach(w.rows)
    ensures var (after, answer) := Renew(c, w, user, challenge, now);
            && (answer == NotFound <==> forall r :: r in w.rows ==> r.user != user)
            && (answer == LimitReached <==> exists r :: r in w.rows && r.user == user && r.renewals >= c.maxRenewals)
            && (after != w ==> answer == Renewed && exists r :: r in w.rows && r.user == user && r.challenge == challenge)
  {
    var i := Current(w.rows, user);
    if i.Some? {
      var row := w.rows[i.value];
      assert row in w.rows;
      forall r | r in w.rows && r.user == user ensures r == row {
        OneRow(w.rows, i.value, r);
      }
      OnlyUsersRow(w.rows, user, challenge, now, c.timeout, i.value);
    }
    hide Current, RenewRows;
  }

  // ---- renewals ----

  function Times(k: int, timeout: int): real {
    (k * timeout) as real
  }

  lemma OneMoreTime(k: int, timeout: int)
    ensures Times(k + 1, timeout) == Times(k, timeout) + timeout as real
  {
  }

  lemma TimesGrow(k: int, n: int, timeout: int)
    requires k <= n && timeout >= 0
    ensures Times(k, timeout) <= Times(n, timeout)
  {
  }

  /** After k renewals the start lies between the creation and k timeouts later, and not in the future. */
  ghost predicate Bounded(c: Config, row: Row, now: real) {
    && row.created <= row.start <= now
    && row.start <= row.created + Times(row.renewals, c.timeout)
    && 0 <= row.renewals && (row.renewals == 0 || row.renewals <= c.maxRenewals)
  }

  ghost predicate AllBounded(c: Config, s: State) {
    forall r :: r in s.whale.rows ==> Bounded(c, r, s.now)
  }

  lemma RenewedIsBounded(c: Config, row: Row, now: real)
    requires Bounded(c, row, now) && c.timeout >= 0 && row.renewals < c.maxRenewals
    ensures Bounded(c, row.(start := RenewedStart(row.start, now, c.timeout), renewals := row.renewals + 1), now)
  {
    OneMoreTime(row.renewals, c.timeout);
  }

  lemma StepBounded(c: Config, s: State, e: Event)
    requires AllBounded(c, s) && OneRowEach(s.whale.rows) && c.timeout >= 0
    ensures AllBounded(c, Step(c, s, e))
  {
    hide Times, InitPool;
    var t := Step(c, s, e);
    match e
    case Reinitialises =>
    case Adds(user, challenge, allowed, port) =>
      OthersAre(s.whale.rows, user);
      hide MayStart;
      NewIsBounded(c, user, challenge, port, s.now);
    case Removes(user) => OthersAre(s.whale.rows, user);
    case Renews(user, challenge) => RenewBounded(c, s, user, challenge);
    case Tick(_) =>
  }

  lemma NewIsBounded(c: Config, user: int, challenge: int, port: int, now: real)
    ensures Bounded(c, Row(user, challenge, port, now, now, 0), now)
  {
  }

  lemma RenewBounded(c: Config, s: State, user: int, challenge: int)
    requires AllBounded(c, s) && OneRowEach(s.whale.rows) && c.timeout >= 0
    ensures AllBounded(c, Step(c, s, Renews(user, challenge)))
  {
    hide Bounded, RenewRows, RenewedStart, InitPool, Add, Remove;
    var rows := s.whale.rows;
    var i := Current(rows, user);
    if i.Some? && rows[i.value].renewals < c.maxRenewals {
      var row := rows[i.value];
      assert row in rows;
      RenewedIsBounded(c, row, s.now);
      OnlyUsersRow(rows, user, challenge, s.now, c.timeout, i.value);
      var renewed := row.(start := RenewedStart(row.start, s.now, c.timeout), renewals := row.renewals + 1);
      UpdatedAll(rows, i.value, renewed, c, s.now);
    }
  }

  lemma UpdatedAll(rows: seq<Row>, i: nat, row: Row, c: Config, now: real)
    requires i < |rows| && Bounded(c, row, now) && forall r :: r in rows ==> Bounded(c, r, now)
    ensures forall r :: r in rows[i := row] ==> Bounded(c, r, now)
  {
    hide Bounded;
  }

  lemma {:induction false} RenewAt(rows: seq<Row>, user: int, challenge: int, now: real, timeout: int, i: nat)
    requires i <= |rows|
    requires forall j :: 0 <= j < i ==> !(rows[j].user == user && rows[j].challenge == challenge)
    requires i < |rows| ==> rows[i].user == user && rows[i].challenge == challenge
    ensures RenewRows(rows, user, challenge, now, timeout)
            == if i < |rows|
               then rows[i := rows[i].(start := RenewedStart(rows[i].start, now, timeout), renewals := rows[i].renewals + 1)]
               else rows
  {
    if i > 0 {
      RenewAt(rows[1..], user, challenge, now, timeout, i - 1);
    }
  }

  /** With one row a user, only the row that was checked can be the one renewed. */
  lemma OnlyUsersRow(rows: seq<Row>, user: int, challenge: int, now: real, timeout: int, i: nat)
    requires OneRowEach(rows) && i < |rows| && rows[i].user == user
    ensures RenewRows(rows, user, challenge, now, timeout)
            == if rows[i].challenge == challenge
               then rows[i := rows[i].(start := RenewedStart(rows[i].start, now, timeout), renewals := rows[i].renewals + 1)]
               else rows
  {
    RenewAt(rows, user, challenge, now, timeout, if rows[i].challenge == challenge then i else |rows|);
  }

  /** A renewal renews: a container not yet past its time lives another full timeout from now, one past it
      until two timeouts after its old start; only its start and count change, and no other row. */
  lemma RenewalRenews(rows: seq<Row>, user: int, challenge: int, now: real, timeout: int, i: nat, t: real)
    requires i < |rows| && rows[i].user == user && rows[i].challenge == challenge
    requires forall j :: 0 <= j < i ==> !(rows[j].user == user && rows[j].challenge == challenge)
    ensures var after := RenewRows(rows, user, challenge, now, timeout);
            && |after| == |rows| && (forall j :: 0 <= j < |rows| && j != i ==> after[j] == rows[j])
            && after[i] == rows[i].(start := after[i].start, renewals := rows[i].renewals + 1)
            && (now <= rows[i].start + timeout as real ==>
                  (Expired(after[i], t, timeout) <==> t > now + timeout as real))
            && (now > rows[i].start + timeout as real ==>
                  (Expired(after[i], t, timeout) <==> t > rows[i].start + 2.0 * timeout as real))
  {
    RenewAt(rows, user, challenge, now, timeout, i);
  }

  /** In every run, a player whose container has renewals left gets just that by renewing it. */
  lemma RenewalExtends(c: Config, now: real, events: seq<Event>, i: nat, t: real)
    requires i < |Run(c, Start(c, now), events).whale.rows|
    requires Run(c, Start(c, now), events).whale.rows[i].renewals < c.maxRenewals
    ensures var s := Run(c, Start(c, now), events);
            var row := s.whale.rows[i];
            var after := Step(c, s, Renews(row.user, row.challenge));
            && |after.whale.rows| == |s.whale.rows|
            && after == s.(whale := s.whale.(rows := s.whale.rows[i := after.whale.rows[i]]))
            && after.whale.rows[i].renewals == row.renewals + 1
            && (Expired(after.whale.rows[i], t, c.timeout) <==>
                t > (if s.now <= row.start + c.timeout as real then s.now else row.start + c.timeout as real) + c.timeout as real)
  {
    RunOneRowEach(c, now, events);
    var s := Run(c, Start(c, now), events);
    hide Run, Start;
    var row := s.whale.rows[i];
    OnlyUsersRow(s.whale.rows, row.user, row.challenge, s.now, c.timeout, i);
    RenewalRenews(s.whale.rows, row.user, row.challenge, s.now, c.timeout, i, t);
    assert Current(s.whale.rows, row.user) == Some(i);
    hide RenewRows, Current;
  }

  lemma {:induction false} RunBounded(c: Config, now: real, events: seq<Event>)
    requires c.timeout >= 0
    ensures AllBounded(c, Run(c, Start(c, now), events))
  {
    hide Step, Bounded;
    if events != [] {
      var n := |events| - 1;
      RunBounded(c, now, events[..n]);
      RunOneRowEach(c, now, events[..n]);
      StepBounded(c, Run(c, Start(c, now), events[..n]), events[n]);
    }
  }

  /** In every run of player actions a container is expired once its creation is one timeout
      further back than the allowed renewals reach. */
  lemma RenewalsEnd(c: Config, now: real, events: seq<Event>, row: Row)
    requires c.timeout >= 0 && c.maxRenewals >= 0
    requires var s := Run(c, Start(c, now), events);
             row in s.whale.rows && s.now > row.created + Times(c.maxRenewals + 1, c.timeout)
    ensures var s := Run(c, Start(c, now), events);
            && row.created <= row.start <= s.now && row.start <= row.created + Times(row.renewals, c.timeout)
            && row.renewals <= c.maxRenewals
            && Expired(row, s.now, c.timeout)
  {
    RunBounded(c, now, events);
    TimesGrow(row.renewals, c.maxRenewals, c.timeout);
    OneMoreTime(c.maxRenewals, c.timeout);
    hide Times, Run;
  }

  /** Whoever has a container before and after a step has one that started no earlier. */
  ghost predicate MovesForward(s: State, t: State) {
    forall r, q :: r in s.whale.rows && q in t.whale.rows && q.user == r.user ==> q.start >= r.start
  }

  lemma StepMovesForward(c: Config, s: State, e: Event)
    requires OneRowEach(s.whale.rows) && c.timeout >= 0 && forall r :: r in s.whale.rows ==> r.start <= s.now
    ensures MovesForward(s, Step(c, s, e))
  {
    hide InitPool, MayStart;
    var rows, after := s.whale.rows, Step(c, s, e).whale.rows;
    if e.Adds? || e.Removes? {
      OthersAre(rows, e.user);
    } else if e.Renews? {
      RenewKeepsRows(rows, e.user, e.challenge, s.now, c.timeout);
    }
    hide Step;
    forall r, q | r in rows && q in after && q.user == r.user ensures q.start >= r.start {
      if e.Adds? && q.user == e.user {
        assert q !in OthersRows(rows, e.user);
      } else if e.Renews? {
        var i :| 0 <= i < |after| && after[i] == q;
        OneRow(rows, i, r);
      } else {
        var i :| 0 <= i < |rows| && rows[i] == q;
        OneRow(rows, i, r);
      }
    }
  }

  lemma OneRow(rows: seq<Row>, i: nat, r: Row)
    requires OneRowEach(rows) && i < |rows| && r in rows && r.user == rows[i].user
    ensures r == rows[i]
  {
  }

  /** In every run and step no container's start moves back, exactly when the timeout is not negative. */
  lemma StartsMoveForwardExactly(c: Config, now: real)
    requires c.lo <= c.hi && c.maxContainers > 0 && c.maxRenewals > 0
    ensures (forall events, e :: MovesForward(Run(c, Start(c, now), events), Step(c, Run(c, Start(c, now), events), e)))
            <==> c.timeout >= 0
  {
    hide Run, Step, MovesForward, Start;
    if c.timeout >= 0 {
      forall events, e ensures MovesForward(Run(c, Start(c, now), events), Step(c, Run(c, Start(c, now), events), e)) {
        RunOneRowEach(c, now, events);
        RunBounded(c, now, events);
        StepMovesForward(c, Run(c, Start(c, now), events), e);
      }
    } else {
      RenewalMovesBack(c, now);
    }
  }

  lemma RenewalMovesBack(c: Config, now: real)
    requires c.lo <= c.hi && c.maxContainers > 0 && c.maxRenewals > 0 && c.timeout < 0
    ensures var s := Run(c, Start(c, now), [Adds(1, 1, true, c.lo)]);
            !MovesForward(s, Step(c, s, Renews(1, 1)))
  {
    var add := Adds(1, 1, true, c.lo);
    RunOne(c, Start(c, now), add);
    var s := Step(c, Start(c, now), add);
    assert c.lo in Start(c, now).whale.pool;
    var row := Row(1, 1, c.lo, now, now, 0);
    assert s.whale.rows == [row];
    var after := row.(start := RenewedStart(now, now, c.timeout), renewals := 1);
    assert Step(c, s, Renews(1, 1)).whale.rows == [after] + [row][1..];
    assert row in s.whale.rows && after in Step(c, s, Renews(1, 1)).whale.rows;
  }

  // ---- the limit on containers ----

  lemma {:induction false} AliveAppend(rows: seq<Row>, row: Row, now: real, timeout: int)
    ensures AliveCount(rows + [row], now, timeout)
            == AliveCount(rows, now, timeout) + (if Expired(row, now, timeout) then 0 else 1)
  {
    if rows == [] {
      assert rows + [row] == [row];
    } else {
      assert (rows + [row])[1..] == rows[1..] + [row];
      AliveAppend(rows[1..], row, now, timeout);
    }
  }

  lemma {:induction false} AliveOthers(rows: seq<Row>, user: int, now: real, timeout: int)
    ensures AliveCount(OthersRows(rows, user), now, timeout) <= AliveCount(rows, now, timeout)
  {
    if rows != [] {
      AliveOthers(rows[1..], user, now, timeout);
    }
  }

  lemma {:induction false} AliveLater(rows: seq<Row>, now: real, later: real, timeout: int)
    requires now <= later
    ensures AliveCount(rows, later, timeout) <= AliveCount(rows, now, timeout)
  {
    if rows != [] {
      AliveLater(rows[1..], now, later, timeout);
    }
  }

  lemma {:induction false} AliveUpdate(rows: seq<Row>, i: nat, row: Row, now: real, timeout: int)
    requires i < |rows|
    ensures AliveCount(rows[i := row], now, timeout) - AliveCount(rows, now, timeout)
            == (if Expired(rows[i], now, timeout) then 1 else 0) - (if Expired(row, now, timeout) then 1 else 0)
  {
    if i > 0 {
      AliveUpdate(rows[1..], i - 1, row, now, timeout);
      assert rows[i := row][1..] == rows[1..][i - 1 := row];
    } else {
      assert rows[0 := row][1..] == rows[1..];
    }
  }

  /** A container past its time that has not been taken away, and that its owner may still renew. */
  predicate Revivable(c: Config, s: State, e: Event) {
    && e.Renews? && Current(s.whale.rows, e.user).Some?
    && var row := s.whale.rows[Current(s.whale.rows, e.user).value];
       Expired(row, s.now, c.timeout) && row.challenge == e.challenge && row.renewals < c.maxRenewals
       && !Expired(row.(start := RenewedStart(row.start, s.now, c.timeout)), s.now, c.timeout)
  }

  /** The number of containers that are not expired goes over the limit exactly when a full house gains
      a revived one. */
  lemma LimitHoldsExactly(c: Config, s: State, e: Event)
    requires OneRowEach(s.whale.rows) && c.timeout >= 0 && AliveCount(s.whale.rows, s.now, c.timeout) <= c.maxContainers
    requires forall r :: r in s.whale.rows ==> r.start <= s.now
    ensures var t := Step(c, s, e);
            AliveCount(t.whale.rows, t.now, c.timeout) > c.maxContainers
            <==> Revivable(c, s, e) && AliveCount(s.whale.rows, s.now, c.timeout) == c.maxContainers
  {
    hide InitPool;
    match e
    case Reinitialises =>
    case Adds(user, challenge, allowed, port) =>
      AliveOthers(s.whale.rows, user, s.now, c.timeout);
      AliveAppend(Remove(s.whale, user).0.rows, Row(user, challenge, port, s.now, s.now, 0), s.now, c.timeout);
    case Removes(user) => AliveOthers(s.whale.rows, user, s.now, c.timeout);
    case Renews(user, challenge) => RenewalLimit(c, s, user, challenge);
    case Tick(seconds) =>
      if seconds >= 0.0 {
        AliveLater(s.whale.rows, s.now, s.now + seconds, c.timeout);
      }
  }

  lemma RenewalLimit(c: Config, s: State, user: int, challenge: int)
    requires OneRowEach(s.whale.rows) && c.timeout >= 0 && AliveCount(s.whale.rows, s.now, c.timeout) <= c.maxContainers
    requires forall r :: r in s.whale.rows ==> r.start <= s.now
    ensures var t := Step(c, s, Renews(user, challenge));
            AliveCount(t.whale.rows, t.now, c.timeout) > c.maxContainers
            <==> Revivable(c, s, Renews(user, challenge)) && AliveCount(s.whale.rows, s.now, c.timeout) == c.maxContainers
  {
    var rows := s.whale.rows;
    var i := Current(rows, user);
    if i.Some? && rows[i.value].renewals < c.maxRenewals {
      var row := rows[i.value];
      assert row in rows;
      OnlyUsersRow(rows, user, challenge, s.now, c.timeout, i.value);
      hide RenewRows, AliveCount;
      if row.challenge == challenge {
        AliveUpdate(rows, i.value, row.(start := RenewedStart(row.start, s.now, c.timeout), renewals := row.renewals + 1),
                    s.now, c.timeout);
      }
    }
  }

  /** Room for one container, which lives 10 seconds and may be renewed three times. */
  const ONE_AT_A_TIME := Config(1, 5, 10, 1, 3)

  /** The first container expires, a second one starts, and then the first is renewed. */
  const REVIVAL: seq<Event> := [Adds(1, 1, true, 1), Tick(11.0), Adds(2, 1, true, 2), Renews(1, 1)]

  /** A run that ends with two running containers where one is allowed. */
  lemma LimitIsExceeded()
    ensures var s := Run(ONE_AT_A_TIME, Start(ONE_AT_A_TIME, 0.0), REVIVAL);
            AliveCount(s.whale.rows, s.now, ONE_AT_A_TIME.timeout) == 2 > ONE_AT_A_TIME.maxContainers
  {
    var c := ONE_AT_A_TIME;
    var s0 := Start(c, 0.0);
    var first, second := Row(1, 1, 1, 0.0, 0.0, 0), Row(2, 1, 2, 11.0, 11.0, 0);
    var s1 := State(Whale(s0.whale.pool - {1}, [first]), 0.0);
    var s2 := State(s1.whale, 11.0);
    var s3 := State(Whale(s1.whale.pool - {2}, [first, second]), 11.0);
    var revived := first.(start := 10.0, renewals := 1);
    var s4 := State(Whale(s3.whale.pool, [revived, second]), 11.0);
    FirstAdd(s0, s1);
    assert Step(c, s1, REVIVAL[1]) == s2;
    SecondAdd(s2, s3);
    assert [first, second][1..] == [second];
    assert Step(c, s3, REVIVAL[3]) == s4;
    hide Step;
    RunTwo(c, s0, REVIVAL[0], REVIVAL[1]);
    assert REVIVAL[..3][..2] == [REVIVAL[0], REVIVAL[1]] && REVIVAL[..3][2] == REVIVAL[2];
    assert Run(c, s0, REVIVAL[..3]) == s3;
    assert Run(c, s0, REVIVAL) == s4;
    assert [revived, second][1..] == [second] && [second][1..] == [];
    assert AliveCount([second], 11.0, 10) == 1;
  }

  lemma FirstAdd(s: State, t: State)
    requires s == Start(ONE_AT_A_TIME, 0.0) && t == State(Whale(s.whale.pool - {1}, [Row(1, 1, 1, 0.0, 0.0, 0)]), 0.0)
    ensures Step(ONE_AT_A_TIME, s, REVIVAL[0]) == t
  {
    assert 1 in s.whale.pool;
  }

  lemma SecondAdd(s: State, t: State)
    requires var first := Row(1, 1, 1, 0.0, 0.0, 0);
             && s == State(Whale(Start(ONE_AT_A_TIME, 0.0).whale.pool - {1}, [first]), 11.0)
             && t == State(Whale(s.whale.pool - {2}, [first, Row(2, 1, 2, 11.0, 11.0, 0)]), 11.0)
    ensures Step(ONE_AT_A_TIME, s, REVIVAL[2]) == t
  {
    var first := Row(1, 1, 1, 0.0, 0.0, 0);
    assert 2 in s.whale.pool;
    assert [first][1..] == [];
    assert AliveCount([first], 11.0, 10) == 0;
    assert Current([first], 2) == None;
  }

  // ---- one request a minute ----

  /** Whether a session's last accepted request is less than a minute old. */
  function Limited(last: Option<int>, now: real): bool {
    last.Some? && now.Floor - last.value < 60
  }

  /** The times of the requests a session is granted, in whole seconds, out of those it makes. */
  function Granted(times: seq<real>): seq<int> {
    if times == [] then []
    else
      var before := Granted(times[..|times| - 1]);
      var now := times[|times| - 1];
      var last := if before == [] then None else Some(before[|before| - 1]);
      if Limited(last, now) then before else before + [now.Floor]
  }

  /** Granted requests are at least a minute apart. */
  lemma {:induction false} GrantedAreSpaced(times: seq<real>)
    ensures forall i :: 0 < i < |Granted(times)| ==> Granted(times)[i] - Granted(times)[i - 1] >= 60
  {
    if times != [] {
      GrantedAreSpaced(times[..|times| - 1]);
    }
  }

  /** One more request is granted exactly when it is the first, or a minute after the last one granted. */
  lemma GrantedWhenSpaced(times: seq<real>, now: real)
    ensures var before, after := Granted(times), Granted(times + [now]);
            after == if before == [] || now.Floor - before[|before| - 1] >= 60 then before + [now.Floor] else before
  {
    hide Granted;
    GrantedNext(times, now);
  }

  lemma GrantedNext(times: seq<real>, now: real)
    ensures var before := Granted(times);
            Granted(times + [now]) == if Limited(if before == [] then None else Some(before[|before| - 1]), now)
                                      then before else before + [now.Floor]
  {
    assert (times + [now])[..|times|] == times;
  }

  // ---- the plugin's operations ----

  class Session {
    var limit: Option<int>

    constructor ()
      ensures limit == None
    {
      limit := None;
    }

    method FrequencyLimit(now: real) returns (limited: bool)
      modifies this
      ensures limited == Limited(old(limit), now)
      ensures limit == if limited then old(limit) else Some(now.Floor)
    {
      if limit.None? {
        limit := Some(now.Floor);
        return false;
      }
      if now.Floor - limit.value < 60 {
        return true;
      }
      limit := Some(now.Floor);
      limited := false;
    }
  }

  datatype Reply = TooFast | TooSoon | Failed | Success

  class Plugin {
    const config: Config
    var pool: set<int>
    var rows: seq<Row>

    constructor (config: Config)
      ensures this.config == config && State() == Whale({}, [])
    {
      this.config, pool, rows := config, {}, [];
    }

    function State(): Whale
      reads this
    {
      Whale(pool, rows)
    }

    /** Fills the pool anew from the range, without the ports that rows hold. */
    method InitRedisPortSets()
      modifies this`pool
      ensures pool == InitPool(rows, config.lo, config.hi)
    {
      pool := {};
      var used: seq<int> := [];
      for i := 0 to |rows|
        invariant forall p :: p in used <==> p != 0 && exists j :: 0 <= j < i && rows[j].port == p
      {
        if rows[i].port != 0 {
          used := used + [rows[i].port];
        }
      }
      var port := config.lo;
      while port <= config.hi
        invariant forall p :: p in pool <==> config.lo <= p < port && p <= config.hi && p !in used
        decreases config.hi - port
      {
        if port !in used {
          AddAvailablePort(port);
        }
        port := port + 1;
      }
      assert forall p :: p in pool <==> p in InitPool(rows, config.lo, config.hi);
    }

    method AddAvailablePort(port: int)
      modifies this`pool
      ensures pool == old(pool) + {port}
    {
      pool := pool + {port};
    }

    /** Pops whichever port the pool gives; none means the call raises. */
    method GetAvailablePort() returns (port: Option<int>)
      modifies this`pool
      ensures port.None? <==> old(pool) == {}
      ensures port.Some? ==> port.value in old(pool)
      ensures pool == if port.Some? then old(pool) - {port.value} else old(pool)
    {
      port := None;
      if pool != {} {
        NonEmpty(pool);
        var p :| p in pool;
        pool := pool - {p};
        port := Some(p);
      }
    }

    method RemoveContainer(user: int) returns (ok: bool)
      modifies this
      ensures (State(), ok) == Remove(old(State()), user)
    {
      var container := Current(rows, user);
      var port := if container.Some? then rows[container.value].port else 0;
      ok := container.Some?;
      if ok {
        rows := OthersRows(rows, user);
        if port != 0 {
          AddAvailablePort(port);
        }
      }
    }

    /** Starts a container once the old one is gone, whatever comes of the new one. */
    method StartContainer(user: int, challenge: int, now: real, allowed: bool, starts: bool) returns (ok: bool, port: int)
      modifies this
      ensures var freed := Remove(old(State()), user).0;
              && (MayStart(config, freed, now, allowed) ==> port in freed.pool)
              && (ok <==> MayStart(config, freed, now, allowed) && starts)
      ensures State() == Add(config, old(State()), user, challenge, now, allowed, port)
    {
      hide OthersRows, AliveCount, Current;
      port := 0;
      var _ := RemoveContainer(user);
      if !allowed {
        return false, port;
      }
      if config.maxContainers <= AliveCount(rows, now, config.timeout) {
        return false, port;
      }
      var popped := GetAvailablePort();
      if popped.None? {
        return false, port;
      }
      port := popped.value;
      rows := rows + [Row(user, challenge, port, now, now, 0)];
      ok := starts;
    }

    /** The player's request, which first needs the user's lock and a minute since the session's last one. */
    method AddContainer(session: Session, user: int, challenge: int, now: real, locks: bool, allowed: bool, starts: bool)
      returns (reply: Reply, port: int)
      modifies this, session
      ensures !locks ==> reply == TooFast && State() == old(State()) && session.limit == old(session.limit)
      ensures locks && Limited(old(session.limit), now) ==>
                reply == TooSoon && State() == old(State()) && session.limit == old(session.limit)
      ensures locks && !Limited(old(session.limit), now) ==>
                var freed := Remove(old(State()), user).0;
                && session.limit == Some(now.Floor)
                && State() == Add(config, old(State()), user, challenge, now, allowed, port)
                && (MayStart(config, freed, now, allowed) ==> port in freed.pool)
                && reply == (if MayStart(config, freed, now, allowed) && starts then Success else Failed)
    {
      hide Remove, Add, MayStart;
      port := 0;
      if !locks {
        return TooFast, port;
      }
      var limited := session.FrequencyLimit(now);
      if limited {
        return TooSoon, port;
      }
      var ok;
      ok, port := StartContainer(user, challenge, now, allowed, starts);
      reply := if ok then Success else Failed;
    }

    /** The player's removal: it fails exactly when there is no container. */
    method RemoveOwnContainer(session: Session, user: int, now: real, locks: bool) returns (reply: Reply)
      modifies this, session
      ensures !locks ==> reply == TooFast && State() == old(State()) && session.limit == old(session.limit)
      ensures locks && Limited(old(session.limit), now) ==>
                reply == TooSoon && State() == old(State()) && session.limit == old(session.limit)
      ensures locks && !Limited(old(session.limit), now) ==>
                && session.limit == Some(now.Floor) && State() == Remove(old(State()), user).0
                && reply == (if Remove(old(State()), user).1 then Success else Failed)
    {
      hide Remove;
      if !locks {
        return TooFast;
      }
      var limited := session.FrequencyLimit(now);
      if limited {
        return TooSoon;
      }
      var ok := RemoveContainer(user);
      reply := if ok then Success else Failed;
    }

    /** The player's renewal: no such challenge, no container or too many renewals make it fail. */
    method RenewContainer(session: Session, user: int, challenge: int, now: real, locks: bool, allowed: bool) returns (reply: Reply)
      modifies this, session
      ensures !locks ==> reply == TooFast && State() == old(State()) && session.limit == old(session.limit)
      ensures locks && Limited(old(session.limit), now) ==>
                reply == TooSoon && State() == old(State()) && session.limit == old(session.limit)
      ensures locks && !Limited(old(session.limit), now) ==>
                var (after, r) := Renew(config, old(State()), user, challenge, now);
                && session.limit == Some(now.Floor) && State() == (if allowed then after else old(State()))
                && reply == (if allowed && r == Renewed then Success else Failed)
    {
      if !locks {
        return TooFast;
      }
      var limited := session.FrequencyLimit(now);
      if limited {
        return TooSoon;
      }
      if !allowed {
        return Failed;
      }
      var container := Current(rows, user);
      if container.None? {
        return Failed;
      }
      if rows[container.value].renewals >= config.maxRenewals {
        return Failed;
      }
      RenewCurrentContainer(user, challenge, now);
      reply := Success;
    }

    /** Moves the start of the first matching row a timeout on, but not past the present. */
    method RenewCurrentContainer(user: int, challenge: int, now: real)
      modifies this`rows
      ensures rows == RenewRows(old(rows), user, challenge, now, config.timeout)
    {
      var i := 0;
      while i < |rows| && !(rows[i].user == user && rows[i].challenge == challenge)
        invariant 0 <= i <= |rows|
        invariant forall j :: 0 <= j < i ==> !(rows[j].user == user && rows[j].challenge == challenge)
        invariant rows == old(rows)
      {
        i := i + 1;
      }
      RenewAt(rows, user, challenge, now, config.timeout, i);
      if i == |rows| {
        return;
      }
      var r := rows[i];
      r := r.(start := r.start + config.timeout as real);
      if r.start > now {
        r := r.(start := now);
      }
      r := r.(renewals := r.renewals + 1);
      rows := rows[i := r];
    }
  }
}
