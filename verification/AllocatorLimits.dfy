/** Where the allocator's guarantees end: each condition they need is shown to be exact by runs on a
    single worker. */
module AllocatorLimits {
  import opened Basics
  import opened Scheduler
  import opened InstanceStore
  import opened InstanceManager
  import opened AllocatorProtocol
  import opened AllocatorCapacity
  import opened AllocatorRuns

  const ALLOCATE := Config(false, 90)

  const START := State(Db([], [], map[]), 0.0, Idle, [], Pending)

  // ---- one worker ----

  /** A table with one worker, heard of at time 0, and with no instance on any network. */
  ghost predicate Lone(db: Db, h: Heartbeat) {
    && h.id != "" && db.workers == [RowOf(h, 0.0)]
    && forall k :: k in db.rows ==> db.rows[k].inst.network == None
  }

  ghost function LoneUse(db: Db, h: Heartbeat, now: real): Usage {
    UsageOf(db.order, db.rows, now, h.id)
  }

  ghost function LoneState(db: Db, h: Heartbeat, now: real): Worker {
    Loaded(FromPayload(RowOf(h, 0.0)), LoneUse(db, h, now))
  }

  function At(now: real): Clock {
    Clock(now, now, now, now)
  }

  function LoneRow(h: Heartbeat, job: Job, port: int, now: real): Row {
    Row(Instance(h.id, port, None, job.req.cpu, job.req.memory, job.req.disk), Allocated, now + job.ttl as real)
  }

  lemma LoneStates(db: Db, h: Heartbeat, now: real)
    requires Lone(db, h) && 0.0 <= now <= 90.0
    ensures WorkerStates(db, now, 90) == [LoneState(db, h, now)]
  {
    hide UsageOf, FromPayload;
    var row := RowOf(h, 0.0);
    assert db.workers[..0] == [];
    assert Recent(db.workers, now, 90) == Recent([], now, 90) + [row];
    assert Recent(db.workers, now, 90) == [row];
    RowId(h, 0.0);
  }

  lemma LoneChoices(db: Db, h: Heartbeat, network: string, now: real)
    requires Lone(db, h) && 0.0 <= now <= 90.0
    ensures Choices(db, WorkerStates(db, now, 90), network, now) == [LoneState(db, h, now)]
  {
    LoneStates(db, h, now);
    ColocatedIs(db.order, db.rows, network, now);
    hide WorkerStates, UsageOf, Colocated;
  }

  /** The first free port of the worker, as its state shows it. */
  ghost predicate FirstPort(w: Worker, port: int) {
    w.portLo <= port <= w.portHi && port !in w.usedPorts && forall p :: w.portLo <= p < port ==> p in w.usedPorts
  }

  lemma LoneChoice(db: Db, h: Heartbeat, job: Job, now: real, port: int)
    requires Lone(db, h) && 0.0 <= now <= 90.0
    requires Eligible(LoneState(db, h, now), job.req) && FirstPort(LoneState(db, h, now), port)
    ensures var choice := Choose(db, WorkerStates(db, now, 90), job, now);
            choice.Some? && choice.value.workerId == h.id && choice.value.port == port
  {
    hide WorkerStates, Choices, LoneState, Eligible, FirstPort;
    LoneChoices(db, h, job.network, now);
    OnlyOne(LoneState(db, h, now), job.req, port);
    LoneId(db, h, now);
    hide Select;
  }

  /** A single eligible worker is chosen, on its first free port. */
  lemma OnlyOne(w: Worker, req: Request, port: int)
    requires Eligible(w, req) && FirstPort(w, port)
    ensures var choice := Select([w], req); choice.Some? && choice.value.workerId == w.id && choice.value.port == port
  {
    EligibleUnrejected(w, req);
    hide Eligible, Rejections;
    var i := SelectsFirstBest([w], req);
    assert w in [w];
    hide Select;
  }

  lemma LoneId(db: Db, h: Heartbeat, now: real)
    ensures LoneState(db, h, now).id == h.id
  {
  }

  /** A create on the lone worker takes its first port not recorded as used. */
  lemma LoneCreate(db: Db, h: Heartbeat, job: Job, now: real, port: int)
    requires Lone(db, h) && 0.0 <= now <= 90.0 && !db.LiveAt(job.key, now)
    requires Eligible(LoneState(db, h, now), job.req) && FirstPort(LoneState(db, h, now), port)
    ensures var (after, outcome) := Create(ALLOCATE, db, At(now), job, false, true);
            var row := LoneRow(h, job, port, now);
            && outcome == Created(row)
            && after == Put(StopEffect(ALLOCATE, db, job.key, Expired, false, false), job.key, row)
            && Lone(after, h)
  {
    LoneChoice(db, h, job, now, port);
    hide WorkerStates, Choose, LoneState, Eligible;
  }

  /** The steps of a create alone on the lone worker, and their effect. */
  lemma LoneRun(s: State, h: Heartbeat, job: Job, port: int) returns (events: seq<Event>, t: State)
    requires Safe(s) && s.phase.Idle? && Lone(s.db, h) && 0.0 <= s.now <= 90.0 && !s.db.LiveAt(job.key, s.now)
    requires Eligible(LoneState(s.db, h, s.now), job.req) && FirstPort(LoneState(s.db, h, s.now), port)
    ensures forall e :: e in events ==> !e.Beat? && (e.Begin? ==> e.job == job)
    ensures t == Run(ALLOCATE, s, events) && Safe(t) && t.phase.Idle? && t.stops == s.stops && t.now == s.now
    ensures t.db == Put(StopEffect(ALLOCATE, s.db, job.key, Expired, false, false), job.key, LoneRow(h, job, port, s.now))
    ensures t.outcome == Created(LoneRow(h, job, port, s.now)) && Lone(t.db, h)
  {
    hide Safe, Create, Choose, WorkerStates, StopOutcome, StopEffect, Lone, LoneState, Eligible, FirstPort, Run;
    events := CreateEvents(ALLOCATE, s, At(s.now), job, false, true);
    CreateAlone(ALLOCATE, s, At(s.now), job, false, true);
    LoneCreate(s.db, h, job, s.now, port);
    RunKeeps(ALLOCATE, s, events);
    t := Run(ALLOCATE, s, events);
  }

  lemma {:induction false} UnwrittenUsage(order: seq<Key>, rows: map<Key, Row>, key: Key, row: Row, now: real, worker: string)
    requires key !in order
    ensures UsageOf(order, rows[key := row], now, worker) == UsageOf(order, rows, now, worker)
  {
    if order != [] {
      UnwrittenUsage(order[..|order| - 1], rows, key, row, now, worker);
    }
  }

  /** A new live record of the lone worker adds its use at the end. */
  lemma NewUse(db: Db, h: Heartbeat, key: Key, row: Row, now: real)
    requires db.Valid() && key !in db.rows && Live(row, now) && row.inst.worker == h.id
    ensures LoneUse(Put(db, key, row), h, now) == AddTo(LoneUse(db, h, now), row.inst)
  {
    UnwrittenUsage(db.order, db.rows, key, row, now, h.id);
    assert (db.order + [key])[..|db.order|] == db.order;
    hide UsageOf;
    UsageUnfold(db.order + [key], db.rows[key := row], now, h.id);
  }

  /** A worker that takes a request when idle takes a like one as long as there is room. */
  lemma StillEligible(w: Worker, u: Usage, req: Request, like: Request, port: int)
    requires Eligible(w, req) && like.platform == req.platform && like.features == req.features
    requires w.portLo <= port <= w.portHi && port !in u.ports
    requires Within(Usage(u.cpu + like.cpu, u.ram + like.memory, u.disk + like.disk, u.count + 1, u.ports), w)
    ensures Eligible(Loaded(w, u), like)
  {
    var v := Loaded(w, u);
    SamePlatforms(w, v, req.platform);
    NoPortsLeft(v);
    hide PlatformWeight, FreePorts;
    assert port !in v.usedPorts;
  }

  /** The first step of each run below: the worker is heard of. */
  lemma FirstBeat(h: Heartbeat) returns (s: State)
    requires h.id != ""
    ensures s == Run(ALLOCATE, START, [Beat(h)]) && Fair(START, Beat(h))
    ensures Safe(s) && s.phase.Idle? && s.stops == [] && s.now == 0.0 && s.db.order == [] && s.db.rows == map[]
    ensures Lone(s.db, h) && LoneUse(s.db, h, 0.0) == NO_USAGE
  {
    RunOne(ALLOCATE, START, Beat(h));
    InitialIsSafe(START);
    StepKeeps(ALLOCATE, START, Beat(h));
    s := Step(ALLOCATE, START, Beat(h));
  }

  // ---- filling the worker ----

  function NumberedKey(i: nat): Key {
    seq(i, _ => 'x')
  }

  function Nothing(req: Request): Request {
    req.(cpu := 0.0, memory := 0, disk := 0)
  }

  /** The n-th job: the first asks for the request, the others for nothing. */
  function NthJob(req: Request, n: nat): Job {
    Job(NumberedKey(n), "net", 3600, if n == 0 then req else Nothing(req))
  }

  /** The n-th port: one after the other, but once port 0 is reached it is given again and again. */
  function NthPort(lo: int, n: nat): int {
    if lo <= 0 <= lo + n then 0 else lo + n
  }

  ghost predicate Filled(s: State, h: Heartbeat, req: Request, n: nat) {
    && s.now == 0.0 && s.phase.Idle? && s.stops == [] && Safe(s) && Lone(s.db, h)
    && (forall i: nat :: NumberedKey(i) in s.db.rows <==> i < n)
    && (forall i: nat :: i < n ==>
          s.db.rows[NumberedKey(i)] == LoneRow(h, NthJob(req, i), NthPort(FromPayload(RowOf(h, 0.0)).portLo, i), 0.0))
    && FilledUse(LoneUse(s.db, h, 0.0), FromPayload(RowOf(h, 0.0)).portLo, req, n)
  }

  ghost predicate FilledUse(u: Usage, lo: int, req: Request, n: nat) {
    && u.cpu == (if n == 0 then 0.0 else req.cpu) && u.ram == (if n == 0 then 0 else req.memory)
    && u.disk == (if n == 0 then 0 else req.disk) && u.count == n
    && forall p :: p in u.ports <==> lo <= p < lo + n && (lo > 0 || p < 0)
  }

  /** A worker with room for the request, for n instances and for their ports. */
  ghost predicate Takes(h: Heartbeat, req: Request, n: nat) {
    var w := FromPayload(RowOf(h, 0.0));
    && h.id != "" && Eligible(w, req) && NonNegativeRequest(req) && w.portLo != 0 && n <= w.limit
    && forall i :: 0 <= i < n ==> NthPort(w.portLo, i) <= w.portHi
  }

  lemma NextPort(w: Worker, u: Usage, req: Request, n: nat)
    requires FilledUse(u, w.portLo, req, n) && w.portLo != 0 && NthPort(w.portLo, n) <= w.portHi
    ensures FirstPort(Loaded(w, u), NthPort(w.portLo, n))
  {
  }

  lemma NextUse(u: Usage, lo: int, req: Request, n: nat, inst: Instance)
    requires FilledUse(u, lo, req, n) && lo != 0 && inst.port == NthPort(lo, n)
    requires var r := NthJob(req, n).req; inst.cpu == r.cpu && inst.ram == r.memory && inst.disk == r.disk
    ensures FilledUse(AddTo(u, inst), lo, req, n + 1)
  {
  }

  lemma NextEligible(h: Heartbeat, req: Request, n: nat, u: Usage)
    requires Takes(h, req, n + 1)
    requires FilledUse(u, FromPayload(RowOf(h, 0.0)).portLo, req, n)
    ensures Eligible(Loaded(FromPayload(RowOf(h, 0.0)), u), NthJob(req, n).req)
  {
    var w := FromPayload(RowOf(h, 0.0));
    NextPort(w, u, req, n);
    EligibleRoom(w, req);
    hide FromPayload, Eligible, RowOf;
    StillEligible(w, u, req, NthJob(req, n).req, NthPort(w.portLo, n));
  }

  lemma EligibleRoom(w: Worker, req: Request)
    requires Eligible(w, req) && w.usedCpu == 0.0 && w.usedRam == 0 && w.usedDisk == 0
    ensures w.cpu >= req.cpu && w.ram >= req.memory && w.disk >= req.disk
  {
    hide PlatformWeight, FreePorts;
  }

  lemma FillOne(s: State, h: Heartbeat, req: Request, n: nat) returns (events: seq<Event>, t: State)
    requires Takes(h, req, n + 1) && Filled(s, h, req, n)
    ensures forall e :: e in events ==> !e.Beat? && (e.Begin? ==> NonNegativeRequest(e.job.req))
    ensures t == Run(ALLOCATE, s, events) && Filled(t, h, req, n + 1)
  {
    hide Safe, Run, Eligible, FromPayload, RowOf, FilledUse, UsageOf;
    var w, u := FromPayload(RowOf(h, 0.0)), LoneUse(s.db, h, 0.0);
    var job, port := NthJob(req, n), NthPort(w.portLo, n);
    assert |job.key| == n;
    NextPort(w, u, req, n);
    NextEligible(h, req, n, u);
    events, t := LoneRun(s, h, job, port);
    NothingToStop(ALLOCATE, s.db, job.key, Expired, false, false);
    var row := LoneRow(h, job, port, 0.0);
    assert t.db == Put(s.db, job.key, row);
    assert s.db.Valid() by { SafeIs(s); }
    NewUse(s.db, h, job.key, row, 0.0);
    NextUse(u, w.portLo, req, n, row.inst);
    forall i: nat | i != n ensures NumberedKey(i) != job.key {
      assert |NumberedKey(i)| == i;
    }
  }

  lemma FilledNone(s: State, h: Heartbeat, req: Request)
    requires Safe(s) && s.phase.Idle? && s.stops == [] && s.now == 0.0 && s.db.rows == map[]
    requires Lone(s.db, h) && LoneUse(s.db, h, 0.0) == NO_USAGE
    ensures Filled(s, h, req, 0)
  {
    hide Safe, Lone;
  }

  lemma {:induction false} Fill(h: Heartbeat, req: Request, n: nat) returns (events: seq<Event>)
    requires Takes(h, req, n)
    ensures events != [] && events[0] == Beat(h)
    ensures forall i :: 0 < i < |events| ==> !events[i].Beat? && (events[i].Begin? ==> NonNegativeRequest(events[i].job.req))
    ensures Filled(Run(ALLOCATE, START, events), h, req, n)
  {
    hide Filled, Run, Eligible;
    if n == 0 {
      events := [Beat(h)];
      var s := FirstBeat(h);
      FilledNone(s, h, req);
    } else {
      var before := Fill(h, req, n - 1);
      var next, t := FillOne(Run(ALLOCATE, START, before), h, req, n - 1);
      RunConcat(ALLOCATE, START, before, next);
      events := before + next;
    }
  }

  // ---- port 0 ----

  /** A worker with the ports lo to hi, and room for a number of instances. */
  function PortsHeartbeat(lo: int, hi: int, limit: int): Heartbeat {
    Heartbeat("w", "10.0.0.1", [], 1.0, 100, 100, limit, lo, hi, "ready", true, false, {"linux_containers"}, 0, false)
  }

  const SMALL := Request("multi", 0.0, 0, 0, ["linux_containers"])

  lemma MultiPlatform(w: Worker)
    ensures PlatformWeight(w, "multi") == Some(1.0)
  {
    assert TrimLeft("multi") == "multi";
    assert TrimRight("multi") == "multi";
  }

  lemma PortsTaken(lo: int, hi: int, limit: int)
    requires lo != 0 && hi != 0 && lo <= hi && limit > 0
    ensures Eligible(FromPayload(RowOf(PortsHeartbeat(lo, hi, limit), 0.0)), SMALL)
  {
    var w := FromPayload(RowOf(PortsHeartbeat(lo, hi, limit), 0.0));
    MultiPlatform(w);
    NoPortsLeft(w);
    hide PlatformWeight, FreePorts;
    assert lo !in w.usedPorts;
  }

  /**
   * The condition on ranges is exact: whatever range spans port 0, some run on it alone puts two
   * live instances on port 0.
   */
  lemma PortZeroIsShared(lo: int, hi: int) returns (events: seq<Event>, k: Key, l: Key)
    requires lo < 0 < hi
    ensures forall e :: e in events && e.Beat? ==> e.payload.portStart == lo && e.payload.portEnd == hi
    ensures k != l && var t := Run(ALLOCATE, START, events);
                      && t.db.LiveAt(k, t.now) && t.db.LiveAt(l, t.now)
                      && t.db.rows[k].inst.worker == t.db.rows[l].inst.worker
                      && t.db.rows[k].inst.port == 0 == t.db.rows[l].inst.port
  {
    hide Run, Eligible;
    var h := PortsHeartbeat(lo, hi, -lo + 2);
    PortsTaken(lo, hi, -lo + 2);
    events := Fill(h, SMALL, -lo + 2);
    k, l := NumberedKey(-lo), NumberedKey(-lo + 1);
    assert |k| != |l|;
  }

  // ---- negative requests ----

  /** Fair, or the start of a create with the given request. */
  ghost predicate FairBut(s: State, e: Event, req: Request) {
    Fair(s, e) || (e.Begin? && e.job.req == req)
  }

  ghost predicate FairRunBut(events: seq<Event>, req: Request) {
    forall i :: 0 <= i < |events| ==> FairBut(Run(ALLOCATE, START, events[..i]), events[i], req)
  }

  function AbsReal(x: real): real {
    if x < 0.0 then -x else x
  }

  function Abs(x: int): int {
    if x < 0 then -x else x
  }

  /** A worker that takes the request, whatever it asks for. */
  function WillingHeartbeat(req: Request): Heartbeat {
    Heartbeat("w", "10.0.0.1", [Trim(req.platform)], AbsReal(req.cpu) + 1.0, Abs(req.memory) + 1, Abs(req.disk) + 1,
              2, 1, 2, "ready", true, false, set f | f in req.features, 0, false)
  }

  /** The request for all that the willing worker has left beside the given one. */
  function Rest(req: Request): Request {
    var h := WillingHeartbeat(req);
    req.(cpu := h.cpu - req.cpu, memory := h.ram - req.memory, disk := h.disk - req.disk)
  }

  function WillingJob(key: Key, req: Request): Job {
    Job(key, "net", 3600, req)
  }

  lemma WillingTakes(req: Request)
    ensures Eligible(FromPayload(RowOf(WillingHeartbeat(req), 0.0)), req) && NonNegativeRequest(Rest(req))
  {
    var w := FromPayload(RowOf(WillingHeartbeat(req), 0.0));
    hide Trim;
    NoPortsLeft(w);
    hide FreePorts;
    assert 1 !in w.usedPorts;
  }

  /** After both: the whole capacity is used, on ports 1 and 2. */
  lemma BothTaken(req: Request) returns (events: seq<Event>, t: State)
    ensures events != [] && events[0] == Beat(WillingHeartbeat(req))
    ensures forall i :: 0 < i < |events| ==>
              !events[i].Beat? && (events[i].Begin? ==> events[i].job.req == req || NonNegativeRequest(events[i].job.req))
    ensures t == Run(ALLOCATE, START, events) && Safe(t) && t.stops == [] && t.now == 0.0
    ensures var h := WillingHeartbeat(req);
            Lone(t.db, h) && t.db.order == ["a", "b"] && t.db.rows.Keys == {"a", "b"}
            && t.db.rows["a"] == LoneRow(h, WillingJob("a", req), 1, 0.0)
            && t.db.rows["b"] == LoneRow(h, WillingJob("b", Rest(req)), 2, 0.0)
  {
    hide Safe, Run, Eligible, RowOf, FromPayload, WillingHeartbeat, Rest, UsageOf;
    var h := WillingHeartbeat(req);
    var a, b := WillingJob("a", req), WillingJob("b", Rest(req));
    WillingIs(req);
    WillingTakes(req);
    var s0 := FirstBeat(h);
    var u0 := LoneUse(s0.db, h, 0.0);
    IdleState(h);
    FirstOfTwo(FromPayload(RowOf(h, 0.0)));
    var e1, s1 := LoneRun(s0, h, a, 1);
    NothingToStop(ALLOCATE, s0.db, "a", Expired, false, false);
    assert s0.db.Valid() && s1.db.Valid() by { SafeIs(s0); SafeIs(s1); }
    NewUse(s0.db, h, "a", LoneRow(h, a, 1, 0.0), 0.0);
    RestIsEligible(req, LoneUse(s1.db, h, 0.0));
    var e2, s2 := LoneRun(s1, h, b, 2);
    NothingToStop(ALLOCATE, s1.db, "b", Expired, false, false);
    RunConcat(ALLOCATE, START, [Beat(h)], e1);
    RunConcat(ALLOCATE, START, [Beat(h)] + e1, e2);
    events, t := [Beat(h)] + e1 + e2, s2;
  }

  lemma WillingIs(req: Request)
    ensures WillingHeartbeat(req).id == "w"
  {
  }

  lemma IdleState(h: Heartbeat)
    ensures Loaded(FromPayload(RowOf(h, 0.0)), NO_USAGE) == FromPayload(RowOf(h, 0.0))
  {
  }

  lemma FirstOfTwo(w: Worker)
    requires exists req :: w == FromPayload(RowOf(WillingHeartbeat(req), 0.0))
    ensures FirstPort(w, 1)
  {
  }

  lemma RestIsEligible(req: Request, u: Usage)
    requires u == AddTo(NO_USAGE, LoneRow(WillingHeartbeat(req), WillingJob("a", req), 1, 0.0).inst)
    ensures var w := FromPayload(RowOf(WillingHeartbeat(req), 0.0));
            Eligible(Loaded(w, u), Rest(req)) && FirstPort(Loaded(w, u), 2)
  {
    var w := FromPayload(RowOf(WillingHeartbeat(req), 0.0));
    WillingTakes(req);
    hide Eligible, Trim;
    StillEligible(w, u, req, Rest(req), 2);
  }

  lemma SecondRemains(db: Db, h: Heartbeat, req: Request)
    requires h == WillingHeartbeat(req) && db.order == ["a", "b"] && db.rows.Keys == {"a", "b"}
    requires db.rows["a"] == LoneRow(h, WillingJob("a", req), 1, 0.0)
    requires db.rows["b"] == LoneRow(h, WillingJob("b", Rest(req)), 2, 0.0)
    ensures var after := Put(db, "a", db.rows["a"].(status := Stopped));
            LoneUse(after, h, 0.0) == AddTo(NO_USAGE, db.rows["b"].inst)
  {
    var after := Put(db, "a", db.rows["a"].(status := Stopped));
    assert after.order[..1] == ["a"] && ["a"][..0] == [];
    hide WillingHeartbeat, Rest;
    assert UsageOf(["a"], after.rows, 0.0, h.id) == NO_USAGE;
  }

  lemma FairTail(events: seq<Event>, h: Heartbeat, req: Request)
    requires h.id != "" && events != [] && events[0] == Beat(h)
    requires forall i :: 0 < i < |events| ==>
               !events[i].Beat? && (events[i].Begin? ==> events[i].job.req == req || NonNegativeRequest(events[i].job.req))
    ensures FairRunBut(events, req)
  {
    hide Run;
    assert events[..0] == [];
    RunOfNothing(ALLOCATE, START);
  }

  /**
   * For every request that asks for a negative amount there is a run, fair but for that request,
   * that over-allocates a worker: another instance takes the room the request seems to free, and
   * the record with the request is stopped.
   */
  lemma NegativeRequestOverAllocates(req: Request) returns (events: seq<Event>)
    requires !NonNegativeRequest(req)
    ensures FairRunBut(events, req) && !NoneOver(Run(ALLOCATE, START, events))
  {
    hide Safe, Run, WillingHeartbeat, Rest, UsageOf, FairRunBut;
    var h := WillingHeartbeat(req);
    var before, s := BothTaken(req);
    events := before + [ReadForStop("a", Stopped), WriteStop(0)];
    RunConcat(ALLOCATE, START, before, [ReadForStop("a", Stopped), WriteStop(0)]);
    RunTwo(ALLOCATE, s, ReadForStop("a", Stopped), WriteStop(0));
    WillingIs(req);
    FairTail(events, h, req);
    SecondRemains(s.db, h, req);
    var t := Run(ALLOCATE, START, events);
    assert t.db == Put(s.db, "a", s.db.rows["a"].(status := Stopped));
    assert t.db.workers[0] == RowOf(h, 0.0);
    RestIsTooMuch(req, Load(t, "w"));
    RowId(h, 0.0);
    hide RowOf;
    assert t.db.workers[0].payload.id == "w";
  }

  lemma RestIsTooMuch(req: Request, u: Usage)
    requires !NonNegativeRequest(req)
    requires u == AddTo(NO_USAGE, LoneRow(WillingHeartbeat(req), WillingJob("b", Rest(req)), 2, 0.0).inst)
    ensures u.count > 0 && !Within(u, FromPayload(RowOf(WillingHeartbeat(req), 0.0)))
  {
  }

  /** Runs that are fair but for one request never over-allocate a worker exactly when that request asks
      for no negative amount. */
  lemma CapacityNeedsNonNegative(req: Request)
    ensures (forall events :: FairRunBut(events, req) ==> NoneOver(Run(ALLOCATE, START, events))) <==> NonNegativeRequest(req)
  {
    hide Run, NoneOver;
    if NonNegativeRequest(req) {
      forall events | FairRunBut(events, req) ensures NoneOver(Run(ALLOCATE, START, events)) {
        InitialIsSafe(START);
        StartIsRoomy();
        RunRoomy(ALLOCATE, START, events);
      }
    } else {
      var events := NegativeRequestOverAllocates(req);
    }
  }

  lemma StartIsRoomy()
    ensures Roomy(START)
  {
  }

  // ---- shrinking heartbeats ----

  /** The same worker with as many ports as it may hold instances. */
  function Wide(h: Heartbeat): Heartbeat {
    h.(portStart := 1, portEnd := h.limit)
  }

  /** The request for all that a worker declares. */
  function Everything(h: Heartbeat, req: Request): Request {
    var w := FromPayload(RowOf(h, 0.0));
    req.(cpu := w.cpu, memory := w.ram, disk := w.disk)
  }

  lemma WideTakes(h: Heartbeat, req: Request)
    requires h.id != "" && Eligible(FromPayload(RowOf(h, 0.0)), req) && NonNegativeRequest(req)
    ensures h.limit > 0 && Takes(Wide(h), Everything(h, req), h.limit)
  {
    var w, wide := FromPayload(RowOf(h, 0.0)), FromPayload(RowOf(Wide(h), 0.0));
    SamePlatforms(w, wide, req.platform);
    NoPortsLeft(wide);
    hide PlatformWeight, FreePorts;
    assert 1 !in wide.usedPorts;
  }

  /** A fair run after which the worker, as it was last heard of, carries all that it declares. */
  lemma FullWorker(h: Heartbeat, req: Request) returns (events: seq<Event>)
    requires h.id != "" && Eligible(FromPayload(RowOf(h, 0.0)), req) && NonNegativeRequest(req)
    ensures FairRun(ALLOCATE, START, events)
    ensures var t := Run(ALLOCATE, START, events);
            var w, u := FromPayload(RowOf(h, 0.0)), Load(t, h.id);
            && t.db.workers == [RowOf(h, 0.0)]
            && u.cpu == w.cpu && u.ram == w.ram && u.disk == w.disk && u.count == w.limit > 0
  {
    hide Run, Eligible, UsageOf, Safe;
    WideTakes(h, req);
    var before := Fill(Wide(h), Everything(h, req), h.limit);
    var s := Run(ALLOCATE, START, before);
    events := before + [Beat(h)];
    RunConcat(ALLOCATE, START, before, [Beat(h)]);
    RunOne(ALLOCATE, s, Beat(h));
    forall i | 0 <= i < |events| ensures Fair(Run(ALLOCATE, START, events[..i]), events[i]) {
      if i == 0 {
        assert events[..0] == [];
        RunOfNothing(ALLOCATE, START);
      } else if i == |before| {
        assert events[..i] == before;
      }
    }
  }

  /** Whatever heartbeat declares less of something than an eligible worker's last one over-allocates it
      after some fair run. */
  lemma ShrinkingOverAllocates(h: Heartbeat, g: Heartbeat, req: Request) returns (events: seq<Event>)
    requires g.id == h.id != "" && Eligible(FromPayload(RowOf(h, 0.0)), req) && NonNegativeRequest(req)
    requires !Roomier(FromPayload(RowOf(g, 0.0)), FromPayload(RowOf(h, 0.0)))
    ensures FairRun(ALLOCATE, START, events) && LastSaid(Run(ALLOCATE, START, events), 0, h)
    ensures !NoneOver(Step(ALLOCATE, Run(ALLOCATE, START, events), Beat(g)))
  {
    hide Run, Eligible, UsageOf, FairRun;
    events := FullWorker(h, req);
    var t := Run(ALLOCATE, START, events);
    var after := Step(ALLOCATE, t, Beat(g));
    assert after.db.workers == [RowOf(g, t.now)];
    PayloadDecides(g, t.now, 0.0);
    assert after.db.workers[0].payload.id == h.id && Load(after, h.id) == Load(t, h.id);
  }

  ghost predicate LastSaid(t: State, i: nat, h: Heartbeat) {
    i < |t.db.workers| && t.db.workers[i].payload == h
  }

  lemma PayloadDecides(h: Heartbeat, now: real, later: real)
    ensures var v, w := FromPayload(RowOf(h, now)), FromPayload(RowOf(h, later));
            v.cpu == w.cpu && v.ram == w.ram && v.disk == w.disk && v.limit == w.limit
  {
  }

  lemma RowDecides(row: WorkerRow, now: real)
    ensures var v, w := FromPayload(row), FromPayload(RowOf(row.payload, now));
            v.cpu == w.cpu && v.ram == w.ram && v.disk == w.disk && v.limit == w.limit
  {
  }

  lemma RoomierIsFair(t: State, i: nat, h: Heartbeat, g: Heartbeat)
    requires t.db.Valid() && LastSaid(t, i, h) && g.id == h.id
    requires Roomier(FromPayload(RowOf(g, 0.0)), FromPayload(RowOf(h, 0.0)))
    ensures Fair(t, Beat(g))
  {
    hide FromPayload, RowOf;
    PayloadDecides(g, t.now, 0.0);
    RowDecides(t.db.workers[i], 0.0);
    forall j | 0 <= j < |t.db.workers| && t.db.workers[j].payload.id == g.id ensures j == i {
      OneRowEach(t.db, i, j);
    }
  }

  lemma OneRowEach(db: Db, i: int, j: int)
    requires db.Valid() && 0 <= i < |db.workers| && 0 <= j < |db.workers|
    requires db.workers[i].payload.id == db.workers[j].payload.id
    ensures i == j
  {
  }

  /**
   * After fair runs that leave a worker with what it last declared, its next heartbeat never
   * over-allocates any worker exactly when it declares no less cpu, ram, disk and instances.
   */
  lemma CapacityNeedsRoomierHeartbeats(h: Heartbeat, g: Heartbeat, req: Request)
    requires g.id == h.id != "" && Eligible(FromPayload(RowOf(h, 0.0)), req) && NonNegativeRequest(req)
    ensures (forall events, i: nat ::
               FairRun(ALLOCATE, START, events) && LastSaid(Run(ALLOCATE, START, events), i, h)
               ==> NoneOver(Step(ALLOCATE, Run(ALLOCATE, START, events), Beat(g))))
            <==> Roomier(FromPayload(RowOf(g, 0.0)), FromPayload(RowOf(h, 0.0)))
  {
    hide Run, NoneOver, Eligible, FromPayload, FairRun, Step, Roomy, Safe;
    if Roomier(FromPayload(RowOf(g, 0.0)), FromPayload(RowOf(h, 0.0))) {
      forall events, i: nat | FairRun(ALLOCATE, START, events) && LastSaid(Run(ALLOCATE, START, events), i, h)
        ensures NoneOver(Step(ALLOCATE, Run(ALLOCATE, START, events), Beat(g)))
      {
        var t := Run(ALLOCATE, START, events);
        InitialIsSafe(START);
        StartIsRoomy();
        RunKeeps(ALLOCATE, START, events);
        RunRoomy(ALLOCATE, START, events);
        assert t.db.Valid() by { SafeIs(t); }
        RoomierIsFair(t, i, h, g);
        StepRoomy(ALLOCATE, t, Beat(g));
        RoomyIs(Step(ALLOCATE, t, Beat(g)));
      }
    } else {
      var events := ShrinkingOverAllocates(h, g, req);
    }
  }

  lemma RoomyIs(s: State)
    ensures Roomy(s) <==> LivePlaced(s) && NoneOver(s) && PhaseHasRoom(s)
  {
  }

  // ---- a conflict for a live record ----

  /** A record that fills its worker: the retry of its create gets a conflict instead of the record. */
  lemma RetryGetsConflict() returns (events: seq<Event>, job: Job)
    ensures var t := Run(ALLOCATE, START, events);
            var retried := Run(ALLOCATE, t, CreateEvents(ALLOCATE, t, At(t.now), job, false, true));
            && t.db.LiveAt(job.key, t.now) && t.outcome == Created(t.db.rows[job.key])
            && retried.db == t.db && retried.outcome == Conflict
  {
    hide Run, Eligible, Safe, UsageOf, Create, Choose, WorkerStates, StopEffect, StopOutcome;
    var h := PortsHeartbeat(1, 5, 1);
    job := Job("a", "net", 3600, SMALL);
    PortsTaken(1, 5, 1);
    IdleState(h);
    var s := FirstBeat(h);
    NextPort(FromPayload(RowOf(h, 0.0)), NO_USAGE, SMALL, 0);
    var next, t := LoneRun(s, h, job, 1);
    events := [Beat(h)] + next;
    RunConcat(ALLOCATE, START, [Beat(h)], next);
    NothingToStop(ALLOCATE, s.db, "a", Expired, false, false);
    assert s.db.Valid() by { SafeIs(s); }
    NewUse(s.db, h, "a", LoneRow(h, job, 1, 0.0), 0.0);
    CreateAlone(ALLOCATE, t, At(t.now), job, false, true);
    FullRefuses(t.db, h, job, 0.0);
  }

  lemma FullRefuses(db: Db, h: Heartbeat, job: Job, now: real)
    requires Lone(db, h) && 0.0 <= now <= 90.0 && LoneUse(db, h, now).count >= h.limit
    ensures Create(ALLOCATE, db, At(now), job, false, true) == (db, Conflict)
  {
    var w := LoneState(db, h, now);
    LoneChoices(db, h, job.network, now);
    hide WorkerStates, Choices, LoneUse, Rejections;
    assert !Eligible(w, job.req) by { hide FreePorts, PlatformWeight; }
    EligibleUnrejected(w, job.req);
    hide Eligible, LoneState, Select, StopEffect, RowOf, FromPayload;
    var i := SelectsFirstBest([w], job.req);
    assert forall v :: v in [w] ==> v == w;
  }

  // ---- a stale stop ----

  function ShortJob(key: Key): Job {
    Job(key, "net", 10, SMALL)
  }

  /** A stop reads a record; the record expires and is created again; the stop's write then ends the
      fresh record before its time. */
  lemma StaleStopEndsFreshRecord() returns (events: seq<Event>, key: Key)
    ensures var t := Run(ALLOCATE, START, events);
            var after := Step(ALLOCATE, t, WriteStop(0));
            && t.db.LiveAt(key, t.now) && t.outcome == Created(t.db.rows[key])
            && key in after.db.rows && after.db.rows[key] == t.db.rows[key].(status := Stopped)
            && after.now == 11.0 < after.db.rows[key].expires == 21.0
  {
    hide Run, Eligible, Safe, UsageOf, Create, Choose, WorkerStates, StopOutcome;
    var h := PortsHeartbeat(1, 5, 10);
    var job := ShortJob("a");
    key := "a";
    PortsTaken(1, 5, 10);
    IdleState(h);
    NextPort(FromPayload(RowOf(h, 0.0)), NO_USAGE, SMALL, 0);
    var s := FirstBeat(h);
    var first, s1 := LoneRun(s, h, job, 1);
    NothingToStop(ALLOCATE, s.db, "a", Expired, false, false);
    var row := LoneRow(h, job, 1, 0.0);
    assert s1.db.rows["a"] == row && row.expires == 10.0;
    var between := [ReadForStop("a", Stopped), Tick(11.0)];
    RunTwo(ALLOCATE, s1, ReadForStop("a", Stopped), Tick(11.0));
    var s2 := Run(ALLOCATE, s1, between);
    RunKeeps(ALLOCATE, s1, between);
    assert s2 == s1.(now := 11.0, stops := [OpenStop("a", row.inst, Stopped)]);
    ExpiredUse(s1.db, h, row, 11.0);
    var second, t := LoneRun(s2, h, job, 1);
    RunConcat(ALLOCATE, START, [Beat(h)], first);
    RunConcat(ALLOCATE, START, [Beat(h)] + first, between);
    RunConcat(ALLOCATE, START, [Beat(h)] + first + between, second);
    events := [Beat(h)] + first + between + second;
    hide StopEffect;
    assert t.db.rows["a"] == LoneRow(h, job, 1, 11.0);
  }

  /** An expired record counts for nothing. */
  lemma ExpiredUse(db: Db, h: Heartbeat, row: Row, now: real)
    requires db.order == ["a"] && "a" in db.rows && db.rows["a"] == row && PastExpiry(row, now)
    ensures LoneUse(db, h, now) == NO_USAGE
  {
    assert db.order[..|db.order| - 1] == [];
    UsageUnfold(db.order, db.rows, now, h.id);
  }
}
