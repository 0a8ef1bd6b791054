/** The operations of the instance manager on its store: usage, creation, stopping and expiry. */
module InstanceManager {
  import opened Basics
  import opened Scheduler
  import opened InstanceStore

  /** Deploying through workers or only allocating, and the age in seconds past which a heartbeat is stale. */
  datatype Config = Config(deploy: bool, stale: int)

  // ---- usage ----

  datatype Usage = Usage(cpu: real, ram: int, disk: int, count: int, ports: set<int>)

  const NO_USAGE := Usage(0.0, 0, 0, 0, {})

  predicate Counts(rows: map<Key, Row>, k: Key, now: real, worker: string) {
    k in rows && Live(rows[k], now) && rows[k].inst.worker == worker
  }

  function AddTo(u: Usage, inst: Instance): Usage {
    Usage(u.cpu + inst.cpu, u.ram + inst.ram, u.disk + inst.disk, u.count + 1,
          if inst.port != 0 then u.ports + {inst.port} else u.ports)
  }

  /** What the live instances of one worker use together. */
  function UsageOf(order: seq<Key>, rows: map<Key, Row>, now: real, worker: string): Usage {
    if order == [] then NO_USAGE
    else
      var k := order[|order| - 1];
      var before := UsageOf(order[..|order| - 1], rows, now, worker);
      if Counts(rows, k, now, worker) then AddTo(before, rows[k].inst) else before
  }

  /** The recorded ports are the non-zero ports of live instances: port 0 is never recorded. */
  lemma {:induction false} UsedPortsAre(order: seq<Key>, rows: map<Key, Row>, now: real, worker: string, port: int)
    ensures port in UsageOf(order, rows, now, worker).ports
            <==> port != 0 && exists k :: k in order && Counts(rows, k, now, worker) && rows[k].inst.port == port
  {
    if order != [] {
      var n := |order| - 1;
      UsedPortsAre(order[..n], rows, now, worker, port);
      assert order == order[..n] + [order[n]];
    }
  }

  /** A record adds its request, one to the count and its port, but no port 0, exactly when it is running,
      not past its expiry and on the worker. */
  lemma UsageCounts(order: seq<Key>, rows: map<Key, Row>, now: real, worker: string, k: Key)
    ensures UsageOf([], rows, now, worker) == Usage(0.0, 0, 0, 0, {})
    ensures var u := UsageOf(order, rows, now, worker);
            UsageOf(order + [k], rows, now, worker) ==
            if k in rows && rows[k].status in {Allocated, Deployed} && (rows[k].expires == 0.0 || now < rows[k].expires)
               && rows[k].inst.worker == worker
            then var inst := rows[k].inst;
                 Usage(u.cpu + inst.cpu, u.ram + inst.ram, u.disk + inst.disk, u.count + 1, u.ports + ({inst.port} - {0}))
            else u
  {
    assert (order + [k])[..|order|] == order;
    if k in rows {
      RunningIsNotTerminal(rows[k].status);
    }
  }

  lemma RunningIsNotTerminal(s: Status)
    ensures s in {Allocated, Deployed} <==> !Terminal(s)
  {
    match s
    case Allocated =>
    case Deployed =>
    case Stopped =>
    case Deleted =>
    case Failed =>
    case Expired =>
  }

  function Loaded(w: Worker, u: Usage): Worker {
    w.(usedCpu := u.cpu, usedRam := u.ram, usedDisk := u.disk, count := u.count, usedPorts := u.ports)
  }

  function Recent(workers: seq<WorkerRow>, now: real, stale: int): seq<WorkerRow> {
    if workers == [] then []
    else
      var last := workers[|workers| - 1];
      Recent(workers[..|workers| - 1], now, stale) + (if now - last.seen > stale as real then [] else [last])
  }

  lemma {:induction false} RecentAre(workers: seq<WorkerRow>, now: real, stale: int)
    ensures forall row :: row in Recent(workers, now, stale) <==> row in workers && now - row.seen <= stale as real
  {
    if workers != [] {
      var n := |workers| - 1;
      RecentAre(workers[..n], now, stale);
      assert workers == workers[..n] + [workers[n]];
    }
  }

  function StatesOf(recent: seq<WorkerRow>, db: Db, now: real): (states: seq<Worker>)
    ensures |states| == |recent|
    ensures forall i :: 0 <= i < |states| ==>
              states[i] == Loaded(FromPayload(recent[i]), UsageOf(db.order, db.rows, now, recent[i].payload.id))
  {
    seq(|recent|, i requires 0 <= i < |recent| =>
      Loaded(FromPayload(recent[i]), UsageOf(db.order, db.rows, now, recent[i].payload.id)))
  }

  function WorkerStates(db: Db, now: real, stale: int): seq<Worker> {
    StatesOf(Recent(db.workers, now, stale), db, now)
  }

  /** What a snapshot shows of each recent worker: its last heartbeat and what its records use. */
  lemma SnapshotShows(db: Db, now: real, stale: int, i: nat)
    requires i < |WorkerStates(db, now, stale)|
    ensures i < |Recent(db.workers, now, stale)|
    ensures var w, row := WorkerStates(db, now, stale)[i], Recent(db.workers, now, stale)[i];
            var h, u := row.payload, UsageOf(db.order, db.rows, now, row.payload.id);
            && (w.id, w.ip, w.platforms, w.features, w.failures) == (h.id, h.ip, h.platforms, h.features, h.failures)
            && (w.status, w.draining) == (row.status, h.draining)
            && (w.ram, w.disk, w.limit) == (h.ram, h.disk, h.limit) && w.cpu == (if h.cpu == 0.0 then 1.0 else h.cpu)
            && w.portLo == (if h.portStart == 0 then 20000 else h.portStart)
            && w.portHi == (if h.portEnd == 0 then 20999 else h.portEnd)
            && (w.usedCpu, w.usedRam, w.usedDisk, w.count, w.usedPorts) == (u.cpu, u.ram, u.disk, u.count, u.ports)
  {
    hide UsageOf, Recent;
  }

  // ---- stopping ----

  /** A worker delete can only raise when a worker runs the container and its agent has an address. */
  predicate DeleteRaises(c: Config, db: Db, inst: Instance, unreachable: bool) {
    c.deploy && inst.network.Some? && db.HasAgent(inst.worker) && unreachable
  }

  datatype StopResult = NotFound | AlreadyTerminal(status: Status) | WorkerFailed | Ended(status: Status)

  predicate Success(r: StopResult) {
    r.AlreadyTerminal? || r.Ended?
  }

  function StopOutcome(c: Config, db: Db, key: Key, final: Status, force: bool, unreachable: bool): StopResult {
    if key !in db.rows then NotFound
    else if Terminal(db.rows[key].status) then AlreadyTerminal(db.rows[key].status)
    else if DeleteRaises(c, db, db.rows[key].inst, unreachable) && !force then WorkerFailed
    else Ended(final)
  }

  function StopEffect(c: Config, db: Db, key: Key, final: Status, force: bool, unreachable: bool): Db {
    if StopOutcome(c, db, key, final, force, unreachable).Ended?
    then Put(db, key, db.rows[key].(status := final))
    else db
  }

  /** When a stop ends in each answer, and the table it leaves. */
  lemma StopDecides(c: Config, db: Db, key: Key, final: Status, force: bool, unreachable: bool)
    ensures var r := StopOutcome(c, db, key, final, force, unreachable);
            var running := key in db.rows && db.rows[key].status in {Allocated, Deployed};
            && (r == NotFound <==> key !in db.rows)
            && (r.AlreadyTerminal? <==> key in db.rows && !running)
            && (r.AlreadyTerminal? ==> r.status == db.rows[key].status)
            && (r == WorkerFailed <==>
                && running && c.deploy && db.rows[key].inst.network.Some? && unreachable && !force
                && exists i :: 0 <= i < |db.workers| && db.workers[i].payload.id == db.rows[key].inst.worker
                               && db.workers[i].payload.agent)
            && (r.Ended? ==> r.status == final)
            && StopEffect(c, db, key, final, force, unreachable) ==
               if r.Ended? then db.(rows := db.rows[key := db.rows[key].(status := final)]) else db
  {
    if key in db.rows {
      RunningIsNotTerminal(db.rows[key].status);
    }
  }

  lemma NothingToStop(c: Config, db: Db, key: Key, final: Status, force: bool, unreachable: bool)
    requires key !in db.rows || Terminal(db.rows[key].status)
    ensures StopEffect(c, db, key, final, force, unreachable) == db
  {
  }

  // ---- passes over all records ----

  /** The reaper's choice: not terminal, and an expiry that has come. */
  predicate Due(row: Row, now: real) {
    !Terminal(row.status) && PastExpiry(row, now)
  }

  predicate Overdue(row: Row, now: real) {
    now - row.expires > 300.0
  }

  /** Whether a pass of the reaper ends the record. */
  predicate Reaps(c: Config, db: Db, key: Key, now: real, unreachable: set<Key>) {
    && key in db.rows && Due(db.rows[key], now)
    && (DeleteRaises(c, db, db.rows[key].inst, key in unreachable) ==> Overdue(db.rows[key], now))
  }

  predicate Stops(c: Config, db: Db, key: Key, force: bool, unreachable: set<Key>) {
    && key in db.rows && !Terminal(db.rows[key].status)
    && (DeleteRaises(c, db, db.rows[key].inst, key in unreachable) ==> force)
  }

  /** The database with the given records ended and all else as it was. */
  function EndAll(db: Db, keys: set<Key>, final: Status): Db {
    db.(rows := map k | k in db.rows :: if k in keys then db.rows[k].(status := final) else db.rows[k])
  }

  function ReapedKeys(c: Config, db: Db, now: real, unreachable: set<Key>): set<Key> {
    set k | k in db.rows && Reaps(c, db, k, now, unreachable)
  }

  function StoppedKeys(c: Config, db: Db, force: bool, unreachable: set<Key>): set<Key> {
    set k | k in db.rows && Stops(c, db, k, force, unreachable)
  }

  /** After a pass no record is due, but one whose worker delete raised at most 300 seconds past its expiry. */
  lemma ReaperBound(c: Config, db: Db, now: real, unreachable: set<Key>, key: Key)
    requires key in db.rows
    ensures var after := EndAll(db, ReapedKeys(c, db, now, unreachable), Expired);
            && (Due(after.rows[key], now) <==>
                Due(db.rows[key], now) && now - db.rows[key].expires <= 300.0
                && DeleteRaises(c, db, db.rows[key].inst, key in unreachable))
            && (!Due(db.rows[key], now) ==> after.rows[key] == db.rows[key])
            && after.rows[key].inst == db.rows[key].inst && after.rows[key].expires == db.rows[key].expires
  {
  }

  /** However often worker deletes raise, a pass more than 300 seconds after the expiry ends the record. */
  lemma ReapedInTheEnd(c: Config, db: Db, now: real, unreachable: set<Key>, key: Key)
    requires key in db.rows && db.rows[key].expires != 0.0 && now > db.rows[key].expires + 300.0
    ensures Terminal(EndAll(db, ReapedKeys(c, db, now, unreachable), Expired).rows[key].status)
  {
    ReaperBound(c, db, now, unreachable, key);
  }

  /** Which records a pass over all of them ends.  The reaper takes those whose expiry has come, and even
      when the worker's delete raises once 300 seconds have gone by since; an administrator takes all that
      are running, by force also when the delete raises.  All others stay as they are. */
  lemma PassesDecide(c: Config, db: Db, now: real, force: bool, unreachable: set<Key>, key: Key)
    requires key in db.rows
    ensures var row := db.rows[key];
            var running := row.status in {Allocated, Deployed};
            var raises := && c.deploy && row.inst.network.Some? && key in unreachable
                          && exists i :: 0 <= i < |db.workers| && db.workers[i].payload.id == row.inst.worker
                                         && db.workers[i].payload.agent;
            && EndAll(db, ReapedKeys(c, db, now, unreachable), Expired).rows[key] ==
               (if running && row.expires != 0.0 && row.expires <= now && (raises ==> now - row.expires > 300.0)
                then row.(status := Expired) else row)
            && EndAll(db, StoppedKeys(c, db, force, unreachable), Stopped).rows[key] ==
               (if running && (raises ==> force) then row.(status := Stopped) else row)
  {
    RunningIsNotTerminal(db.rows[key].status);
  }

  lemma NothingEnded(db: Db, final: Status)
    ensures EndAll(db, {}, final) == db
  {
    assert EndAll(db, {}, final).rows == db.rows;
  }

  /** Stopping one more record of a pass, which no earlier step of the pass touched. */
  lemma EndOne(c: Config, db: Db, ended: set<Key>, key: Key, final: Status, force: bool, unreachable: bool)
    requires db.Valid() && key in db.rows && key !in ended && !Terminal(db.rows[key].status)
    ensures var now := EndAll(db, ended, final);
            var stopped := DeleteRaises(c, db, db.rows[key].inst, unreachable) ==> force;
            && now.Valid()
            && (Success(StopOutcome(c, now, key, final, force, unreachable)) <==> stopped)
            && StopEffect(c, now, key, final, force, unreachable) == EndAll(db, if stopped then ended + {key} else ended, final)
  {
    var now := EndAll(db, ended, final);
    assert now.HasAgent(db.rows[key].inst.worker) == db.HasAgent(db.rows[key].inst.worker);
    assert Put(now, key, now.rows[key].(status := final)).rows == EndAll(db, ended + {key}, final).rows;
  }

  /** The first records of the order have been gone through, and those picked among them ended. */
  ghost predicate PassedUpTo(order: seq<Key>, i: nat, picked: set<Key>, ended: set<Key>) {
    i <= |order| && forall k :: k in ended <==> k in order[..i] && k in picked
  }

  lemma PassBegins(db: Db, picked: set<Key>)
    ensures PassedUpTo(db.order, 0, picked, {})
  {
  }

  lemma PassGoesOn(db: Db, i: nat, picked: set<Key>, ended: set<Key>)
    requires db.Valid() && i < |db.order| && PassedUpTo(db.order, i, picked, ended)
    ensures db.order[i] in db.rows && db.order[i] !in ended
    ensures PassedUpTo(db.order, i + 1, picked, if db.order[i] in picked then ended + {db.order[i]} else ended)
  {
    assert db.order[..i + 1] == db.order[..i] + [db.order[i]];
  }

  lemma PassEnds(db: Db, picked: set<Key>, ended: set<Key>)
    requires db.Valid() && picked <= db.rows.Keys && PassedUpTo(db.order, |db.order|, picked, ended)
    ensures ended == picked
  {
  }

  // ---- creation ----

  /** A create request: its key (given, or drawn at random), the network it joins and its time to live. */
  datatype Job = Job(key: Key, network: string, ttl: int, req: Request)

  /** The worker of the first live record on the network. */
  function Colocated(order: seq<Key>, rows: map<Key, Row>, network: string, now: real): Option<string> {
    if order == [] then None
    else if order[0] in rows && rows[order[0]].inst.network == Some(network) && Live(rows[order[0]], now) then
      Some(rows[order[0]].inst.worker)
    else Colocated(order[1..], rows, network, now)
  }

  function OnlyWorker(states: seq<Worker>, id: string): (r: seq<Worker>)
    ensures forall w :: w in r <==> w in states && w.id == id
  {
    if states == [] then []
    else
      assert states == [states[0]] + states[1..];
      (if states[0].id == id then [states[0]] else []) + OnlyWorker(states[1..], id)
  }

  /** The workers left to choose from: all, or the one that holds the network. */
  function Choices(db: Db, states: seq<Worker>, network: string, now: real): seq<Worker> {
    var held := Colocated(db.order, db.rows, network, now);
    if held.Some? && held.value != "" then OnlyWorker(states, held.value) else states
  }

  datatype Outcome =
    | Pending
    | Conflict
    | Existing(row: Row)
    | NoAgent
    | DeployFailed
    | Created(row: Row)

  function NewRow(c: Config, job: Job, p: Placement, expires: real): Row {
    Row(Instance(p.workerId, p.port, if c.deploy then Some(job.network) else None, job.req.cpu, job.req.memory, job.req.disk),
        if c.deploy then Deployed else Allocated, expires)
  }

  /** The worker and port for a job: none when every worker left to choose from is rejected. */
  function Choose(db: Db, states: seq<Worker>, job: Job, now: real): Option<Placement> {
    Select(Choices(db, states, job.network, now), job.req)
  }

  /** The second half of a create: the worker's answer decides, and only success writes. */
  function Deploy(c: Config, db: Db, job: Job, p: Placement, expires: real, deployed: bool): (Db, Outcome) {
    if c.deploy && !db.HasAgent(p.workerId) then (db, NoAgent)
    else if c.deploy && !deployed then (db, DeployFailed)
    else
      var row := NewRow(c, job, p, expires);
      (Put(db, job.key, row), Created(row))
  }

  /** The clock as a create reads it: for the snapshot, for the network, at the look-up and for the expiry. */
  datatype Clock = Clock(snapshot: real, network: real, lookUp: real, expiry: real) {
    predicate Runs() {
      snapshot <= network <= lookUp <= expiry
    }
  }

  /** A create alone. */
  function Create(c: Config, db: Db, clock: Clock, job: Job, unreachable: bool, deployed: bool): (Db, Outcome) {
    var choice := Choose(db, WorkerStates(db, clock.snapshot, c.stale), job, clock.network);
    if choice.None? then (db, Conflict)
    else if db.LiveAt(job.key, clock.lookUp) then (db, Existing(db.rows[job.key]))
    else
      Deploy(c, StopEffect(c, db, job.key, Expired, false, unreachable), job, choice.value,
             clock.expiry + job.ttl as real, deployed)
  }

  /** When a create ends in each answer, for the worker and port chosen.  A worker without an agent
      gives no instance, and one that does not answer none either; an instance that is deployed is on its
      network, one that is only allocated on none. */
  lemma CreateDecides(c: Config, db: Db, clock: Clock, job: Job, unreachable: bool, deployed: bool)
    ensures var choice := Choose(db, WorkerStates(db, clock.snapshot, c.stale), job, clock.network);
            var outcome := Create(c, db, clock, job, unreachable, deployed).1;
            var live := && job.key in db.rows && db.rows[job.key].status in {Allocated, Deployed}
                        && (db.rows[job.key].expires == 0.0 || clock.lookUp < db.rows[job.key].expires);
            && (choice.None? <==> outcome == Conflict)
            && (choice.Some? && live <==> outcome.Existing?)
            && (outcome.Existing? ==> outcome.row == db.rows[job.key])
            && (choice.Some? && !live ==>
                  var agent := exists i :: 0 <= i < |db.workers| && db.workers[i].payload.id == choice.value.workerId
                                           && db.workers[i].payload.agent;
                  && (outcome == NoAgent <==> c.deploy && !agent)
                  && (outcome == DeployFailed <==> c.deploy && agent && !deployed)
                  && (outcome.Created? <==> !c.deploy || (agent && deployed))
                  && (outcome.Created? ==>
                        outcome.row == Row(Instance(choice.value.workerId, choice.value.port,
                                                    if c.deploy then Some(job.network) else None,
                                                    job.req.cpu, job.req.memory, job.req.disk),
                                           if c.deploy then Deployed else Allocated, clock.expiry + job.ttl as real)))
  {
    hide Choose, WorkerStates, StopOutcome;
    if job.key in db.rows {
      RunningIsNotTerminal(db.rows[job.key].status);
    }
    assert StopEffect(c, db, job.key, Expired, false, unreachable).workers == db.workers;
  }

  /** The table after a create: only success writes the new record, and a record of the key that is past
      its expiry is ended whatever comes of the create, unless its worker's delete raises. */
  lemma CreateWrites(c: Config, db: Db, clock: Clock, job: Job, unreachable: bool, deployed: bool)
    ensures var choice := Choose(db, WorkerStates(db, clock.snapshot, c.stale), job, clock.network);
            var (after, outcome) := Create(c, db, clock, job, unreachable, deployed);
            && after.workers == db.workers
            && after.order == (if outcome.Created? && job.key !in db.rows then db.order + [job.key] else db.order)
            && (outcome.Created? ==> after.rows == db.rows[job.key := outcome.row])
            && (!outcome.Created? ==>
                  var ended := && choice.Some? && job.key in db.rows && db.rows[job.key].status in {Allocated, Deployed}
                               && db.rows[job.key].expires != 0.0 && db.rows[job.key].expires <= clock.lookUp
                               && !(c.deploy && db.rows[job.key].inst.network.Some? && unreachable
                                    && exists i :: 0 <= i < |db.workers| && db.workers[i].payload.agent
                                                   && db.workers[i].payload.id == db.rows[job.key].inst.worker);
                  after.rows == if ended then db.rows[job.key := db.rows[job.key].(status := Expired)] else db.rows)
  {
    hide Choose, WorkerStates, StopOutcome, StopEffect;
    StopDecides(c, db, job.key, Expired, false, unreachable);
  }

  /** A create that names a live record changes nothing, and returns that record exactly when some
      worker is eligible. */
  lemma CreateIsIdempotent(c: Config, db: Db, clock: Clock, job: Job, unreachable: bool, deployed: bool)
    requires db.LiveAt(job.key, clock.lookUp)
    ensures var (after, outcome) := Create(c, db, clock, job, unreachable, deployed);
            var choices := Choices(db, WorkerStates(db, clock.snapshot, c.stale), job.network, clock.network);
            && after == db
            && outcome == (if forall w :: w in choices ==> Rejections(w, job.req) != [] then Conflict
                           else Existing(db.rows[job.key]))
  {
    hide Select, WorkerStates, Choices, Rejections;
    var i := SelectsFirstBest(Choices(db, WorkerStates(db, clock.snapshot, c.stale), job.network, clock.network), job.req);
  }

  /** While the record a create made is live, repeating the create changes nothing and gives that
      record or a conflict. */
  lemma RetryGivesRecord(c: Config, db: Db, clock: Clock, later: Clock, job: Job, deployed: bool, again: bool, unreachable: bool)
    requires Create(c, db, clock, job, unreachable, deployed).1.Created?
    requires later.lookUp < clock.expiry + job.ttl as real
    ensures var (after, outcome) := Create(c, db, clock, job, unreachable, deployed);
            var retry := Create(c, after, later, job, unreachable, again);
            && after.rows[job.key] == outcome.row
            && retry.0 == after && (retry.1 == Conflict || retry.1 == Existing(outcome.row))
  {
    hide Choose, WorkerStates, StopEffect;
    var (after, outcome) := Create(c, db, clock, job, unreachable, deployed);
    assert after.LiveAt(job.key, later.lookUp);
  }

  // ---- a single worker ----

  /** What a heartbeat must declare for its worker to serve a request with nothing running: an absent
      status stands for that of its Docker, and a zero for the default. */
  ghost predicate Serves(h: Heartbeat, req: Request) {
    var p := Trim(req.platform);
    && (h.status == "ready" || (h.status == "" && h.dockerAvailable)) && !h.draining
    && (p == "" || p == "multi" || p in h.platforms || p + "-emulated" in h.platforms)
    && (forall f :: f in req.features ==> f in h.features)
    && req.cpu <= (if h.cpu == 0.0 then 1.0 else h.cpu) && req.memory <= h.ram && req.disk <= h.disk && 0 < h.limit
    && LowestPort(h) <= (if h.portEnd == 0 then 20999 else h.portEnd)
  }

  function LowestPort(h: Heartbeat): int {
    if h.portStart == 0 then 20000 else h.portStart
  }

  lemma AloneEligible(h: Heartbeat, seen: real, req: Request)
    ensures Eligible(FromPayload(RowOf(h, seen)), req) <==> Serves(h, req)
    ensures Serves(h, req) ==> FromPayload(RowOf(h, seen)).AvailablePorts()[0] == LowestPort(h)
  {
    hide Trim, FreePorts;
    var w := FromPayload(RowOf(h, seen));
    NoPortsLeft(w);
    if Serves(h, req) {
      assert w.portLo !in w.usedPorts;
      SmallestPort(w);
    }
  }

  lemma AloneChoices(db: Db, h: Heartbeat, seen: real, network: string, clock: Clock, stale: int)
    requires db == Db([RowOf(h, seen)], [], map[])
    ensures Choices(db, WorkerStates(db, clock.snapshot, stale), network, clock.network) ==
            if clock.snapshot - seen > stale as real then [] else [FromPayload(RowOf(h, seen))]
  {
    hide FromPayload, RowOf;
    var row := RowOf(h, seen);
    assert [row][..0] == [];
    assert Recent([row], clock.snapshot, stale) == if clock.snapshot - seen > stale as real then [] else [row] by {
      RowSeen(h, seen);
    }
    NoLoad(row);
  }

  lemma RowSeen(h: Heartbeat, seen: real)
    ensures RowOf(h, seen).seen == seen
  {
  }

  /** A create on an empty table with one worker: the worker serves it exactly when its heartbeat is not
      stale and declares what the request needs, and then on the first port of its range. */
  lemma SingleWorkerServes(c: Config, h: Heartbeat, seen: real, clock: Clock, job: Job, unreachable: bool, deployed: bool)
    ensures var outcome := Create(c, Db([RowOf(h, seen)], [], map[]), clock, job, unreachable, deployed).1;
            outcome == if clock.snapshot - seen > c.stale as real || !Serves(h, job.req) then Conflict
                       else if c.deploy && !h.agent then NoAgent
                       else if c.deploy && !deployed then DeployFailed
                       else Created(Row(Instance(h.id, LowestPort(h), if c.deploy then Some(job.network) else None,
                                                 job.req.cpu, job.req.memory, job.req.disk),
                                        if c.deploy then Deployed else Allocated, clock.expiry + job.ttl as real))
  {
    var db := Db([RowOf(h, seen)], [], map[]);
    AloneChoices(db, h, seen, job.network, clock, c.stale);
    AloneEligible(h, seen, job.req);
    CreateDecides(c, db, clock, job, unreachable, deployed);
    var w := FromPayload(RowOf(h, seen));
    assert w.id == h.id && db.workers[0].payload == h;
    OneOrNone(w, job.req);
    hide Serves, Eligible, FromPayload, RowOf, Select, LowestPort, WorkerStates, Choices, Create;
  }

  /** The choice from one worker, or from none. */
  lemma OneOrNone(w: Worker, req: Request)
    ensures Select([], req) == None
    ensures Select([w], req).Some? <==> Eligible(w, req)
    ensures Eligible(w, req) ==>
              w.AvailablePorts() != [] && Select([w], req).value.workerId == w.id
              && Select([w], req).value.port == w.AvailablePorts()[0]
  {
    hide Score, FreePorts, Round4;
    assert [w][..0] == [];
    assert Candidates([w], req) == Candidates([], req) + (if Eligible(w, req) then [Candidate(Score(w, req), w)] else []);
  }

  // ---- the operations ----

  lemma NoLoad(row: WorkerRow)
    ensures FromPayload(row) == Loaded(FromPayload(row), NO_USAGE)
  {
  }

  /** A worker is listed once, so no earlier recent row is of the same worker. */
  lemma RecentBefore(db: Db, now: real, stale: int, i: nat)
    requires db.Valid() && i < |db.workers|
    ensures var before := Recent(db.workers[..i], now, stale);
            forall k :: 0 <= k < |before| ==> before[k].payload.id != db.workers[i].payload.id
  {
    RecentAre(db.workers[..i], now, stale);
    var before := Recent(db.workers[..i], now, stale);
    forall k | 0 <= k < |before| ensures before[k].payload.id != db.workers[i].payload.id {
      assert before[k] in before;
    }
  }

  /** Each worker's entry is its empty state with the usage of the records counted so far. */
  ghost predicate UsagesAre(workers: map<string, Worker>, empty: map<string, Worker>, counted: seq<Key>, rows: map<Key, Row>, now: real) {
    && workers.Keys == empty.Keys
    && forall id :: id in empty ==> workers[id] == Loaded(empty[id], UsageOf(counted, rows, now, id))
  }

  ghost predicate EmptyStates(recent: seq<WorkerRow>, empty: map<string, Worker>) {
    && (forall i :: 0 <= i < |recent| ==> recent[i].payload.id in empty && empty[recent[i].payload.id] == FromPayload(recent[i]))
    && (forall id :: id in empty ==> empty[id] == Loaded(empty[id], NO_USAGE))
  }

  lemma NothingCounted(empty: map<string, Worker>, recent: seq<WorkerRow>, rows: map<Key, Row>, now: real)
    requires EmptyStates(recent, empty)
    ensures UsagesAre(empty, empty, [], rows, now)
  {
  }

  function CountRow(workers: map<string, Worker>, row: Row, now: real): map<string, Worker> {
    if Live(row, now) && row.inst.worker in workers then
      var w := workers[row.inst.worker];
      workers[row.inst.worker := Loaded(w, AddTo(Usage(w.usedCpu, w.usedRam, w.usedDisk, w.count, w.usedPorts), row.inst))]
    else workers
  }

  /** Counting one more record changes at most the entry of its worker. */
  lemma CountOne(workers: map<string, Worker>, empty: map<string, Worker>, order: seq<Key>, rows: map<Key, Row>, now: real, i: nat)
    requires i < |order| && order[i] in rows
    requires UsagesAre(workers, empty, order[..i], rows, now)
    ensures UsagesAre(CountRow(workers, rows[order[i]], now), empty, order[..i + 1], rows, now)
  {
    assert order[..i + 1][..i] == order[..i];
  }

  class Manager {
    const config: Config
    const store: Store

    constructor (config: Config, store: Store)
      ensures this.config == config && this.store == store
    {
      this.config, this.store := config, store;
    }

    method WorkerHeartbeat(payload: Heartbeat, now: real) returns (ok: bool)
      requires store.Contents().Valid()
      modifies store
      ensures store.Contents().Valid()
      ensures ok <==> payload.id != ""
      ensures store.Contents() ==
              if ok then old(store.Contents()).(workers := Upserted(old(store.workers), RowOf(payload, now))) else old(store.Contents())
    {
      ok := payload.id != "";
      if ok {
        UpsertValid(store.Contents(), RowOf(payload, now));
        store.UpsertWorker(payload, now);
      }
    }

    /** The workers heard of lately, as yet without load; a stale heartbeat leaves its worker out. */
    method RecentWorkers(now: real) returns (recent: seq<WorkerRow>, workers: map<string, Worker>)
      requires store.Contents().Valid()
      ensures recent == Recent(store.workers, now, config.stale)
      ensures EmptyStates(recent, workers)
    {
      hide FromPayload;
      recent, workers := [], map[];
      for i := 0 to |store.workers|
        invariant recent == Recent(store.workers[..i], now, config.stale)
        invariant EmptyStates(recent, workers)
      {
        var row := store.workers[i];
        assert store.workers[..i + 1][..i] == store.workers[..i];
        if now - row.seen > config.stale as real {
          continue;
        }
        RecentBefore(store.Contents(), now, config.stale, i);
        NoLoad(row);
        recent, workers := recent + [row], workers[row.payload.id := FromPayload(row)];
      }
      assert store.workers[..|store.workers|] == store.workers;
    }

    /** Adds a record's use to its worker's entry, unless the record is not live or its worker not recent. */
    method CountInstance(workers: map<string, Worker>, row: Row, now: real) returns (after: map<string, Worker>)
      ensures after == CountRow(workers, row, now)
    {
      after := workers;
      if Terminal(row.status) {
        return;
      }
      if row.expires != 0.0 && row.expires <= now {
        return;
      }
      if row.inst.worker !in workers {
        return;
      }
      var w := workers[row.inst.worker];
      w := w.(usedCpu := w.usedCpu + row.inst.cpu, usedRam := w.usedRam + row.inst.ram,
              usedDisk := w.usedDisk + row.inst.disk, count := w.count + 1);
      if row.inst.port != 0 {
        w := w.(usedPorts := w.usedPorts + {row.inst.port});
      }
      after := workers[row.inst.worker := w];
    }

    /** Adds up, one record after another, what the live instances use of each recent worker. */
    method CurrentWorkerStates(now: real) returns (states: seq<Worker>)
      requires store.Contents().Valid()
      ensures states == WorkerStates(store.Contents(), now, config.stale)
    {
      hide UsageOf, FromPayload, Recent, CountRow;
      var recent, workers := RecentWorkers(now);
      ghost var empty := workers;
      NothingCounted(empty, recent, store.rows, now);
      assert store.order[..0] == [];
      for i := 0 to |store.order|
        invariant UsagesAre(workers, empty, store.order[..i], store.rows, now)
      {
        CountOne(workers, empty, store.order, store.rows, now, i);
        workers := CountInstance(workers, store.rows[store.order[i]], now);
      }
      assert store.order[..|store.order|] == store.order;
      states := [];
      for i := 0 to |recent|
        invariant states == StatesOf(recent, store.Contents(), now)[..i]
      {
        states := states + [workers[recent[i].payload.id]];
      }
    }

    /** Ends one record: its worker is asked to delete the container first, unless it is terminal already. */
    method StopInstanceRecord(key: Key, final: Status, force: bool, unreachable: bool) returns (r: StopResult)
      requires store.Contents().Valid()
      modifies store
      ensures store.Contents().Valid()
      ensures r == StopOutcome(config, old(store.Contents()), key, final, force, unreachable)
      ensures store.Contents() == StopEffect(config, old(store.Contents()), key, final, force, unreachable)
    {
      var found := store.GetInstance(key);
      if found.None? {
        return NotFound;
      }
      var row := found.value;
      if Terminal(row.status) {
        return AlreadyTerminal(row.status);
      }
      if DeleteRaises(config, store.Contents(), row.inst, unreachable) {
        if !force {
          return WorkerFailed;
        }
      }
      PutValid(store.Contents(), key, row.(status := final));
      store.UpdateInstance(key, row.inst, final, None);
      r := Ended(final);
    }

    /** One pass of the reaper over the records as they stood at its start. */
    method ExpireDueInstances(now: real, unreachable: set<Key>) returns (expired: nat)
      requires store.Contents().Valid()
      modifies store
      ensures store.Contents().Valid()
      ensures store.Contents() == EndAll(old(store.Contents()), ReapedKeys(config, old(store.Contents()), now, unreachable), Expired)
      ensures expired == |ReapedKeys(config, old(store.Contents()), now, unreachable)|
    {
      hide EndAll, StopEffect, StopOutcome, DeleteRaises, Success, PassedUpTo;
      var listed := store.Contents();
      ghost var picked := ReapedKeys(config, listed, now, unreachable);
      ghost var ended: set<Key> := {};
      PassBegins(listed, picked);
      expired := 0;
      NothingEnded(listed, Expired);
      for i := 0 to |listed.order|
        invariant store.Contents() == EndAll(listed, ended, Expired)
        invariant store.Contents().Valid()
        invariant PassedUpTo(listed.order, i, picked, ended)
        invariant expired == |ended|
      {
        var key := listed.order[i];
        var row := listed.rows[key];
        PassGoesOn(listed, i, picked, ended);
        if Terminal(row.status) {
          continue;
        }
        if row.expires == 0.0 || row.expires > now {
          continue;
        }
        var force := now - row.expires > 300.0;
        EndOne(config, listed, ended, key, Expired, force, key in unreachable);
        var r := StopInstanceRecord(key, Expired, force, key in unreachable);
        if Success(r) {
          expired := expired + 1;
          ended := ended + {key};
        }
      }
      PassEnds(listed, picked, ended);
    }

    method StopAllInstances(force: bool, unreachable: set<Key>) returns (stopped: nat)
      requires store.Contents().Valid()
      modifies store
      ensures store.Contents().Valid()
      ensures store.Contents() == EndAll(old(store.Contents()), StoppedKeys(config, old(store.Contents()), force, unreachable), Stopped)
      ensures stopped == |StoppedKeys(config, old(store.Contents()), force, unreachable)|
    {
      hide EndAll, StopEffect, StopOutcome, DeleteRaises, Success, PassedUpTo;
      var listed := store.Contents();
      ghost var picked := StoppedKeys(config, listed, force, unreachable);
      ghost var ended: set<Key> := {};
      PassBegins(listed, picked);
      stopped := 0;
      NothingEnded(listed, Stopped);
      for i := 0 to |listed.order|
        invariant store.Contents() == EndAll(listed, ended, Stopped)
        invariant store.Contents().Valid()
        invariant PassedUpTo(listed.order, i, picked, ended)
        invariant stopped == |ended|
      {
        var key := listed.order[i];
        PassGoesOn(listed, i, picked, ended);
        if Terminal(listed.rows[key].status) {
          continue;
        }
        EndOne(config, listed, ended, key, Stopped, force, key in unreachable);
        var r := StopInstanceRecord(key, Stopped, force, key in unreachable);
        if Success(r) {
          stopped := stopped + 1;
          ended := ended + {key};
        }
      }
      PassEnds(listed, picked, ended);
    }

    /** Asks the worker, where one deploys, and writes the record over an existing one or as a new one. */
    method DeployInstance(job: Job, placement: Placement, existing: bool, expires: real, deployed: bool) returns (outcome: Outcome)
      requires store.Contents().Valid()
      requires existing <==> job.key in store.rows
      modifies store
      ensures store.Contents().Valid()
      ensures (store.Contents(), outcome) == Deploy(config, old(store.Contents()), job, placement, expires, deployed)
    {
      if config.deploy {
        if !store.Contents().HasAgent(placement.workerId) {
          return NoAgent;
        }
        if !deployed {
          return DeployFailed;
        }
      }
      var row := NewRow(config, job, placement, expires);
      PutValid(store.Contents(), job.key, row);
      if existing {
        store.UpdateInstance(job.key, row.inst, row.status, Some(row.expires));
      } else {
        var inserted := store.CreateInstance(job.key, row);
        assert inserted;
      }
      outcome := Created(row);
    }

    /** Creates an instance alone: no other operation runs between its steps. */
    method CreateInstance(job: Job, clock: Clock, unreachable: bool, deployed: bool) returns (outcome: Outcome)
      requires store.Contents().Valid()
      modifies store
      ensures store.Contents().Valid()
      ensures (store.Contents(), outcome) == Create(config, old(store.Contents()), clock, job, unreachable, deployed)
    {
      hide WorkerStates, Select, Deploy, StopOutcome, RejectedOf;
      var workers := CurrentWorkerStates(clock.snapshot);
      var held := ColocatedWorker(job.network, clock.network);
      if held.Some? && held.value != "" {
        workers := OnlyWorker(workers, held.value);
      }
      var placement, _ := SelectWorker(workers, job.req);
      assert placement == Choose(store.Contents(), WorkerStates(store.Contents(), clock.snapshot, config.stale), job, clock.network);
      hide Choose;
      if placement.None? {
        return Conflict;
      }
      var existing := store.GetInstance(job.key);
      if existing.Some? && !Terminal(existing.value.status) {
        if existing.value.expires != 0.0 && existing.value.expires <= clock.lookUp {
          var _ := StopInstanceRecord(job.key, Expired, false, unreachable);
          existing := store.GetInstance(job.key);
        } else {
          return Existing(existing.value);
        }
      } else {
        NothingToStop(config, store.Contents(), job.key, Expired, false, unreachable);
      }
      outcome := DeployInstance(job, placement.value, existing.Some?, clock.expiry + job.ttl as real, deployed);
    }

    method ColocatedWorker(network: string, now: real) returns (worker: Option<string>)
      requires store.Contents().Valid()
      ensures worker == Colocated(store.order, store.rows, network, now)
    {
      for i := 0 to |store.order|
        invariant Colocated(store.order, store.rows, network, now) == Colocated(store.order[i..], store.rows, network, now)
      {
        var row := store.rows[store.order[i]];
        assert store.order[i..][1..] == store.order[i + 1..];
        if row.inst.network != Some(network) {
          continue;
        }
        if Terminal(row.status) {
          continue;
        }
        if row.expires != 0.0 && row.expires <= now {
          continue;
        }
        return Some(row.inst.worker);
      }
      worker := None;
    }
  }
}
