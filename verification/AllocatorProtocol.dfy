/**
 * The instance manager as a protocol of interleaved steps. Creates run one at a time, under the
 * allocation lock; heartbeats, the clock and any number of stops run between their steps. A stop
 * reads a record, asks the worker, and writes what it read back with a final status, however stale
 * that has become. The reaper's steps and the stop inside a create are such stops.
 */
module AllocatorProtocol {
  import opened Basics
  import opened Scheduler
  import opened InstanceStore
  import opened InstanceManager

  /** A stop between its read and its write. */
  datatype OpenStop = OpenStop(key: Key, inst: Instance, final: Status)

  /** How far the create that holds the lock has come, and what it has read. */
  datatype Phase =
    | Idle
    | Snapped(job: Job, states: seq<Worker>)
    | Chosen(job: Job, place: Placement)
    | Looked(job: Job, place: Placement, existing: bool)
    | Stamped(job: Job, place: Placement, existing: bool, expires: real)
    | Answered(job: Job, place: Placement, existing: bool, expires: real)
  {
    predicate Placed() {
      Chosen? || Found()
    }

    predicate Found() {
      Looked? || Stamped? || Answered?
    }
  }

  datatype State = State(db: Db, now: real, phase: Phase, stops: seq<OpenStop>, outcome: Outcome)

  datatype Event =
    | Beat(payload: Heartbeat)
    | Tick(seconds: real)
    | ReadForStop(key: Key, final: Status)
    | DropStop(i: nat)
    | WriteStop(i: nat)
    | Begin(job: Job)
    | Pick
    | LookUp
    | Stamp
    | Answer(deployed: bool)
    | Write

  function Without(stops: seq<OpenStop>, i: nat): seq<OpenStop>
    requires i < |stops|
  {
    stops[..i] + stops[i + 1..]
  }

  /** A stop's write: the payload as it was read, the expiry as it is now. */
  function Stopping(db: Db, stop: OpenStop): Db {
    if stop.key in db.rows then Put(db, stop.key, Row(stop.inst, stop.final, db.rows[stop.key].expires)) else db
  }

  /** One step; an event that cannot happen in the state changes nothing. */
  function Step(c: Config, s: State, e: Event): State {
    match e
    case Beat(payload) =>
      if payload.id == "" then s else s.(db := s.db.(workers := Upserted(s.db.workers, RowOf(payload, s.now))))
    case Tick(seconds) =>
      if seconds < 0.0 then s else s.(now := s.now + seconds)
    case ReadForStop(key, final) =>
      if key in s.db.rows && !Terminal(s.db.rows[key].status) && Terminal(final)
      then s.(stops := s.stops + [OpenStop(key, s.db.rows[key].inst, final)])
      else s
    case DropStop(i) =>
      if i < |s.stops| then s.(stops := Without(s.stops, i)) else s
    case WriteStop(i) =>
      if i < |s.stops| then s.(db := Stopping(s.db, s.stops[i]), stops := Without(s.stops, i)) else s
    case _ =>
      CreateStep(c, s, e)
  }

  /** The steps of the create that holds the lock. */
  function CreateStep(c: Config, s: State, e: Event): State {
    match (s.phase, e)
    case (Idle, Begin(job)) =>
      s.(phase := Snapped(job, WorkerStates(s.db, s.now, c.stale)), outcome := Pending)
    case (Snapped(job, states), Pick) =>
      var choice := Choose(s.db, states, job, s.now);
      if choice.None? then s.(phase := Idle, outcome := Conflict) else s.(phase := Chosen(job, choice.value))
    case (Chosen(job, place), LookUp) =>
      if s.db.LiveAt(job.key, s.now) then s.(phase := Idle, outcome := Existing(s.db.rows[job.key]))
      else s.(phase := Looked(job, place, job.key in s.db.rows))
    case (Looked(job, place, existing), Stamp) =>
      s.(phase := Stamped(job, place, existing, s.now + job.ttl as real))
    case (Stamped(job, place, existing, expires), Answer(deployed)) =>
      if c.deploy && !s.db.HasAgent(place.workerId) then s.(phase := Idle, outcome := NoAgent)
      else if c.deploy && !deployed then s.(phase := Idle, outcome := DeployFailed)
      else s.(phase := Answered(job, place, existing, expires))
    case (Answered(job, place, existing, expires), Write) =>
      var row := NewRow(c, job, place, expires);
      if existing == (job.key in s.db.rows) then s.(db := Put(s.db, job.key, row), phase := Idle, outcome := Created(row))
      else s.(phase := Idle, outcome := Pending)
    case _ => s
  }

  function Run(c: Config, s: State, events: seq<Event>): State {
    if events == [] then s else Step(c, Run(c, s, events[..|events| - 1]), events[|events| - 1])
  }

  /** Empty tables, no create under way and no open stop. */
  ghost predicate Initial(s: State) {
    s.db == Db([], [], map[]) && s.phase == Idle && s.stops == []
  }

  // ---- records between the writes of creates ----

  /** Records stay as they are or become terminal; none appears, and the clock does not go back. */
  ghost predicate Settled(s: State, t: State) {
    && s.now <= t.now && t.db.order == s.db.order && t.db.rows.Keys == s.db.rows.Keys
    && forall k :: k in s.db.rows ==> t.db.rows[k] == s.db.rows[k] || Terminal(t.db.rows[k].status)
  }

  ghost predicate StopsEnd(s: State) {
    forall i :: 0 <= i < |s.stops| ==> Terminal(s.stops[i].final)
  }

  predicate Writes(s: State, e: Event) {
    e.Write? && s.phase.Answered?
  }

  lemma StepSettles(c: Config, s: State, e: Event)
    requires StopsEnd(s)
    ensures StopsEnd(Step(c, s, e))
    ensures !Writes(s, e) ==> Settled(s, Step(c, s, e))
  {
    hide WorkerStates, Choose, RowOf, Upserted, NewRow;
  }

  /** What is live after such steps was live before them, and is the same record. */
  lemma SettledLive(s: State, t: State, k: Key)
    requires Settled(s, t) && t.db.LiveAt(k, t.now)
    ensures s.db.LiveAt(k, s.now) && t.db.rows[k] == s.db.rows[k]
  {
    assert k in s.db.rows.Keys;
  }

  lemma StopKeepsWorkers(c: Config, s: State, e: Event)
    requires e.Tick? || e.ReadForStop? || e.DropStop? || e.WriteStop?
    ensures Step(c, s, e).db.workers == s.db.workers && Step(c, s, e).phase == s.phase
  {
  }

  lemma RunOfNothing(c: Config, s: State)
    ensures Run(c, s, []) == s
  {
  }

  // ---- safety ----

  /** Two live instances of one worker have different ports, save port 0, and those of one network have
      one worker. */
  ghost predicate Compatible(a: Instance, b: Instance) {
    && (a.worker == b.worker && a.port == b.port ==> a.port == 0)
    && (a.network.Some? && a.network == b.network ==> a.worker == b.worker)
  }

  /** What the create under way has read still covers a live instance. */
  ghost predicate Covers(p: Phase, inst: Instance) {
    && (p.Snapped? ==>
          forall w :: w in p.states && w.id == inst.worker && inst.port != 0 ==> inst.port in w.usedPorts)
    && (p.Placed() ==>
          && (inst.worker == p.place.workerId && inst.port == p.place.port ==> inst.port == 0)
          && (inst.network == Some(p.job.network) ==> inst.worker == p.place.workerId))
  }

  ghost predicate PhaseHolds(s: State) {
    && (s.phase.Snapped? ==> forall w :: w in s.phase.states ==> w.id != "")
    && (s.phase.Placed() && !s.phase.Chosen? ==>
          !s.db.LiveAt(s.phase.job.key, s.now) && (s.phase.existing <==> s.phase.job.key in s.db.rows))
    && (s.phase.Placed() ==> s.phase.place.workerId != "")
  }

  ghost predicate LiveHold(s: State) {
    && (forall k :: s.db.LiveAt(k, s.now) ==> s.db.rows[k].inst.worker != "" && Covers(s.phase, s.db.rows[k].inst))
    && (forall k, l :: k != l && s.db.LiveAt(k, s.now) && s.db.LiveAt(l, s.now) ==>
                         Compatible(s.db.rows[k].inst, s.db.rows[l].inst))
  }

  /** The invariant of every run. */
  ghost predicate Safe(s: State) {
    s.db.Valid() && StopsEnd(s) && PhaseHolds(s) && LiveHold(s)
  }

  /** Every worker state shows all ports that live instances hold. */
  lemma StatesCover(db: Db, now: real, stale: int, k: Key, w: Worker)
    requires db.Valid() && db.LiveAt(k, now) && w in WorkerStates(db, now, stale) && db.rows[k].inst.worker == w.id
    ensures db.rows[k].inst.port != 0 ==> db.rows[k].inst.port in w.usedPorts
  {
    UsedPortsAre(db.order, db.rows, now, w.id, db.rows[k].inst.port);
    hide UsageOf;
  }

  /** A state belongs to a worker of the table, and says of it what the table says. */
  lemma StateIsOfWorker(db: Db, now: real, stale: int, w: Worker) returns (i: nat)
    requires w in WorkerStates(db, now, stale)
    ensures i < |db.workers| && w == Loaded(FromPayload(db.workers[i]), UsageOf(db.order, db.rows, now, w.id))
    ensures db.workers[i].payload.id == w.id && now - db.workers[i].seen <= stale as real
  {
    hide UsageOf;
    RecentAre(db.workers, now, stale);
    var states := WorkerStates(db, now, stale);
    var j :| 0 <= j < |states| && states[j] == w;
    var recent := Recent(db.workers, now, stale);
    assert recent[j] in recent;
    i :| 0 <= i < |db.workers| && db.workers[i] == recent[j];
  }

  /** A choice lands on an eligible worker of the snapshot, on a port the snapshot shows free. */
  lemma ChoiceIsFree(db: Db, states: seq<Worker>, job: Job, now: real) returns (w: Worker)
    requires Choose(db, states, job, now).Some?
    ensures var p := Choose(db, states, job, now).value;
            && w in states && w.id == p.workerId && Eligible(w, job.req)
            && w.portLo <= p.port <= w.portHi && p.port !in w.usedPorts
            && (Colocated(db.order, db.rows, job.network, now).Some?
                && Colocated(db.order, db.rows, job.network, now).value != "" ==>
                  w.id == Colocated(db.order, db.rows, job.network, now).value)
  {
    hide Select, Eligible, Rejections;
    var choices := Choices(db, states, job.network, now);
    var i := SelectsFirstBest(choices, job.req);
    w := choices[i];
    assert w in choices;
  }

  /** A worker whose last heartbeat was stale at the snapshot is not chosen. */
  lemma StaleWorkersAreNotChosen(db: Db, now: real, stale: int, later: Db, job: Job, laterNow: real, i: nat)
    requires db.Valid() && i < |db.workers| && now - db.workers[i].seen > stale as real
    ensures var choice := Choose(later, WorkerStates(db, now, stale), job, laterNow);
            choice.Some? ==> choice.value.workerId != db.workers[i].payload.id
  {
    hide Choose, WorkerStates, UsageOf;
    if Choose(later, WorkerStates(db, now, stale), job, laterNow).Some? {
      var w := ChoiceIsFree(later, WorkerStates(db, now, stale), job, laterNow);
      var j := StateIsOfWorker(db, now, stale, w);
      assert i < j ==> db.workers[i].payload.id != db.workers[j].payload.id;
      assert j < i ==> db.workers[j].payload.id != db.workers[i].payload.id;
    }
  }

  /** Colocation finds a live record of the network whenever there is one. */
  lemma {:induction false} ColocatedIs(order: seq<Key>, rows: map<Key, Row>, network: string, now: real)
    ensures match Colocated(order, rows, network, now)
            case None => forall k :: k in order && k in rows && Live(rows[k], now) ==> rows[k].inst.network != Some(network)
            case Some(w) => exists k :: k in order && k in rows && Live(rows[k], now)
                                        && rows[k].inst.network == Some(network) && rows[k].inst.worker == w
  {
    if order != [] {
      assert order == [order[0]] + order[1..];
      ColocatedIs(order[1..], rows, network, now);
    }
  }

  lemma PickCovers(s: State, k: Key)
    requires Safe(s) && s.phase.Snapped? && s.db.LiveAt(k, s.now)
    requires Choose(s.db, s.phase.states, s.phase.job, s.now).Some?
    ensures Covers(Chosen(s.phase.job, Choose(s.db, s.phase.states, s.phase.job, s.now).value), s.db.rows[k].inst)
  {
    hide Choose;
    var w := ChoiceIsFree(s.db, s.phase.states, s.phase.job, s.now);
    ColocatedIs(s.db.order, s.db.rows, s.phase.job.network, s.now);
    hide Colocated;
  }

  lemma SettledKeeps(s: State, t: State)
    requires Safe(s) && Settled(s, t) && t.phase == s.phase && t.db.Valid() && StopsEnd(t)
    ensures Safe(t)
  {
    forall k | t.db.LiveAt(k, t.now) ensures s.db.LiveAt(k, s.now) && t.db.rows[k] == s.db.rows[k] {
      SettledLive(s, t, k);
    }
    if s.phase.Found() {
      assert s.phase.job.key in t.db.rows.Keys <==> s.phase.job.key in s.db.rows.Keys;
    }
    hide Covers, Compatible;
  }

  /** A heartbeat, a tick of the clock and any step of a stop keep the invariant. */
  lemma OtherStepKeeps(c: Config, s: State, e: Event)
    requires Safe(s) && (e.Beat? || e.Tick? || e.ReadForStop? || e.DropStop? || e.WriteStop?)
    ensures Safe(Step(c, s, e))
  {
    hide Safe;
    assert s.db.Valid() && StopsEnd(s) by { SafeIs(s); }
    StepSettles(c, s, e);
    OtherStepValid(c, s, e);
    SettledKeeps(s, Step(c, s, e));
  }

  lemma SafeIs(s: State)
    ensures Safe(s) <==> s.db.Valid() && StopsEnd(s) && PhaseHolds(s) && LiveHold(s)
  {
  }

  lemma OtherStepValid(c: Config, s: State, e: Event)
    requires s.db.Valid() && (e.Beat? || e.Tick? || e.ReadForStop? || e.DropStop? || e.WriteStop?)
    ensures Step(c, s, e).db.Valid() && Step(c, s, e).phase == s.phase
  {
    hide RowOf;
    if e.Beat? && e.payload.id != "" {
      assert RowOf(e.payload, s.now).payload.id == e.payload.id by { RowId(e.payload, s.now); }
      UpsertValid(s.db, RowOf(e.payload, s.now));
    } else if e.WriteStop? && e.i < |s.stops| && s.stops[e.i].key in s.db.rows {
      var stop := s.stops[e.i];
      PutValid(s.db, stop.key, Row(stop.inst, stop.final, s.db.rows[stop.key].expires));
    }
  }

  lemma RowId(h: Heartbeat, now: real)
    ensures RowOf(h, now).payload == h
  {
  }

  lemma BeginKeeps(c: Config, s: State, job: Job)
    requires Safe(s) && s.phase.Idle?
    ensures Safe(Step(c, s, Begin(job)))
  {
    var states := WorkerStates(s.db, s.now, c.stale);
    forall w | w in states ensures w.id != "" {
      var i := StateIsOfWorker(s.db, s.now, c.stale, w);
    }
    forall k, w | s.db.LiveAt(k, s.now) && w in states && w.id == s.db.rows[k].inst.worker
      ensures s.db.rows[k].inst.port != 0 ==> s.db.rows[k].inst.port in w.usedPorts
    {
      StatesCover(s.db, s.now, c.stale, k, w);
    }
    hide WorkerStates, Compatible;
  }

  lemma PickKeeps(c: Config, s: State)
    requires Safe(s) && s.phase.Snapped?
    ensures Safe(Step(c, s, Pick))
  {
    hide Choose, Compatible;
    var t := Step(c, s, Pick);
    if t.phase.Chosen? {
      var w := ChoiceIsFree(s.db, s.phase.states, s.phase.job, s.now);
      forall k | s.db.LiveAt(k, s.now) ensures Covers(t.phase, s.db.rows[k].inst) {
        PickCovers(s, k);
      }
      hide Covers;
    }
  }

  /** What the write does: the record of its key, and every other as it was. */
  lemma WriteIs(c: Config, s: State)
    requires Safe(s) && s.phase.Answered?
    ensures var t := Step(c, s, Write);
            && t.db.Valid() && StopsEnd(t) && t.phase.Idle?
            && s.phase.job.key in t.db.rows
            && t.db.rows[s.phase.job.key] == NewRow(c, s.phase.job, s.phase.place, s.phase.expires)
            && forall k :: k != s.phase.job.key && t.db.LiveAt(k, t.now) ==>
                             s.db.LiveAt(k, s.now) && t.db.rows[k] == s.db.rows[k]
  {
    hide NewRow, LiveHold, Db.Valid;
    PutValid(s.db, s.phase.job.key, NewRow(c, s.phase.job, s.phase.place, s.phase.expires));
  }

  /** The write adds a record that gets along with every live one. */
  lemma WriteKeeps(c: Config, s: State)
    requires Safe(s) && s.phase.Answered?
    ensures Safe(Step(c, s, Write))
  {
    hide Covers, Compatible, NewRow, Db.Valid, StopsEnd, Step;
    var p := s.phase;
    var t := Step(c, s, Write);
    WriteIs(c, s);
    NewRowWorker(c, p.job, p.place, p.expires);
    forall k | t.db.LiveAt(k, t.now)
      ensures t.db.rows[k].inst.worker != "" && Covers(t.phase, t.db.rows[k].inst)
    {
      IdleCovers(t.db.rows[k].inst);
    }
    forall k, l | k != l && t.db.LiveAt(k, t.now) && t.db.LiveAt(l, t.now)
      ensures Compatible(t.db.rows[k].inst, t.db.rows[l].inst)
    {
      if k == p.job.key {
        CoveredIsCompatible(c, p, s.db.rows[l].inst);
      } else if l == p.job.key {
        CoveredIsCompatible(c, p, s.db.rows[k].inst);
      }
    }
  }

  lemma NewRowWorker(c: Config, job: Job, place: Placement, expires: real)
    ensures NewRow(c, job, place, expires).inst.worker == place.workerId
  {
  }

  lemma IdleCovers(inst: Instance)
    ensures Covers(Idle, inst)
  {
  }

  lemma CoveredIsCompatible(c: Config, p: Phase, inst: Instance)
    requires p.Answered? && Covers(p, inst)
    ensures Compatible(inst, NewRow(c, p.job, p.place, p.expires).inst)
    ensures Compatible(NewRow(c, p.job, p.place, p.expires).inst, inst)
  {
  }

  lemma StepKeeps(c: Config, s: State, e: Event)
    requires Safe(s)
    ensures Safe(Step(c, s, e))
  {
    if e.Beat? || e.Tick? || e.ReadForStop? || e.DropStop? || e.WriteStop? {
      OtherStepKeeps(c, s, e);
    } else if s.phase.Idle? && e.Begin? {
      BeginKeeps(c, s, e.job);
    } else if s.phase.Snapped? && e.Pick? {
      PickKeeps(c, s);
    } else if s.phase.Answered? && e.Write? {
      WriteKeeps(c, s);
    } else {
      LockedStepKeeps(c, s, e);
    }
  }

  lemma LockedStepKeeps(c: Config, s: State, e: Event)
    requires Safe(s)
    requires e.Begin? || e.Pick? || e.LookUp? || e.Stamp? || e.Answer? || e.Write?
    requires !(s.phase.Idle? && e.Begin?) && !(s.phase.Snapped? && e.Pick?) && !(s.phase.Answered? && e.Write?)
    ensures Safe(Step(c, s, e))
  {
    hide Compatible, Covers, Db.Valid, NewRow;
    var t := Step(c, s, e);
    forall k | s.db.LiveAt(k, s.now) ensures Covers(t.phase, s.db.rows[k].inst) {
      IdleCovers(s.db.rows[k].inst);
      CoversOn(s.phase, t.phase, s.db.rows[k].inst);
    }
  }

  lemma CoversOn(p: Phase, q: Phase, inst: Instance)
    requires Covers(p, inst)
    ensures p.Placed() && q.Placed() && q.job == p.job && q.place == p.place ==> Covers(q, inst)
  {
  }

  lemma {:induction false} RunKeeps(c: Config, s: State, events: seq<Event>)
    requires Safe(s)
    ensures Safe(Run(c, s, events))
  {
    hide Safe, Step;
    if events != [] {
      var n := |events| - 1;
      RunKeeps(c, s, events[..n]);
      StepKeeps(c, Run(c, s, events[..n]), events[n]);
    }
  }

  lemma InitialIsSafe(s: State)
    requires Initial(s)
    ensures Safe(s)
  {
  }
}
