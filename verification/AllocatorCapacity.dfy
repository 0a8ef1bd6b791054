/** Declared capacity over runs of the allocator protocol. */
module AllocatorCapacity {
  import opened Basics
  import opened Scheduler
  import opened InstanceStore
  import opened InstanceManager
  import opened AllocatorProtocol

  ghost predicate AtMost(u: Usage, v: Usage) {
    u.cpu <= v.cpu && u.ram <= v.ram && u.disk <= v.disk && u.count <= v.count
  }

  ghost predicate SameLoad(u: Usage, v: Usage) {
    u.cpu == v.cpu && u.ram == v.ram && u.disk == v.disk && u.count == v.count
  }

  ghost predicate NonNegative(inst: Instance) {
    inst.cpu >= 0.0 && inst.ram >= 0 && inst.disk >= 0
  }

  ghost predicate NonNegativeRequest(req: Request) {
    req.cpu >= 0.0 && req.memory >= 0 && req.disk >= 0
  }

  ghost predicate Within(u: Usage, w: Worker) {
    u.cpu <= w.cpu && u.ram <= w.ram && u.disk <= w.disk && u.count <= w.limit
  }

  ghost predicate Roomier(v: Worker, w: Worker) {
    v.cpu >= w.cpu && v.ram >= w.ram && v.disk >= w.disk && v.limit >= w.limit
  }

  /** What the live instances of a worker use together in a state. */
  ghost function Load(s: State, worker: string): Usage {
    UsageOf(s.db.order, s.db.rows, s.now, worker)
  }

  // ---- how usage moves ----

  /** When fewer records count, and none of them asks for a negative amount, usage does not grow. */
  lemma {:induction false} UsageShrinks(order: seq<Key>, rows: map<Key, Row>, now: real,
                                        later: map<Key, Row>, laterNow: real, worker: string)
    requires forall k :: k in order && Counts(later, k, laterNow, worker) ==>
                           Counts(rows, k, now, worker) && later[k].inst == rows[k].inst
    requires forall k :: k in order && Counts(rows, k, now, worker) ==> NonNegative(rows[k].inst)
    ensures AtMost(UsageOf(order, later, laterNow, worker), UsageOf(order, rows, now, worker))
  {
    hide Counts;
    if order != [] {
      var n := |order| - 1;
      assert order == order[..n] + [order[n]];
      UsageShrinks(order[..n], rows, now, later, laterNow, worker);
      hide AtMost;
      UsageStep(order, rows, now, later, laterNow, worker);
    }
  }

  lemma UsageStep(order: seq<Key>, rows: map<Key, Row>, now: real, later: map<Key, Row>, laterNow: real, worker: string)
    requires order != []
    requires var k := order[|order| - 1];
             && (Counts(later, k, laterNow, worker) ==> Counts(rows, k, now, worker) && later[k].inst == rows[k].inst)
             && (Counts(rows, k, now, worker) ==> NonNegative(rows[k].inst))
    requires AtMost(UsageOf(order[..|order| - 1], later, laterNow, worker), UsageOf(order[..|order| - 1], rows, now, worker))
    ensures AtMost(UsageOf(order, later, laterNow, worker), UsageOf(order, rows, now, worker))
  {
    hide Counts;
  }

  /** Writing a record that did not count adds exactly its own request, if it counts now. */
  lemma {:induction false} RewriteAdds(order: seq<Key>, rows: map<Key, Row>, now: real, worker: string, key: Key, row: Row)
    requires forall i, j :: 0 <= i < j < |order| ==> order[i] != order[j]
    requires !Counts(rows, key, now, worker)
    ensures var u := UsageOf(order, rows, now, worker);
            SameLoad(UsageOf(order, rows[key := row], now, worker),
                     if key in order && Live(row, now) && row.inst.worker == worker then AddTo(u, row.inst) else u)
  {
    if order != [] {
      var n := |order| - 1;
      assert order == order[..n] + [order[n]];
      RewriteAdds(order[..n], rows, now, worker, key, row);
      hide UsageOf;
      UsageUnfold(order, rows, now, worker);
      UsageUnfold(order, rows[key := row], now, worker);
    }
  }

  lemma UsageUnfold(order: seq<Key>, rows: map<Key, Row>, now: real, worker: string)
    requires order != []
    ensures var k := order[|order| - 1];
            var before := UsageOf(order[..|order| - 1], rows, now, worker);
            UsageOf(order, rows, now, worker) == if Counts(rows, k, now, worker) then AddTo(before, rows[k].inst) else before
  {
  }

  lemma {:induction false} CountedOne(order: seq<Key>, rows: map<Key, Row>, now: real, worker: string)
    ensures UsageOf(order, rows, now, worker).count >= 0
    ensures UsageOf(order, rows, now, worker).count > 0 ==> exists k :: k in order && Counts(rows, k, now, worker)
  {
    if order != [] {
      var n := |order| - 1;
      assert order == order[..n] + [order[n]];
      CountedOne(order[..n], rows, now, worker);
    }
  }

  lemma PutAdds(db: Db, now: real, worker: string, key: Key, row: Row)
    requires db.Valid() && !Counts(db.rows, key, now, worker)
    ensures var u := UsageOf(db.order, db.rows, now, worker);
            var after := Put(db, key, row);
            SameLoad(UsageOf(after.order, after.rows, now, worker),
                     if Live(row, now) && row.inst.worker == worker then AddTo(u, row.inst) else u)
  {
    hide UsageOf;
    RewriteAdds(db.order, db.rows, now, worker, key, row);
    if key !in db.rows {
      assert (db.order + [key])[..|db.order|] == db.order;
      UsageUnfold(db.order + [key], db.rows[key := row], now, worker);
    }
  }

  /** Ending a live record lowers its worker's usage in every part exactly when the record asked for no
      negative amount. */
  lemma EndingLowersUsage(db: Db, now: real, key: Key, final: Status)
    requires db.Valid() && db.LiveAt(key, now) && Terminal(final)
    ensures var worker := db.rows[key].inst.worker;
            var after := Put(db, key, db.rows[key].(status := final));
            AtMost(UsageOf(after.order, after.rows, now, worker), UsageOf(db.order, db.rows, now, worker))
            <==> NonNegative(db.rows[key].inst)
  {
    hide UsageOf;
    var after := Put(db, key, db.rows[key].(status := final));
    PutValid(db, key, db.rows[key].(status := final));
    PutAdds(after, now, db.rows[key].inst.worker, key, db.rows[key]);
    assert Put(after, key, db.rows[key]).rows == db.rows;
  }

  // ---- the invariant ----

  ghost predicate HasWorker(workers: seq<WorkerRow>, id: string) {
    exists i :: 0 <= i < |workers| && workers[i].payload.id == id
  }

  /** The table declares at least the snapshot's capacity for the worker. */
  ghost predicate Declares(workers: seq<WorkerRow>, w: Worker) {
    exists i :: 0 <= i < |workers| && workers[i].payload.id == w.id && Roomier(FromPayload(workers[i]), w)
  }

  ghost predicate HasRoom(workers: seq<WorkerRow>, id: string, u: Usage) {
    exists i :: 0 <= i < |workers| && workers[i].payload.id == id && Within(u, FromPayload(workers[i]))
  }

  ghost function With(u: Usage, req: Request): Usage {
    Usage(u.cpu + req.cpu, u.ram + req.memory, u.disk + req.disk, u.count + 1, u.ports)
  }

  ghost function Snapshot(w: Worker): Usage {
    Usage(w.usedCpu, w.usedRam, w.usedDisk, w.count, w.usedPorts)
  }

  ghost predicate LivePlaced(s: State) {
    forall k :: s.db.LiveAt(k, s.now) ==> NonNegative(s.db.rows[k].inst) && HasWorker(s.db.workers, s.db.rows[k].inst.worker)
  }

  /** No worker that holds a live instance is over its declared capacity. */
  ghost predicate NoneOver(s: State) {
    forall i :: 0 <= i < |s.db.workers| && Load(s, s.db.workers[i].payload.id).count > 0 ==>
                  Within(Load(s, s.db.workers[i].payload.id), FromPayload(s.db.workers[i]))
  }

  ghost predicate PhaseHasRoom(s: State) {
    && (s.phase.Snapped? || s.phase.Placed() ==> NonNegativeRequest(s.phase.job.req))
    && (s.phase.Snapped? ==>
          forall w :: w in s.phase.states ==> AtMost(Load(s, w.id), Snapshot(w)) && Declares(s.db.workers, w))
    && (s.phase.Placed() ==>
          HasRoom(s.db.workers, s.phase.place.workerId, With(Load(s, s.phase.place.workerId), s.phase.job.req)))
  }

  ghost predicate Roomy(s: State) {
    LivePlaced(s) && NoneOver(s) && PhaseHasRoom(s)
  }

  /** Requests are not negative, and a heartbeat declares no less than the worker's last. */
  ghost predicate Fair(s: State, e: Event) {
    && (e.Begin? ==> NonNegativeRequest(e.job.req))
    && (e.Beat? ==>
          forall i :: 0 <= i < |s.db.workers| && s.db.workers[i].payload.id == e.payload.id ==>
                        Roomier(FromPayload(RowOf(e.payload, s.now)), FromPayload(s.db.workers[i])))
  }

  /** Loads do not grow, and no worker of the first table loses capacity or its row. */
  ghost predicate Easier(s: State, t: State) {
    && Settled(s, t) && t.phase == s.phase
    && |s.db.workers| <= |t.db.workers|
    && (forall i :: 0 <= i < |s.db.workers| ==>
          && t.db.workers[i].payload.id == s.db.workers[i].payload.id
          && Roomier(FromPayload(t.db.workers[i]), FromPayload(s.db.workers[i])))
    && (forall i :: |s.db.workers| <= i < |t.db.workers| ==> !HasWorker(s.db.workers, t.db.workers[i].payload.id))
  }

  lemma LoadShrinks(s: State, t: State, worker: string)
    requires LivePlaced(s) && Settled(s, t)
    ensures AtMost(Load(t, worker), Load(s, worker))
  {
    forall k | k in s.db.order && Counts(t.db.rows, k, t.now, worker)
      ensures Counts(s.db.rows, k, s.now, worker) && t.db.rows[k].inst == s.db.rows[k].inst
    {
      assert t.db.LiveAt(k, t.now);
      SettledLive(s, t, k);
    }
    forall k | k in s.db.order && Counts(s.db.rows, k, s.now, worker) ensures NonNegative(s.db.rows[k].inst) {
      assert s.db.LiveAt(k, s.now);
    }
    hide UsageOf;
    UsageShrinks(s.db.order, s.db.rows, s.now, t.db.rows, t.now, worker);
  }

  lemma EasierLive(s: State, t: State)
    requires LivePlaced(s) && Easier(s, t)
    ensures LivePlaced(t)
  {
    forall k | t.db.LiveAt(k, t.now)
      ensures NonNegative(t.db.rows[k].inst) && HasWorker(t.db.workers, t.db.rows[k].inst.worker)
    {
      SettledLive(s, t, k);
      var i :| 0 <= i < |s.db.workers| && s.db.workers[i].payload.id == s.db.rows[k].inst.worker;
      assert t.db.workers[i].payload.id == t.db.rows[k].inst.worker;
    }
  }

  /** A load above zero belongs to a worker of the table. */
  lemma LoadedWorkerIsKnown(s: State, worker: string)
    requires LivePlaced(s) && Load(s, worker).count > 0
    ensures HasWorker(s.db.workers, worker)
  {
    CountedOne(s.db.order, s.db.rows, s.now, worker);
    hide UsageOf;
    var k :| k in s.db.order && Counts(s.db.rows, k, s.now, worker);
    assert s.db.LiveAt(k, s.now);
  }

  lemma EasierNoneOver(s: State, t: State)
    requires LivePlaced(s) && NoneOver(s) && Easier(s, t)
    ensures NoneOver(t)
  {
    hide Load, LivePlaced, HasWorker, FromPayload, Settled;
    forall i | 0 <= i < |t.db.workers| && Load(t, t.db.workers[i].payload.id).count > 0
      ensures Within(Load(t, t.db.workers[i].payload.id), FromPayload(t.db.workers[i]))
    {
      LoadShrinks(s, t, t.db.workers[i].payload.id);
      LoadedWorkerIsKnown(s, t.db.workers[i].payload.id);
    }
  }

  lemma EasierDeclares(s: State, t: State, w: Worker)
    requires Easier(s, t) && Declares(s.db.workers, w)
    ensures Declares(t.db.workers, w)
  {
    hide FromPayload, Settled, HasWorker;
    var i :| 0 <= i < |s.db.workers| && s.db.workers[i].payload.id == w.id && Roomier(FromPayload(s.db.workers[i]), w);
    assert t.db.workers[i].payload.id == w.id && Roomier(FromPayload(t.db.workers[i]), w);
  }

  lemma EasierHasRoom(s: State, t: State, id: string, u: Usage, v: Usage)
    requires Easier(s, t) && HasRoom(s.db.workers, id, u) && AtMost(v, u)
    ensures HasRoom(t.db.workers, id, v)
  {
    hide FromPayload, Settled, HasWorker;
    var i :| 0 <= i < |s.db.workers| && s.db.workers[i].payload.id == id && Within(u, FromPayload(s.db.workers[i]));
    assert t.db.workers[i].payload.id == id && Within(v, FromPayload(t.db.workers[i]));
  }

  lemma EasierKeeps(s: State, t: State)
    requires Roomy(s) && Easier(s, t)
    ensures Roomy(t)
  {
    hide Load, LivePlaced, NoneOver, Declares, HasRoom;
    EasierLive(s, t);
    EasierNoneOver(s, t);
    if s.phase.Snapped? {
      forall w | w in t.phase.states ensures AtMost(Load(t, w.id), Snapshot(w)) && Declares(t.db.workers, w) {
        LoadShrinks(s, t, w.id);
        EasierDeclares(s, t, w);
      }
    }
    if s.phase.Placed() {
      var id := s.phase.place.workerId;
      LoadShrinks(s, t, id);
      EasierHasRoom(s, t, id, With(Load(s, id), s.phase.job.req), With(Load(t, id), s.phase.job.req));
    }
  }

  lemma BeatEases(c: Config, s: State, payload: Heartbeat)
    requires Safe(s) && Fair(s, Beat(payload))
    ensures Easier(s, Step(c, s, Beat(payload)))
  {
    hide Upserted, RowOf, FromPayload;
    StepSettles(c, s, Beat(payload));
    if payload.id != "" {
      var row := RowOf(payload, s.now);
      RowId(payload, s.now);
      UpsertReplaces(s.db.workers, row);
      var after := Upserted(s.db.workers, row);
      forall i | 0 <= i < |s.db.workers|
        ensures after[i].payload.id == s.db.workers[i].payload.id && Roomier(FromPayload(after[i]), FromPayload(s.db.workers[i]))
      {
        UpsertEntry(s.db.workers, row, i);
      }
    }
  }

  lemma OtherStepEases(c: Config, s: State, e: Event)
    requires Safe(s) && Fair(s, e) && (e.Beat? || e.Tick? || e.ReadForStop? || e.DropStop? || e.WriteStop?)
    ensures Easier(s, Step(c, s, e))
  {
    if e.Beat? {
      BeatEases(c, s, e.payload);
    } else {
      StepSettles(c, s, e);
      StopKeepsWorkers(c, s, e);
    }
  }

  lemma BeginRoomy(c: Config, s: State, job: Job)
    requires Safe(s) && Roomy(s) && s.phase.Idle? && NonNegativeRequest(job.req)
    ensures Roomy(Step(c, s, Begin(job)))
  {
    var t := Step(c, s, Begin(job));
    forall w | w in t.phase.states ensures AtMost(Load(t, w.id), Snapshot(w)) && Declares(t.db.workers, w) {
      var i := StateIsOfWorker(s.db, s.now, c.stale, w);
      assert t.db.workers[i].payload.id == w.id && Roomier(FromPayload(t.db.workers[i]), w);
    }
    hide Load, WorkerStates;
  }

  lemma PickRoomy(c: Config, s: State)
    requires Roomy(s) && s.phase.Snapped?
    ensures Roomy(Step(c, s, Pick))
  {
    hide Choose, UsageOf, FromPayload, FreePorts, PlatformWeight;
    var t := Step(c, s, Pick);
    if t.phase.Chosen? {
      var w := ChoiceIsFree(s.db, s.phase.states, s.phase.job, s.now);
      var i :| 0 <= i < |s.db.workers| && s.db.workers[i].payload.id == w.id && Roomier(FromPayload(s.db.workers[i]), w);
      assert Within(With(Load(s, w.id), s.phase.job.req), FromPayload(s.db.workers[i]));
    }
  }

  lemma WriteRoomy(c: Config, s: State)
    requires Safe(s) && Roomy(s) && s.phase.Answered?
    ensures Roomy(Step(c, s, Write))
  {
    hide Load, HasRoom, HasWorker, FromPayload;
    var p := s.phase;
    var t := Step(c, s, Write);
    WriteLive(c, s);
    forall i | 0 <= i < |t.db.workers| && Load(t, t.db.workers[i].payload.id).count > 0
      ensures Within(Load(t, t.db.workers[i].payload.id), FromPayload(t.db.workers[i]))
    {
      WriteLoad(c, s, t.db.workers[i].payload.id);
      if t.db.workers[i].payload.id == p.place.workerId {
        RoomOfWorker(s, i);
      }
    }
  }

  lemma WriteLive(c: Config, s: State)
    requires LivePlaced(s) && PhaseHasRoom(s) && s.phase.Answered?
    ensures LivePlaced(Step(c, s, Write))
  {
  }

  lemma RoomOfWorker(s: State, i: nat)
    requires s.db.Valid() && PhaseHasRoom(s) && s.phase.Placed()
    requires i < |s.db.workers| && s.db.workers[i].payload.id == s.phase.place.workerId
    ensures Within(With(Load(s, s.phase.place.workerId), s.phase.job.req), FromPayload(s.db.workers[i]))
  {
    hide Load, FromPayload;
  }

  /** After the write the chosen worker carries at most the request more, and the others what they did. */
  lemma WriteLoad(c: Config, s: State, worker: string)
    requires Safe(s) && s.phase.Answered? && NonNegativeRequest(s.phase.job.req)
    ensures var u := Load(s, worker);
            var v := Load(Step(c, s, Write), worker);
            if worker == s.phase.place.workerId then AtMost(v, With(u, s.phase.job.req)) else SameLoad(v, u)
  {
    hide UsageOf;
    var p := s.phase;
    PutAdds(s.db, s.now, worker, p.job.key, NewRow(c, p.job, p.place, p.expires));
  }

  lemma StepRoomy(c: Config, s: State, e: Event)
    requires Safe(s) && Roomy(s) && Fair(s, e)
    ensures Roomy(Step(c, s, e))
  {
    if e.Beat? || e.Tick? || e.ReadForStop? || e.DropStop? || e.WriteStop? {
      OtherStepEases(c, s, e);
      EasierKeeps(s, Step(c, s, e));
    } else if s.phase.Idle? && e.Begin? {
      BeginRoomy(c, s, e.job);
    } else if s.phase.Snapped? && e.Pick? {
      PickRoomy(c, s);
    } else if s.phase.Answered? && e.Write? {
      WriteRoomy(c, s);
    } else {
      LockedStepRoomy(c, s, e);
    }
  }

  lemma LockedStepRoomy(c: Config, s: State, e: Event)
    requires Safe(s) && Roomy(s)
    requires e.Begin? || e.Pick? || e.LookUp? || e.Stamp? || e.Answer? || e.Write?
    requires !(s.phase.Idle? && e.Begin?) && !(s.phase.Snapped? && e.Pick?) && !(s.phase.Answered? && e.Write?)
    ensures Roomy(Step(c, s, e))
  {
    hide HasRoom, Declares, HasWorker, FromPayload, UsageOf, Safe;
  }

  ghost predicate FairRun(c: Config, s: State, events: seq<Event>) {
    forall i :: 0 <= i < |events| ==> Fair(Run(c, s, events[..i]), events[i])
  }

  lemma {:induction false} RunRoomy(c: Config, s: State, events: seq<Event>)
    requires Safe(s) && Roomy(s) && FairRun(c, s, events)
    ensures Roomy(Run(c, s, events))
  {
    hide Safe, Roomy, Step, Fair;
    if events != [] {
      var n := |events| - 1;
      forall i | 0 <= i < n ensures Fair(Run(c, s, events[..n][..i]), events[..n][i]) {
        assert events[..n][..i] == events[..i];
      }
      RunRoomy(c, s, events[..n]);
      RunKeeps(c, s, events[..n]);
      StepRoomy(c, Run(c, s, events[..n]), events[n]);
    }
  }

  /** If requests are not negative and heartbeats never shrink capacity, no run over-allocates a worker. */
  lemma CapacityIsKept(c: Config, s: State, events: seq<Event>, i: nat)
    requires Initial(s) && FairRun(c, s, events)
    requires var t := Run(c, s, events);
             i < |t.db.workers| && Load(t, t.db.workers[i].payload.id).count > 0
    ensures var t := Run(c, s, events);
            Within(Load(t, t.db.workers[i].payload.id), FromPayload(t.db.workers[i]))
  {
    InitialIsSafe(s);
    assert Roomy(s);
    RunRoomy(c, s, events);
  }

  /** Without any such condition: a placement leaves the worker within the capacity it had when it was counted. */
  lemma PlacementFits(db: Db, now: real, c: Config, job: Job, later: Db, laterNow: real)
    requires Choose(later, WorkerStates(db, now, c.stale), job, laterNow).Some?
    ensures exists i :: 0 <= i < |db.workers|
              && db.workers[i].payload.id == Choose(later, WorkerStates(db, now, c.stale), job, laterNow).value.workerId
              && Within(With(UsageOf(db.order, db.rows, now, db.workers[i].payload.id), job.req), FromPayload(db.workers[i]))
  {
    hide Choose, WorkerStates, FreePorts, PlatformWeight, UsageOf;
    var w := ChoiceIsFree(later, WorkerStates(db, now, c.stale), job, laterNow);
    var i := StateIsOfWorker(db, now, c.stale, w);
    assert Within(With(UsageOf(db.order, db.rows, now, db.workers[i].payload.id), job.req), FromPayload(db.workers[i]));
  }
}
