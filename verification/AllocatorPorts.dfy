/** Ports and networks over runs of the allocator protocol. */
module AllocatorPorts {
  import opened Basics
  import opened Scheduler
  import opened InstanceStore
  import opened InstanceManager
  import opened AllocatorProtocol

  /** In every run, two live instances of one worker have different ports, unless both have port 0. */
  lemma PortsAreExclusive(c: Config, s: State, events: seq<Event>, k: Key, l: Key)
    requires Initial(s) && k != l
    requires var t := Run(c, s, events); t.db.LiveAt(k, t.now) && t.db.LiveAt(l, t.now)
    ensures var t := Run(c, s, events);
            t.db.rows[k].inst.worker == t.db.rows[l].inst.worker && t.db.rows[k].inst.port == t.db.rows[l].inst.port
            ==> t.db.rows[k].inst.port == 0
  {
    InitialIsSafe(s);
    RunKeeps(c, s, events);
  }

  /** In every run, all live instances of a shared network are on one worker. */
  lemma NetworksStayTogether(c: Config, s: State, events: seq<Event>, k: Key, l: Key)
    requires Initial(s)
    requires var t := Run(c, s, events); t.db.LiveAt(k, t.now) && t.db.LiveAt(l, t.now)
    ensures var t := Run(c, s, events);
            t.db.rows[k].inst.network.Some? && t.db.rows[k].inst.network == t.db.rows[l].inst.network
            ==> t.db.rows[k].inst.worker == t.db.rows[l].inst.worker
  {
    InitialIsSafe(s);
    RunKeeps(c, s, events);
  }

  // ---- ranges without port 0 ----

  ghost predicate SpansZero(row: WorkerRow) {
    FromPayload(row).portLo <= 0 <= FromPayload(row).portHi
  }

  ghost predicate NoneSpansZero(workers: seq<WorkerRow>) {
    forall i :: 0 <= i < |workers| ==> !SpansZero(workers[i])
  }

  /** No worker's range, and no live instance, has port 0. */
  ghost predicate ZeroFree(s: State) {
    && NoneSpansZero(s.db.workers)
    && (forall k :: s.db.LiveAt(k, s.now) ==> s.db.rows[k].inst.port != 0)
    && (s.phase.Snapped? ==> forall w :: w in s.phase.states ==> !(w.portLo <= 0 <= w.portHi))
    && (s.phase.Placed() ==> s.phase.place.port != 0)
  }

  predicate BeatSpansZero(e: Event) {
    e.Beat? && FromPayload(RowOf(e.payload, 0.0)).portLo <= 0 <= FromPayload(RowOf(e.payload, 0.0)).portHi
  }

  lemma SettledZeroFree(s: State, t: State)
    requires ZeroFree(s) && Settled(s, t) && t.phase == s.phase
    requires NoneSpansZero(t.db.workers)
    ensures ZeroFree(t)
  {
    forall k | t.db.LiveAt(k, t.now) ensures t.db.rows[k].inst.port != 0 {
      SettledLive(s, t, k);
    }
  }

  lemma BeatZeroFree(s: State, payload: Heartbeat)
    requires NoneSpansZero(s.db.workers) && !BeatSpansZero(Beat(payload))
    ensures NoneSpansZero(Upserted(s.db.workers, RowOf(payload, s.now)))
  {
    var row := RowOf(payload, s.now);
    var after := Upserted(s.db.workers, row);
    assert !SpansZero(row);
    hide Upserted, RowOf;
    forall i | 0 <= i < |after| ensures !SpansZero(after[i]) {
      UpsertEntry(s.db.workers, row, i);
    }
  }

  lemma BeatStepZeroFree(c: Config, s: State, payload: Heartbeat)
    requires Safe(s) && ZeroFree(s) && !BeatSpansZero(Beat(payload))
    ensures ZeroFree(Step(c, s, Beat(payload)))
  {
    hide NoneSpansZero, BeatSpansZero, RowOf, Upserted;
    if payload.id != "" {
      StepSettles(c, s, Beat(payload));
      BeatZeroFree(s, payload);
      var t := Step(c, s, Beat(payload));
      assert Settled(s, t);
      assert t.phase == s.phase;
      assert t.db.workers == Upserted(s.db.workers, RowOf(payload, s.now));
      SettledZeroFree(s, t);
    }
  }

  lemma StepZeroFree(c: Config, s: State, e: Event)
    requires Safe(s) && ZeroFree(s) && !BeatSpansZero(e)
    ensures ZeroFree(Step(c, s, e))
  {
    var t := Step(c, s, e);
    if e.Beat? {
      BeatStepZeroFree(c, s, e.payload);
    } else if e.Tick? || e.ReadForStop? || e.DropStop? || e.WriteStop? {
      StepSettles(c, s, e);
      StopKeepsWorkers(c, s, e);
      SettledZeroFree(s, t);
    } else if s.phase.Idle? && e.Begin? {
      BeginZeroFree(c, s, e.job);
    } else if s.phase.Snapped? && e.Pick? {
      PickZeroFree(c, s);
    } else {
      hide NoneSpansZero;
    }
  }

  lemma BeginZeroFree(c: Config, s: State, job: Job)
    requires ZeroFree(s) && s.phase.Idle?
    ensures ZeroFree(Step(c, s, Begin(job)))
  {
    forall w | w in WorkerStates(s.db, s.now, c.stale) ensures !(w.portLo <= 0 <= w.portHi) {
      var i := StateIsOfWorker(s.db, s.now, c.stale, w);
      assert !SpansZero(s.db.workers[i]);
    }
    hide WorkerStates, FromPayload;
  }

  lemma PickZeroFree(c: Config, s: State)
    requires ZeroFree(s) && s.phase.Snapped?
    ensures ZeroFree(Step(c, s, Pick))
  {
    hide Choose, NoneSpansZero;
    if Choose(s.db, s.phase.states, s.phase.job, s.now).Some? {
      var w := ChoiceIsFree(s.db, s.phase.states, s.phase.job, s.now);
    }
  }

  lemma {:induction false} RunZeroFree(c: Config, s: State, events: seq<Event>)
    requires Safe(s) && ZeroFree(s) && forall e :: e in events ==> !BeatSpansZero(e)
    ensures ZeroFree(Run(c, s, events))
  {
    hide Safe, ZeroFree, Step, BeatSpansZero;
    if events != [] {
      var n := |events| - 1;
      RunZeroFree(c, s, events[..n]);
      RunKeeps(c, s, events[..n]);
      StepZeroFree(c, Run(c, s, events[..n]), events[n]);
    }
  }

  /** As long as no worker reports a range that spans port 0, no two live instances of a worker share a
      port at all. */
  lemma PortsNeverShared(c: Config, s: State, events: seq<Event>, k: Key, l: Key)
    requires Initial(s) && k != l && forall e :: e in events ==> !BeatSpansZero(e)
    requires var t := Run(c, s, events); t.db.LiveAt(k, t.now) && t.db.LiveAt(l, t.now)
    ensures var t := Run(c, s, events);
            t.db.rows[k].inst.worker != t.db.rows[l].inst.worker || t.db.rows[k].inst.port != t.db.rows[l].inst.port
  {
    InitialIsSafe(s);
    RunZeroFree(c, s, events);
    PortsAreExclusive(c, s, events, k, l);
    hide Run, Compatible;
  }
}
