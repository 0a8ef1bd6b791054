/**
 * Runs of the protocol with nothing in between are the manager's operations; and runs that show
 * where the guarantees end.
 */
module AllocatorRuns {
  import opened Basics
  import opened Scheduler
  import opened InstanceStore
  import opened InstanceManager
  import opened AllocatorProtocol
  import opened AllocatorCapacity

  // ---- operations as runs ----

  lemma {:induction false} RunConcat(c: Config, s: State, a: seq<Event>, b: seq<Event>)
    ensures Run(c, s, a + b) == Run(c, Run(c, s, a), b)
  {
    hide Step;
    if b == [] {
      assert a + b == a;
    } else {
      var n := |b| - 1;
      assert (a + b)[..|a + b| - 1] == a + b[..n];
      RunConcat(c, s, a, b[..n]);
    }
  }

  lemma RunOne(c: Config, s: State, e: Event)
    ensures Run(c, s, [e]) == Step(c, s, e)
  {
    hide Step;
    assert [e][..0] == [];
    assert Run(c, s, [e]) == Step(c, Run(c, s, []), e);
  }

  lemma RunTwo(c: Config, s: State, e: Event, f: Event)
    ensures Run(c, s, [e, f]) == Step(c, Step(c, s, e), f)
  {
    hide Step;
    assert [e, f][..1] == [e];
    RunOne(c, s, e);
  }

  lemma RunThree(c: Config, s: State, e: Event, f: Event, g: Event)
    ensures Run(c, s, [e, f, g]) == Step(c, Step(c, Step(c, s, e), f), g)
  {
    hide Step;
    assert [e, f, g][..2] == [e, f];
    RunTwo(c, s, e, f);
  }

  /** The steps of one stop: read, then write unless the delete raised and the stop is not forced. */
  function StopEvents(c: Config, s: State, key: Key, final: Status, force: bool, unreachable: bool): seq<Event> {
    match StopOutcome(c, s.db, key, final, force, unreachable)
    case Ended(_) => [ReadForStop(key, final), WriteStop(|s.stops|)]
    case WorkerFailed => [ReadForStop(key, final), DropStop(|s.stops|)]
    case _ => []
  }

  /** A stop with nothing in between is the operation of the manager; stops already open stay open. */
  lemma StopAlone(c: Config, s: State, key: Key, final: Status, force: bool, unreachable: bool)
    requires Terminal(final)
    ensures var t := Run(c, s, StopEvents(c, s, key, final, force, unreachable));
            t == s.(db := StopEffect(c, s.db, key, final, force, unreachable))
  {
    hide DeleteRaises, WorkerStates, Choose, CreateStep, Upserted, RowOf;
    var r := StopOutcome(c, s.db, key, final, force, unreachable);
    if r.Ended? || r.WorkerFailed? {
      var read := Step(c, s, ReadForStop(key, final));
      assert Without(read.stops, |s.stops|) == s.stops;
      if r.Ended? {
        RunTwo(c, s, ReadForStop(key, final), WriteStop(|s.stops|));
      } else {
        RunTwo(c, s, ReadForStop(key, final), DropStop(|s.stops|));
      }
    }
  }

  /** The steps of one create, with the clock going on between its readings; a record past its expiry
      under the key is stopped. */
  function CreateEvents(c: Config, s: State, clock: Clock, job: Job, unreachable: bool, deployed: bool): seq<Event> {
    [Begin(job), Tick(clock.network - s.now), Pick] + [Tick(clock.lookUp - clock.network), LookUp]
    + (if Choose(s.db, WorkerStates(s.db, s.now, c.stale), job, clock.network).Some? && !s.db.LiveAt(job.key, clock.lookUp)
       then StopEvents(c, s, job.key, Expired, false, unreachable)
       else [])
    + [Tick(clock.expiry - clock.lookUp), Stamp] + [Answer(deployed), Write]
  }

  /** The first half of a create alone: it is over, or the key has been looked up and is not live. */
  lemma CreateHead(c: Config, s: State, clock: Clock, job: Job)
    requires s.phase.Idle? && clock.snapshot == s.now && clock.Runs()
    ensures var choice := Choose(s.db, WorkerStates(s.db, s.now, c.stale), job, clock.network);
            var head := [Begin(job), Tick(clock.network - s.now), Pick] + [Tick(clock.lookUp - clock.network), LookUp];
            Run(c, s, head) ==
            if choice.None? then s.(now := clock.lookUp, outcome := Conflict)
            else if s.db.LiveAt(job.key, clock.lookUp) then s.(now := clock.lookUp, outcome := Existing(s.db.rows[job.key]))
            else s.(now := clock.lookUp, outcome := Pending, phase := Looked(job, choice.value, job.key in s.db.rows))
  {
    hide WorkerStates, Choose, Run, NewRow, Upserted, RowOf;
    RunConcat(c, s, [Begin(job), Tick(clock.network - s.now), Pick], [Tick(clock.lookUp - clock.network), LookUp]);
    RunThree(c, s, Begin(job), Tick(clock.network - s.now), Pick);
    RunTwo(c, Run(c, s, [Begin(job), Tick(clock.network - s.now), Pick]), Tick(clock.lookUp - clock.network), LookUp);
  }

  /** The second half, from the look-up on. */
  lemma CreateTail(c: Config, s: State, clock: Clock, deployed: bool)
    requires s.phase.Idle? || s.phase.Looked?
    requires s.now == clock.lookUp <= clock.expiry
    requires s.phase.Looked? ==> s.phase.existing == (s.phase.job.key in s.db.rows)
    ensures var tail := [Tick(clock.expiry - clock.lookUp), Stamp] + [Answer(deployed), Write];
            Run(c, s, tail) ==
            if s.phase.Idle? then s.(now := clock.expiry)
            else
              var (db, outcome) := Deploy(c, s.db, s.phase.job, s.phase.place, clock.expiry + s.phase.job.ttl as real, deployed);
              State(db, clock.expiry, Idle, s.stops, outcome)
  {
    hide Run, NewRow, WorkerStates, Choose, Upserted, RowOf;
    RunConcat(c, s, [Tick(clock.expiry - clock.lookUp), Stamp], [Answer(deployed), Write]);
    RunTwo(c, s, Tick(clock.expiry - clock.lookUp), Stamp);
    RunTwo(c, Run(c, s, [Tick(clock.expiry - clock.lookUp), Stamp]), Answer(deployed), Write);
  }

  /** A create with nothing in between but the clock is the operation of the manager. */
  lemma CreateAlone(c: Config, s: State, clock: Clock, job: Job, unreachable: bool, deployed: bool)
    requires s.phase.Idle? && clock.snapshot == s.now && clock.Runs()
    ensures var t := Run(c, s, CreateEvents(c, s, clock, job, unreachable, deployed));
            && (t.db, t.outcome) == Create(c, s.db, clock, job, unreachable, deployed)
            && t.phase.Idle? && t.stops == s.stops && t.now == clock.expiry
  {
    hide WorkerStates, Choose, StopEffect, StopOutcome, Run, Deploy, StopEvents;
    var choice := Choose(s.db, WorkerStates(s.db, s.now, c.stale), job, clock.network);
    var head := [Begin(job), Tick(clock.network - s.now), Pick] + [Tick(clock.lookUp - clock.network), LookUp];
    var tail := [Tick(clock.expiry - clock.lookUp), Stamp] + [Answer(deployed), Write];
    CreateHead(c, s, clock, job);
    var s1 := Run(c, s, head);
    var middle := if choice.Some? && !s.db.LiveAt(job.key, clock.lookUp)
                  then StopEvents(c, s, job.key, Expired, false, unreachable) else [];
    RunConcat(c, s, head, middle);
    RunConcat(c, s, head + middle, tail);
    assert CreateEvents(c, s, clock, job, unreachable, deployed) == head + middle + tail;
    var s2 := Run(c, s1, middle);
    if choice.Some? && !s.db.LiveAt(job.key, clock.lookUp) {
      SameStop(c, s, s1, job.key, Expired, false, unreachable);
      StopAlone(c, s1, job.key, Expired, false, unreachable);
      StopKeepsKeys(c, s.db, job.key, Expired, false, unreachable);
    } else {
      RunOfNothing(c, s1);
    }
    CreateTail(c, s2, clock, deployed);
  }

  lemma SameStop(c: Config, s: State, t: State, key: Key, final: Status, force: bool, unreachable: bool)
    requires s.db == t.db && s.stops == t.stops
    ensures StopEvents(c, s, key, final, force, unreachable) == StopEvents(c, t, key, final, force, unreachable)
  {
  }

  lemma StopKeepsKeys(c: Config, db: Db, key: Key, final: Status, force: bool, unreachable: bool)
    ensures var after := StopEffect(c, db, key, final, force, unreachable);
            after.rows.Keys == db.rows.Keys && after.workers == db.workers
  {
  }
}
