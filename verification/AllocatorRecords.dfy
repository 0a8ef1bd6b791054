/** Records over runs of the allocator protocol: when they change, and creates that name a live one. */
module AllocatorRecords {
  import opened Basics
  import opened Scheduler
  import opened InstanceStore
  import opened InstanceManager
  import opened AllocatorProtocol

  /** A live record changes in a step exactly when a stop read earlier is written, and then it becomes terminal. */
  lemma LiveRecordChange(c: Config, s: State, e: Event, k: Key)
    requires Safe(s) && s.db.LiveAt(k, s.now)
    ensures var t := Step(c, s, e);
            && k in t.db.rows
            && (t.db.rows[k] != s.db.rows[k] <==> e.WriteStop? && e.i < |s.stops| && s.stops[e.i].key == k)
            && (t.db.rows[k] != s.db.rows[k] ==> Terminal(t.db.rows[k].status) && t.db.rows[k].expires == s.db.rows[k].expires)
  {
    hide WorkerStates, Choose, Upserted, RowOf, NewRow, Compatible, Covers;
  }

  /** From any point at which a record is live, and while it stays so, it never changes. */
  lemma {:induction false} LiveRecordFixed(c: Config, s: State, events: seq<Event>, k: Key)
    requires Safe(s)
    requires forall i :: 0 <= i <= |events| ==> var t := Run(c, s, events[..i]); t.db.LiveAt(k, t.now)
    ensures k in s.db.rows
    ensures var t := Run(c, s, events); k in t.db.rows && t.db.rows[k] == s.db.rows[k]
  {
    hide Safe, Step;
    assert events[..0] == [] && events[..|events|] == events;
    assert s.db.LiveAt(k, s.now);
    if events != [] {
      var n := |events| - 1;
      forall i | 0 <= i <= n ensures var t := Run(c, s, events[..n][..i]); t.db.LiveAt(k, t.now) {
        assert events[..n][..i] == events[..i];
      }
      LiveRecordFixed(c, s, events[..n], k);
      RunKeeps(c, s, events[..n]);
      LiveRecordChange(c, Run(c, s, events[..n]), events[n], k);
    }
  }

  /** A create's write never meets a live record of its key, and inserts exactly when there is none: the
      insert never fails. */
  lemma WriteNeverCollides(c: Config, s: State, events: seq<Event>)
    requires Initial(s) && Run(c, s, events).phase.Answered?
    ensures var t := Run(c, s, events);
            && !t.db.LiveAt(t.phase.job.key, t.now)
            && (t.phase.existing <==> t.phase.job.key in t.db.rows)
            && Step(c, t, Write).outcome.Created?
            && Step(c, t, Write).db.rows[t.phase.job.key] == Step(c, t, Write).outcome.row
            && forall k :: k != t.phase.job.key ==> (k in Step(c, t, Write).db.rows <==> k in t.db.rows)
                                                     && (k in t.db.rows ==> Step(c, t, Write).db.rows[k] == t.db.rows[k])
  {
    InitialIsSafe(s);
    RunKeeps(c, s, events);
    hide Run, NewRow;
  }

  /** In every run each key has one row: the table's order names it once. */
  lemma OneRowPerKey(c: Config, s: State, events: seq<Event>)
    requires Initial(s)
    ensures var db := Run(c, s, events).db;
            && (forall i, j :: 0 <= i < j < |db.order| ==> db.order[i] != db.order[j])
            && (forall k :: k in db.order <==> k in db.rows)
  {
    InitialIsSafe(s);
    RunKeeps(c, s, events);
  }

  /** Of a create's steps only the write touches a record, and a look-up that finds the key live never
      gets there. */
  lemma LookUpOfLiveKey(c: Config, s: State, e: Event)
    requires Safe(s) && !e.Beat? && !e.Tick? && !e.ReadForStop? && !e.DropStop? && !e.WriteStop?
    ensures Step(c, s, e).db == s.db || (Writes(s, e) && !s.db.LiveAt(s.phase.job.key, s.now))
    ensures s.phase.Chosen? && e.LookUp? && s.db.LiveAt(s.phase.job.key, s.now) ==>
              Step(c, s, e).phase.Idle? && Step(c, s, e).outcome == Existing(s.db.rows[s.phase.job.key])
  {
    hide WorkerStates, Choose, NewRow, Compatible, Covers;
  }

  /** How far a create can come whose key is that of a live record. */
  ghost predicate NoFurtherThanLookUp(t: State, job: Job, row: Row) {
    match t.phase
    case Idle => t.outcome == Conflict || t.outcome == Existing(row)
    case Snapped(j, _) => j == job && t.outcome == Pending
    case Chosen(j, _) => j == job && t.outcome == Pending
    case _ => false
  }

  lemma LookUpIsTheEnd(c: Config, t: State, job: Job, row: Row, e: Event)
    requires Safe(t) && t.db.LiveAt(job.key, t.now) && t.db.rows[job.key] == row
    requires NoFurtherThanLookUp(t, job, row) && !e.Begin?
    ensures NoFurtherThanLookUp(Step(c, t, e), job, row) && !Writes(t, e)
  {
    hide WorkerStates, Choose, NewRow, Upserted, RowOf, Safe;
    if !e.Beat? && !e.Tick? && !e.ReadForStop? && !e.DropStop? && !e.WriteStop? {
      LookUpOfLiveKey(c, t, e);
    }
  }

  lemma SettledInSteps(s: State, t: State, u: State)
    requires Settled(s, t) && Settled(t, u)
    ensures Settled(s, u)
  {
    forall k | k in s.db.rows ensures u.db.rows[k] == s.db.rows[k] || Terminal(u.db.rows[k].status) {
      assert k in t.db.rows.Keys;
    }
  }

  lemma BeginNamingLiveKey(c: Config, s: State, job: Job)
    requires s.phase.Idle? && s.db.LiveAt(job.key, s.now)
    ensures var t := Step(c, s, Begin(job));
            Settled(s, t) && NoFurtherThanLookUp(t, job, s.db.rows[job.key]) && t.db == s.db
  {
    hide WorkerStates;
  }

  /**
   * A create that names a live record, whatever heartbeats, ticks and stop steps come between its
   * steps while that record stays live: it never gets past its look-up, it writes nothing, and it
   * ends in a conflict or with the very record that was live when it began. All records are as
   * they were, but for those that stops have ended.
   */
  lemma {:induction false} CreateNamingLiveKey(c: Config, s: State, job: Job, events: seq<Event>)
    requires Safe(s) && s.phase.Idle? && s.db.LiveAt(job.key, s.now)
    requires forall e :: e in events ==> !e.Begin?
    requires forall i :: 0 <= i <= |events| ==>
                           var t := Run(c, Step(c, s, Begin(job)), events[..i]); t.db.LiveAt(job.key, t.now)
    ensures var t := Run(c, Step(c, s, Begin(job)), events);
            && NoFurtherThanLookUp(t, job, s.db.rows[job.key])
            && job.key in t.db.rows && t.db.rows[job.key] == s.db.rows[job.key]
            && Settled(s, t)
  {
    hide Safe, Step, Settled, NoFurtherThanLookUp;
    var begun := Step(c, s, Begin(job));
    StepKeeps(c, s, Begin(job));
    BeginNamingLiveKey(c, s, job);
    if events == [] {
      RunOfNothing(c, begun);
    } else {
      var n := |events| - 1;
      assert events[..|events|] == events;
      forall i | 0 <= i <= n ensures var t := Run(c, begun, events[..n][..i]); t.db.LiveAt(job.key, t.now) {
        assert events[..n][..i] == events[..i];
      }
      CreateNamingLiveKey(c, s, job, events[..n]);
      RunKeeps(c, begun, events[..n]);
      var t := Run(c, begun, events[..n]);
      var u := Step(c, t, events[n]);
      assert u == Run(c, begun, events);
      LookUpIsTheEnd(c, t, job, s.db.rows[job.key], events[n]);
      assert StopsEnd(t) by { SafeIs(t); }
      StepSettles(c, t, events[n]);
      SettledInSteps(s, t, u);
      SettledLive(t, u, job.key);
    }
  }
}
