/** The two tables of the instance manager: workers by their last heartbeat, and instance records by key. */
module InstanceStore {
  import opened Basics
  import opened Scheduler

  type Key = string

  datatype Status = Allocated | Deployed | Stopped | Deleted | Failed | Expired

  predicate Terminal(s: Status) {
    s in {Stopped, Deleted, Failed, Expired}
  }

  /** A record's payload; the network is there when a worker runs a container for it. */
  datatype Instance = Instance(worker: string, port: int, network: Option<string>, cpu: real, ram: int, disk: int)

  /** An expiry of zero means none, as the code reads it. */
  datatype Row = Row(inst: Instance, status: Status, expires: real)

  predicate PastExpiry(row: Row, now: real) {
    row.expires != 0.0 && row.expires <= now
  }

  predicate Live(row: Row, now: real) {
    !Terminal(row.status) && !PastExpiry(row, now)
  }

  datatype Heartbeat = Heartbeat(
    id: string,
    ip: string,
    platforms: seq<string>,
    cpu: real,
    ram: int,
    disk: int,
    limit: int,
    portStart: int,
    portEnd: int,
    status: string,
    dockerAvailable: bool,
    draining: bool,
    features: set<string>,
    failures: int,
    agent: bool)

  datatype WorkerRow = WorkerRow(payload: Heartbeat, status: string, seen: real)

  function RowOf(h: Heartbeat, now: real): WorkerRow {
    WorkerRow(h, if h.status != "" then h.status else if h.dockerAvailable then "ready" else "unavailable", now)
  }

  /** A worker with no load yet; a zero in the payload counts as missing. */
  function FromPayload(row: WorkerRow): Worker {
    var h := row.payload;
    Worker(h.id, h.ip, h.platforms,
           if h.cpu == 0.0 then 1.0 else h.cpu, h.ram, h.disk, h.limit,
           if h.portStart == 0 then 20000 else h.portStart, if h.portEnd == 0 then 20999 else h.portEnd,
           row.status, h.draining, h.features, h.failures, 0.0, 0, 0, 0, {})
  }

  /** Tables as the store returns them: rows in the order of their insertion, at most one a key. */
  datatype Db = Db(workers: seq<WorkerRow>, order: seq<Key>, rows: map<Key, Row>) {
    ghost predicate Valid() {
      && (forall i, j :: 0 <= i < j < |order| ==> order[i] != order[j])
      && (forall k :: k in order <==> k in rows)
      && (forall i, j :: 0 <= i < j < |workers| ==> workers[i].payload.id != workers[j].payload.id)
      && (forall i :: 0 <= i < |workers| ==> workers[i].payload.id != "")
    }

    predicate LiveAt(k: Key, now: real) {
      k in rows && Live(rows[k], now)
    }

    predicate HasAgent(worker: string) {
      exists i :: 0 <= i < |workers| && workers[i].payload.id == worker && workers[i].payload.agent
    }
  }

  function Upserted(workers: seq<WorkerRow>, row: WorkerRow): seq<WorkerRow> {
    if workers == [] then [row]
    else if workers[0].payload.id == row.payload.id then [row] + workers[1..]
    else [workers[0]] + Upserted(workers[1..], row)
  }

  /** An upsert replaces the worker's row in place, or adds one, and touches no other worker. */
  lemma {:induction false} UpsertReplaces(workers: seq<WorkerRow>, row: WorkerRow)
    ensures var after := Upserted(workers, row);
            && |workers| <= |after| <= |workers| + 1
            && (forall i :: 0 <= i < |workers| ==> after[i].payload.id == workers[i].payload.id)
            && (forall i :: 0 <= i < |workers| && workers[i].payload.id != row.payload.id ==> after[i] == workers[i])
            && (|after| > |workers| <==> forall i :: 0 <= i < |workers| ==> workers[i].payload.id != row.payload.id)
            && (|after| > |workers| ==> after[|workers|] == row)
            && (exists i :: 0 <= i < |after| && after[i] == row)
  {
    var after := Upserted(workers, row);
    if workers == [] || workers[0].payload.id == row.payload.id {
      assert after[0] == row;
    } else {
      UpsertReplaces(workers[1..], row);
      var i :| 0 <= i < |Upserted(workers[1..], row)| && Upserted(workers[1..], row)[i] == row;
      assert after[i + 1] == row;
      if |after| > |workers| {
        forall i | 0 <= i < |workers| ensures workers[i].payload.id != row.payload.id {
          assert i > 0 ==> workers[i] == workers[1..][i - 1];
        }
      }
    }
  }

  lemma {:induction false} UpsertAt(workers: seq<WorkerRow>, row: WorkerRow, i: nat)
    requires i <= |workers|
    requires forall j :: 0 <= j < i ==> workers[j].payload.id != row.payload.id
    requires i < |workers| ==> workers[i].payload.id == row.payload.id
    ensures Upserted(workers, row) == if i < |workers| then workers[i := row] else workers + [row]
  {
    if i > 0 {
      UpsertAt(workers[1..], row, i - 1);
    }
  }

  lemma {:induction false} UpsertEntry(workers: seq<WorkerRow>, row: WorkerRow, i: nat)
    requires i < |Upserted(workers, row)|
    ensures Upserted(workers, row)[i] == row || (i < |workers| && Upserted(workers, row)[i] == workers[i])
  {
    if workers != [] && workers[0].payload.id != row.payload.id && i > 0 {
      UpsertEntry(workers[1..], row, i - 1);
    }
  }

  lemma UpsertValid(db: Db, row: WorkerRow)
    requires db.Valid() && row.payload.id != ""
    ensures db.(workers := Upserted(db.workers, row)).Valid()
  {
    UpsertReplaces(db.workers, row);
    var after := Upserted(db.workers, row);
    var i :| 0 <= i < |after| && after[i] == row;
    forall i, j | 0 <= i < j < |after| ensures after[i].payload.id != after[j].payload.id {
      if j < |db.workers| {
        assert db.workers[i].payload.id != db.workers[j].payload.id;
      }
    }
    forall i | 0 <= i < |after| ensures after[i].payload.id != "" {
    }
  }

  /** An insert when the key is new, an update in place when it is not. */
  function Put(db: Db, key: Key, row: Row): Db {
    db.(order := if key in db.rows then db.order else db.order + [key], rows := db.rows[key := row])
  }

  lemma PutValid(db: Db, key: Key, row: Row)
    requires db.Valid()
    ensures Put(db, key, row).Valid()
  {
    var after := Put(db, key, row);
    forall k ensures k in after.order <==> k in after.rows {
    }
  }

  class Store {
    var workers: seq<WorkerRow>
    var order: seq<Key>
    var rows: map<Key, Row>

    constructor ()
      ensures Contents() == Db([], [], map[])
    {
      workers, order, rows := [], [], map[];
    }

    function Contents(): Db
      reads this
    {
      Db(workers, order, rows)
    }

    method UpsertWorker(payload: Heartbeat, now: real)
      modifies this
      ensures Contents() == old(Contents()).(workers := Upserted(old(workers), RowOf(payload, now)))
    {
      var row := RowOf(payload, now);
      var i := 0;
      while i < |workers| && workers[i].payload.id != payload.id
        invariant 0 <= i <= |workers|
        invariant forall j :: 0 <= j < i ==> workers[j].payload.id != payload.id
        invariant Contents() == old(Contents())
      {
        i := i + 1;
      }
      UpsertAt(workers, row, i);
      workers := if i < |workers| then workers[i := row] else workers + [row];
    }

    /** Inserts a new record; a second record for a key is refused by the table. */
    method CreateInstance(key: Key, row: Row) returns (ok: bool)
      modifies this
      ensures ok <==> key !in old(rows)
      ensures Contents() == if ok then Put(old(Contents()), key, row) else old(Contents())
    {
      ok := key !in rows;
      if ok {
        order := order + [key];
        rows := rows[key := row];
      }
    }

    method GetInstance(key: Key) returns (row: Option<Row>)
      ensures row == if key in rows then Some(rows[key]) else None
    {
      row := if key in rows then Some(rows[key]) else None;
    }

    /** Overwrites payload and status, and the expiry only when one is given; an unknown key changes nothing. */
    method UpdateInstance(key: Key, inst: Instance, status: Status, expires: Option<real>)
      modifies this
      ensures Contents() ==
              if key !in old(rows) then old(Contents())
              else Put(old(Contents()), key,
                       Row(inst, status, if expires.Some? then expires.value else old(rows)[key].expires))
    {
      if key in rows {
        rows := rows[key := Row(inst, status, if expires.Some? then expires.value else rows[key].expires)];
      }
    }
  }
}
