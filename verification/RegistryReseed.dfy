/**
 * Re-seeding by a stale client (crates/doc/src/registry.rs:442-503): a full answer makes the client push the rows of
 * its copy that the answer lacks, under their original clocks. What that does to the table, in any state and after
 * any run: it adds exactly those rows, so it brings back exactly the live rows whose tombstones had been purged.
 */
module RegistryReseed {
  import opened Options
  import opened Hlc
  import opened RegistryCore
  import opened RegistryMerge
  import opened RegistryHistory
  import opened RegistryTable
  import opened RegistrySync

  // ---------- what is pushed ----------

  ghost predicate IsSeed(op: Op, rows: Table, have: set<Key>, k: Key) {
    k in rows && k !in have && op == RowToSeedOp(rows[k])
  }

  ghost predicate AllSeeds(ops: seq<Op>, rows: Table, have: set<Key>) {
    forall op :: op in ops ==> exists k :: IsSeed(op, rows, have, k)
  }

  /** `ops` lists, in any order, the seeds of the rows outside `have`. */
  ghost predicate SeedsOf(ops: seq<Op>, rows: Table, have: set<Key>) {
    && AllSeeds(ops, rows, have)
    && (forall k :: k in rows && k !in have ==> RowToSeedOp(rows[k]) in ops)
  }

  /**
   * The rows a client does not seed on this answer: none of its own on a delta, those the answer holds on a full one,
   * and all are seeded when the server has fallen behind the copy.
   */
  function Unseeded(rows: Table, cursor: nat, frame: StateFrame): set<Key> {
    if !frame.full then rows.Keys else if frame.seqNo < cursor then {} else frame.rows.Keys
  }

  function Concat(batches: seq<seq<Op>>): seq<Op> {
    if batches == [] then [] else batches[0] + Concat(batches[1..])
  }

  ghost function PushAll(s: Server, batches: seq<seq<Op>>): Server
    decreases batches
  {
    if batches == [] then s else PushAll(PushServer(s, batches[0]), batches[1..])
  }

  /** Every row of a copy is one the server could hold. */
  ghost predicate CopyOk(rows: Table, seqNo: nat) {
    forall k :: k in rows ==> RowOk(k, rows[k], seqNo)
  }

  /** Seeds carry validated clocks and kinds, the made-up clock of a clockless row included. */
  lemma SeedsAreValid(ops: seq<Op>, rows: Table, have: set<Key>, seqNo: nat)
    requires CopyOk(rows, seqNo) && AllSeeds(ops, rows, have)
    ensures ValidOps(ops)
  {
    forall op | op in ops ensures ValidKind(op.kind) && ValidClocks(Some(op.hlc), op.clocks) {
      var k :| IsSeed(op, rows, have, k);
      assert RowOk(k, rows[k], seqNo);
      SeedIsValid(rows[k]);
    }
  }

  lemma SeedIsValid(row: Row)
    requires ValidClocks(row.delHlc, row.clocks)
    ensures var op := RowToSeedOp(row); ValidClocks(Some(op.hlc), op.clocks)
  {
    assert InRange(0, 0);
    ValidEncodings(0, 0, "seed");
    if MaxClock(row).Some? && MaxClock(row).value in row.clocks.Values {
      assert exists f :: f in row.clocks && row.clocks[f] == MaxClock(row).value;
    }
  }

  // ---------- what it does to the table ----------

  /** The row that seeding makes where there is none. */
  ghost function Restored(row: Row): Option<Row> {
    ApplyOp(None, RowToSeedOp(row)).row
  }

  /** Mid-way through the seeds: rows of `was` are untouched, any other row is a restored one of the copy. */
  ghost predicate ReseededAt(was: Table, t: Table, rows: Table, k: Key) {
    if k in was then Lookup(t, k) == Some(was[k])
    else k in t ==> k in rows && Some(t[k].(stamp := 0)) == Restored(rows[k])
  }

  /** A seed restores its row once; again it changes nothing. */
  lemma SeedOnRestored(row: Row, r: Row)
    requires Some(r.(stamp := 0)) == Restored(row)
    ensures !ApplyOp(Some(r), RowToSeedOp(row)).changed
  {
    ClocksAreTotallyOrdered();
    if !row.deleted {
      DeliverySettles(None, RowToSeedOp(row));
      assert Settled(r, RowToSeedOp(row));
      SettledIsNoOp(r, RowToSeedOp(row));
    }
  }

  lemma SeedStep(was: Table, t: Table, rows: Table, seqNo: nat, op: Op, j: Key, stamp: nat, k: Key)
    requires CopyOk(rows, seqNo) && IsSeed(op, rows, was.Keys, j) && ReseededAt(was, t, rows, k)
    ensures ReseededAt(was, StepRow(t, op, stamp), rows, k)
    ensures j in StepRow(t, op, stamp)
  {
    assert RowOk(j, rows[j], seqNo) && KeyOf(op) == j;
    if k == j && k in t {
      SeedOnRestored(rows[k], t[k]);
    }
  }

  lemma {:induction false} BatchSeeds(was: Table, t: Table, rows: Table, seqNo: nat, ops: seq<Op>, stamp: nat, k: Key)
    requires CopyOk(rows, seqNo) && ReseededAt(was, t, rows, k) && AllSeeds(ops, rows, was.Keys)
    ensures ReseededAt(was, Batch(t, ops, stamp), rows, k)
    ensures k in rows && RowToSeedOp(rows[k]) in ops ==> k in Batch(t, ops, stamp)
    decreases ops
  {
    if ops != [] {
      assert ops[0] in ops && forall op :: op in ops[1..] ==> op in ops;
      var j :| IsSeed(ops[0], rows, was.Keys, j);
      var t' := StepRow(t, ops[0], stamp);
      SeedStep(was, t, rows, seqNo, ops[0], j, stamp, k);
      BatchSeeds(was, t', rows, seqNo, ops[1..], stamp, k);
      if k in rows && RowToSeedOp(rows[k]) == ops[0] {
        SeedNamesItsRow(rows, seqNo, j, k);
        BatchTouches(t', ops[1..], stamp, k);
      }
    }
  }

  lemma SeedNamesItsRow(rows: Table, seqNo: nat, j: Key, k: Key)
    requires CopyOk(rows, seqNo) && j in rows && k in rows && RowToSeedOp(rows[j]) == RowToSeedOp(rows[k])
    ensures j == k
  {
    assert RowOk(j, rows[j], seqNo) && RowOk(k, rows[k], seqNo);
  }

  lemma {:induction false} PushesSeed(was: Table, s: Server, rows: Table, n: nat, batches: seq<seq<Op>>, k: Key)
    requires CopyOk(rows, n) && ReseededAt(was, s.rows, rows, k) && AllSeeds(Concat(batches), rows, was.Keys)
    ensures ReseededAt(was, PushAll(s, batches).rows, rows, k)
    ensures k in s.rows ==> k in PushAll(s, batches).rows
    ensures k in rows && RowToSeedOp(rows[k]) in Concat(batches) ==> k in PushAll(s, batches).rows
    decreases batches
  {
    if batches != [] {
      var s' := PushServer(s, batches[0]);
      assert forall op :: op in Concat(batches) <==> op in batches[0] || op in Concat(batches[1..]);
      assert AllSeeds(batches[0], rows, was.Keys) && AllSeeds(Concat(batches[1..]), rows, was.Keys);
      PushAppliesNothingExactly(s.rows, batches[0], s.seqNo + 1);
      BatchSeeds(was, s.rows, rows, n, batches[0], s.seqNo + 1, k);
      BatchTouches(s.rows, batches[0], s.seqNo + 1, k);
      PushesSeed(was, s', rows, n, batches[1..], k);
    }
  }

  /**
   * Pushing the seeds of the rows a table lacks, in any order and any batches, leaves every row of the table as it was,
   * and adds exactly those rows, each with its deleted flag and its fields.
   */
  lemma ReseedAddsExactly(s: Server, rows: Table, n: nat, batches: seq<seq<Op>>, k: Key)
    requires CopyOk(rows, n) && SeedsOf(Concat(batches), rows, s.rows.Keys)
    ensures var t := PushAll(s, batches).rows;
            && (k in t <==> k in s.rows || k in rows)
            && (k in s.rows ==> t[k] == s.rows[k])
            && (k in rows && k !in s.rows ==>
                  Some(t[k].(stamp := 0)) == Restored(rows[k])
                  && t[k].deleted == rows[k].deleted && t[k].fields == rows[k].fields)
  {
    PushesSeed(s.rows, s, rows, n, batches, k);
    if k in rows && k !in s.rows {
      assert RowOk(k, rows[k], n);
      SeedingRestoresARow(rows[k]);
    }
  }

  /** Nothing of the row is lost to a seed. */
  ghost predicate SeedsWhole(row: Row) {
    row.deleted || (row.delHlc.None? && row.clocks.Keys == row.fields.Keys)
  }

  /**
   * A copy that finds the server wiped rebuilds the table from its rows: completely if and only if each row is deleted,
   * or was never revived and holds no cleared field.
   */
  lemma WipeIsLosslessExactly(s: Server, rows: Table, n: nat, batches: seq<seq<Op>>)
    requires s.rows == map[] && CopyOk(rows, n) && SeedsOf(Concat(batches), rows, {})
    ensures Unstamped(PushAll(s, batches).rows) == Unstamped(rows) <==> forall k :: k in rows ==> SeedsWhole(rows[k])
  {
    var t := PushAll(s, batches).rows;
    forall k ensures k in t <==> k in rows
      ensures k in rows ==> (t[k].(stamp := 0) == rows[k].(stamp := 0) <==> SeedsWhole(rows[k]))
    {
      WipedRow(s, rows, n, batches, k);
    }
    SameUnstamped(t, rows);
  }

  lemma WipedRow(s: Server, rows: Table, n: nat, batches: seq<seq<Op>>, k: Key)
    requires s.rows == map[] && CopyOk(rows, n) && SeedsOf(Concat(batches), rows, {})
    ensures var t := PushAll(s, batches).rows;
            && (k in t <==> k in rows)
            && (k in rows ==> (t[k].(stamp := 0) == rows[k].(stamp := 0) <==> SeedsWhole(rows[k])))
  {
    assert s.rows.Keys == {};
    ReseedAddsExactly(s, rows, n, batches, k);
    if k in rows {
      assert RowOk(k, rows[k], n);
      SeedingIsExact(rows[k]);
    }
  }

  lemma SameUnstamped(t: Table, u: Table)
    requires forall k :: k in t <==> k in u
    ensures Unstamped(t) == Unstamped(u) <==> forall k :: k in u ==> t[k].(stamp := 0) == u[k].(stamp := 0)
  {
    if Unstamped(t) == Unstamped(u) {
      forall k | k in u ensures t[k].(stamp := 0) == u[k].(stamp := 0) {
        assert Unstamped(t)[k] == Unstamped(u)[k];
      }
    }
  }

  // ---------- a server that lost some of its rows ----------

  /** The table's row of `k`, if any, is live, and once `settled` it holds the copy's fields at least as new. */
  ghost predicate CatchesUpAt(t: Table, row: Row, k: Key, settled: bool) {
    && (k in t ==> !t[k].deleted)
    && (settled ==> k in t && Settled(t[k], RowToSeedOp(row)))
  }

  lemma CatchUpStep(t: Table, rows: Table, n: nat, op: Op, stamp: nat, k: Key, settled: bool)
    requires CopyOk(rows, n) && k in rows && !rows[k].deleted && CatchesUpAt(t, rows[k], k, settled)
    requires exists j :: IsSeed(op, rows, {}, j)
    ensures CatchesUpAt(StepRow(t, op, stamp), rows[k], k, settled || op == RowToSeedOp(rows[k]))
  {
    var j :| IsSeed(op, rows, {}, j);
    assert RowOk(j, rows[j], n) && RowOk(k, rows[k], n) && KeyOf(op) == j;
    if j == k {
      DeliverySettles(Lookup(t, k), op);
      if !ApplyOp(Lookup(t, k), op).changed {
        UnchangedIsIdentity(Lookup(t, k), op);
      }
    }
  }

  lemma {:induction false} BatchCatchesUp(
    t: Table, rows: Table, n: nat, ops: seq<Op>, stamp: nat, k: Key, settled: bool)
    requires CopyOk(rows, n) && k in rows && !rows[k].deleted && CatchesUpAt(t, rows[k], k, settled)
    requires AllSeeds(ops, rows, {})
    ensures CatchesUpAt(Batch(t, ops, stamp), rows[k], k, settled || RowToSeedOp(rows[k]) in ops)
    decreases ops
  {
    if ops != [] {
      assert ops[0] in ops && forall op :: op in ops <==> op == ops[0] || op in ops[1..];
      CatchUpStep(t, rows, n, ops[0], stamp, k, settled);
      BatchCatchesUp(StepRow(t, ops[0], stamp), rows, n, ops[1..], stamp, k,
                     settled || ops[0] == RowToSeedOp(rows[k]));
    }
  }

  lemma {:induction false} PushesCatchUp(
    s: Server, rows: Table, n: nat, batches: seq<seq<Op>>, k: Key, settled: bool)
    requires CopyOk(rows, n) && k in rows && !rows[k].deleted && CatchesUpAt(s.rows, rows[k], k, settled)
    requires AllSeeds(Concat(batches), rows, {})
    ensures CatchesUpAt(PushAll(s, batches).rows, rows[k], k, settled || RowToSeedOp(rows[k]) in Concat(batches))
    decreases batches
  {
    if batches != [] {
      assert forall op :: op in Concat(batches) <==> op in batches[0] || op in Concat(batches[1..]);
      PushAppliesNothingExactly(s.rows, batches[0], s.seqNo + 1);
      BatchCatchesUp(s.rows, rows, n, batches[0], s.seqNo + 1, k, settled);
      PushesCatchUp(PushServer(s, batches[0]), rows, n, batches[1..], k,
                    settled || RowToSeedOp(rows[k]) in batches[0]);
    }
  }

  /**
   * A server that has fallen behind a copy's cursor, whatever rows it still or again has, gets from the copy's seeds
   * every field of every live row at least as new as the copy held it, unless it has buried the row.
   */
  lemma LostServerCatchesUp(s: Server, rows: Table, n: nat, cursor: nat, batches: seq<seq<Op>>, k: Key, f: string)
    requires s.seqNo < cursor && CopyOk(rows, n) && k in rows && !rows[k].deleted && f in rows[k].fields
    requires k in s.rows ==> !s.rows[k].deleted
    requires SeedsOf(Concat(batches), rows, Unseeded(rows, cursor, HelloAnswer(s, Some(cursor))))
    ensures var t := PushAll(s, batches).rows;
            && k in t && !t[k].deleted && f in t[k].clocks
            && f in rows[k].clocks && !Before(t[k].clocks[f], rows[k].clocks[f])
  {
    PushesCatchUp(s, rows, n, batches, k, false);
    var r, op := PushAll(s, batches).rows[k], RowToSeedOp(rows[k]);
    assert RowOk(k, rows[k], n) && Get(rows[k].fields, f).Some?;
    assert f in op.writes && ClockFor(op, f) == rows[k].clocks[f];
  }

  // ---------- in every run ----------

  /** A client in the run has asked at least once, and its rows came from the server. */
  ghost predicate ReplicaOk(r: Replica, s: Server) {
    r.cursor.Some? && CopyOk(r.rows, s.seqNo)
  }

  ghost predicate ReplicasOk(w: World) {
    forall c :: c in w.replicas ==> ReplicaOk(w.replicas[c], w.server)
  }

  lemma RowOkLater(k: Key, row: Row, n: nat, n': nat)
    requires RowOk(k, row, n) && n <= n'
    ensures RowOk(k, row, n')
  {
  }

  lemma PushKeepsReplicaOk(r: Replica, s: Server, ops: seq<Op>, heard: bool)
    requires ServerOk(s) && ValidOps(ops) && ReplicaOk(r, s) && PushServer(s, ops).seqNo != s.seqNo
    ensures var s' := PushServer(s, ops);
            ReplicaOk(if heard then TakeRows(r, s'.seqNo, RowsSince(s'.rows, s.seqNo)) else r, s')
  {
    var s' := PushServer(s, ops);
    PushKeepsServerOk(s, ops);
    forall k | k in r.rows ensures RowOk(k, r.rows[k], s'.seqNo) {
      RowOkLater(k, r.rows[k], s.seqNo, s'.seqNo);
    }
  }

  lemma StepKeepsReplicasOk(w: World, e: Event)
    requires ServerOk(w.server) && ReplicasOk(w) && ValidEvent(e)
    ensures ReplicasOk(Step(w, e))
  {
    var w' := Step(w, e);
    match e
    case Push(ops, listeners) =>
      forall c | c in w'.replicas ensures ReplicaOk(w'.replicas[c], w'.server) {
        if w'.server.seqNo != w.server.seqNo {
          PushKeepsReplicaOk(w.replicas[c], w.server, ops, c in listeners);
        }
      }
    case Alarm(now) =>
    case Hello(client) =>
      var r := ReplicaOf(w, client);
      assert CopyOk(r.rows, w.server.seqNo);
  }

  lemma {:induction false} RunKeepsReplicasOk(w: World, events: seq<Event>)
    requires Inv(w) && ReplicasOk(w) && forall e :: e in events ==> ValidEvent(e)
    ensures ReplicasOk(Run(w, events))
    decreases events
  {
    if events != [] {
      StepKeepsInv(w, events[0]);
      StepKeepsReplicasOk(w, events[0]);
      RunKeepsReplicasOk(Step(w, events[0]), events[1..]);
    }
  }

  /** Somewhere in the run the row was a tombstone and an alarm purged it. */
  ghost predicate PurgedAt(events: seq<Event>, i: nat, k: Key) {
    && i < |events| && events[i].Alarm?
    && var before := Run(START, events[..i]).server.rows;
       k in before && before[k].deleted && k !in Run(START, events[..i + 1]).server.rows
  }

  lemma PrefixStep(events: seq<Event>, i: nat)
    requires i < |events|
    ensures Run(START, events[..i + 1]) == Step(Run(START, events[..i]), events[i])
  {
    assert events[..i + 1] == events[..i] + [events[i]];
    RunSnoc(START, events[..i], events[i]);
  }

  /** A row of a copy was in the table at some point of the run. */
  lemma {:induction false} CopiedWasStored(events: seq<Event>, n: nat, client: nat, k: Key) returns (i: nat)
    requires n <= |events| && k in ReplicaOf(Run(START, events[..n]), client).rows
    ensures i <= n && k in Run(START, events[..i]).server.rows
    decreases n
  {
    i := n;
    if n > 0 {
      PrefixStep(events, n - 1);
      var w := Run(START, events[..n - 1]);
      if k in ReplicaOf(w, client).rows {
        i := CopiedWasStored(events, n - 1, client, k);
      } else if events[n - 1].Hello? {
        assert k in w.server.rows;
        i := n - 1;
      }
    }
  }

  /** A row only leaves the table by a purge of its tombstone. */
  lemma {:induction false} GoneWasPurged(events: seq<Event>, i: nat, n: nat, k: Key) returns (p: nat)
    requires i <= n <= |events| && k in Run(START, events[..i]).server.rows && k !in Run(START, events[..n]).server.rows
    ensures PurgedAt(events, p, k)
    decreases n
  {
    PrefixStep(events, n - 1);
    var w := Run(START, events[..n - 1]);
    if k !in w.server.rows {
      p := GoneWasPurged(events, i, n - 1, k);
    } else {
      if events[n - 1].Push? {
        BatchTouches(w.server.rows, events[n - 1].ops, w.server.seqNo + 1, k);
      }
      p := n - 1;
    }
  }

  /** The client has a live copy of a row that the table no longer holds in any form. */
  ghost predicate HoldsLost(r: Replica, s: Server, k: Key) {
    k in r.rows && !r.rows[k].deleted && k !in s.rows
  }

  /**
   * In every run, a client that asks and pushes what the answer makes it seed brings back exactly the rows it still
   * held live and the table had lost, with their fields, and changes no row the table has. Each of them had been
   * deleted and purged, and the client's cursor was below the floor.
   */
  lemma ReseedRevivesExactly(events: seq<Event>, client: nat, batches: seq<seq<Op>>, k: Key)
    requires forall e :: e in events ==> ValidEvent(e)
    requires var w := Run(START, events);
             var r := ReplicaOf(w, client);
             r.cursor.Some? &&
             SeedsOf(Concat(batches), r.rows, Unseeded(r.rows, r.cursor.value, HelloAnswer(w.server, r.cursor)))
    ensures ValidOps(Concat(batches))
    ensures var w := Run(START, events);
            var r, t := ReplicaOf(w, client), PushAll(w.server, batches).rows;
            && (k in w.server.rows ==> k in t && t[k] == w.server.rows[k])
            && (k !in w.server.rows && k in t && !t[k].deleted <==> HoldsLost(r, w.server, k))
            && (HoldsLost(r, w.server, k) ==>
                  t[k].fields == r.rows[k].fields && r.cursor.value < w.server.gcFloor
                  && exists i :: PurgedAt(events, i, k))
  {
    var w := Run(START, events);
    var r := ReplicaOf(w, client);
    RunKeepsInv(START, events);
    RunKeepsReplicasOk(START, events);
    assert client in w.replicas && InStep(r, w.server) && ReplicaOk(r, w.server);
    assert InStepAt(r, w.server, k);
    SeedsAreValid(Concat(batches), r.rows, Unseeded(r.rows, r.cursor.value, HelloAnswer(w.server, r.cursor)),
                  w.server.seqNo);
    AnswersReseed(w.server, r, batches, k);
    if HoldsLost(r, w.server, k) {
      assert events[..|events|] == events;
      var i := CopiedWasStored(events, |events|, client, k);
      var p := GoneWasPurged(events, i, |events|, k);
    }
  }

  lemma AnswersReseed(s: Server, r: Replica, batches: seq<seq<Op>>, k: Key)
    requires ServerOk(s) && InStep(r, s) && ReplicaOk(r, s)
    requires SeedsOf(Concat(batches), r.rows, Unseeded(r.rows, r.cursor.value, HelloAnswer(s, r.cursor)))
    ensures var t := PushAll(s, batches).rows;
            && (k in s.rows ==> k in t && t[k] == s.rows[k])
            && (k !in s.rows && k in t && !t[k].deleted <==> HoldsLost(r, s, k))
            && (HoldsLost(r, s, k) ==> t[k].fields == r.rows[k].fields)
  {
    var frame := HelloAnswer(s, r.cursor);
    assert InStepAt(r, s, k);
    if frame.full {
      FullAnswerIsTheTable(s, r.cursor);
      ReseedAddsExactly(s, r.rows, s.seqNo, batches, k);
    } else {
      HeadIsMember(Concat(batches));
      NothingPushed(s, batches);
    }
  }

  lemma FullAnswerIsTheTable(s: Server, cursor: Option<nat>)
    requires ServerOk(s) && HelloAnswer(s, cursor).full
    ensures HelloAnswer(s, cursor).rows == s.rows
  {
    assert forall k :: k in s.rows ==> RowOk(k, s.rows[k], s.seqNo);
  }

  lemma HeadIsMember(ops: seq<Op>)
    ensures ops != [] ==> ops[0] in ops
  {
  }

  lemma {:induction false} NothingPushed(s: Server, batches: seq<seq<Op>>)
    requires Concat(batches) == []
    ensures PushAll(s, batches) == s
    decreases batches
  {
    if batches != [] {
      NothingPushed(PushServer(s, batches[0]), batches[1..]);
    }
  }

  // ---------- a run in which it happens ----------

  lemma OnePush(s: Server, op: Op)
    requires ApplyOp(Lookup(s.rows, KeyOf(op)), op).changed && ApplyOp(Lookup(s.rows, KeyOf(op)), op).row.Some?
    ensures var r := ApplyOp(Lookup(s.rows, KeyOf(op)), op).row.value.(stamp := s.seqNo + 1);
            PushServer(s, [op]) == Server(s.rows[KeyOf(op) := r], s.seqNo + 1, s.gcFloor, true)
  {
    assert [op][1..] == [];
    assert Batch(s.rows, [op], s.seqNo + 1) == Batch(StepRow(s.rows, op, s.seqNo + 1), [], s.seqNo + 1);
    assert AppliedCount(s.rows, [op], s.seqNo + 1) == 1;
  }

  ghost function CreateOf(kind: string, id: string): Op {
    Op(kind, id, Upsert, map["a" := Some("1")], EncodeHlc(0, 0, "a"), map[])
  }

  ghost function BuryOf(kind: string, id: string): Op {
    Op(kind, id, Delete, map[], EncodeHlc(0, 0, "b"), map[])
  }

  /** A client copies a new row, misses its delete, and stays away until the tombstone is purged. */
  ghost function AwayRun(kind: string, id: string, now: nat): seq<Event> {
    [Push([CreateOf(kind, id)], {}), Hello(1), Push([BuryOf(kind, id)], {}), Alarm(now)]
  }

  lemma FourSteps(w: World, a: Event, b: Event, c: Event, d: Event)
    ensures Run(w, [a, b, c, d]) == Step(Step(Step(Step(w, a), b), c), d)
  {
    RunSnoc(w, [a, b, c], d);
    RunSnoc(w, [a, b], c);
    RunSnoc(w, [a], b);
    RunSnoc(w, [], a);
    assert [a, b, c] + [d] == [a, b, c, d] && [a, b] + [c] == [a, b, c] && [a] + [b] == [a, b] && [] + [a] == [a];
  }

  lemma AwayRunEndsStale(kind: string, id: string, now: nat)
    requires 0 < now - TOMBSTONE_RETAIN_MS < Pow10(MS_WIDTH)
    ensures var row := ApplyOp(None, CreateOf(kind, id)).row.value.(stamp := 1);
            Run(START, AwayRun(kind, id, now)) ==
            World(Server(map[], 2, 2, false), map[1 := Replica(map[Key(kind, id) := row], Some(1))])
  {
    var create, bury := CreateOf(kind, id), BuryOf(kind, id);
    var s1 := PushServer(EMPTY_SERVER, [create]);
    OnePush(EMPTY_SERVER, create);
    BuryOfBuries(kind, id, s1);
    var s2 := PushServer(s1, [bury]);
    var copy := Replica(s1.rows, Some(1));
    assert Step(START, Push([create], {})) == World(s1, map[]);
    assert RowsSince(s1.rows, 0) == s1.rows;
    assert Step(World(s1, map[]), Hello(1)) == World(s1, map[1 := copy]);
    assert Step(World(s1, map[1 := copy]), Push([bury], {})) == World(s2, map[1 := copy]);
    BuriedIsPurged(kind, id, s2, now);
    FourSteps(START, Push([create], {}), Hello(1), Push([bury], {}), Alarm(now));
  }

  /** After its delete is collected, a stale client's seed brings the row back. */
  lemma PurgedRowComesBack(kind: string, id: string, now: nat)
    requires ValidKind(kind) && 0 < now - TOMBSTONE_RETAIN_MS < Pow10(MS_WIDTH)
    ensures var w, k := Run(START, AwayRun(kind, id, now)), Key(kind, id);
            var r := ReplicaOf(w, 1);
            && (forall e :: e in AwayRun(kind, id, now) ==> ValidEvent(e))
            && HelloAnswer(w.server, r.cursor).full && HoldsLost(r, w.server, k)
            && var t := PushAll(w.server, [[RowToSeedOp(r.rows[k])]]).rows; k in t && !t[k].deleted
  {
    AwayRunIsValid(kind, id, now);
    AwayRunEndsStale(kind, id, now);
    var w := Run(START, AwayRun(kind, id, now));
    var seed := RowToSeedOp(ReplicaOf(w, 1).rows[Key(kind, id)]);
    OnePush(w.server, seed);
    assert [[seed]][1..] == [];
    assert PushAll(w.server, [[seed]]) == PushAll(PushServer(w.server, [seed]), []) == PushServer(w.server, [seed]);
  }

  lemma AwayRunIsValid(kind: string, id: string, now: nat)
    requires ValidKind(kind)
    ensures forall e :: e in AwayRun(kind, id, now) ==> ValidEvent(e)
  {
    assert InRange(0, 0);
    ValidEncodings(0, 0, "a");
    ValidEncodings(0, 0, "b");
  }

  lemma BuryOfBuries(kind: string, id: string, s: Server)
    requires var r := ApplyOp(None, CreateOf(kind, id)).row;
             s == Server(map[Key(kind, id) := r.value.(stamp := 1)], 1, 0, true)
    ensures var s' := PushServer(s, [BuryOf(kind, id)]);
            && s'.seqNo == 2 && s'.gcFloor == 0 && s'.dirty && s'.rows.Keys == {Key(kind, id)}
            && s'.rows[Key(kind, id)].stamp == 2 && s'.rows[Key(kind, id)].deleted
            && s'.rows[Key(kind, id)].delHlc == Some(EncodeHlc(0, 0, "b"))
  {
    var k, bury := Key(kind, id), BuryOf(kind, id);
    var r := s.rows[k];
    assert InRange(0, 0) && Less("a", "b");
    EncodingKeepsOrder(0, 0, "a", 0, 0, "b");
    forall c | c in ClockSet(r) ensures c == EncodeHlc(0, 0, "a") {
      var f :| f in r.clocks && r.clocks[f] == c;
      assert Get(r.clocks, f) == ClockAfter(map[], CreateOf(kind, id), f);
    }
    BeatsMaxClock(bury.hlc, r);
    OnePush(s, bury);
  }

  lemma BuriedIsPurged(kind: string, id: string, s: Server, now: nat)
    requires 0 < now - TOMBSTONE_RETAIN_MS < Pow10(MS_WIDTH)
    requires s.seqNo == 2 && s.gcFloor == 0 && s.dirty && s.rows.Keys == {Key(kind, id)}
    requires var r := s.rows[Key(kind, id)]; r.stamp == 2 && r.deleted && r.delHlc == Some(EncodeHlc(0, 0, "b"))
    ensures AlarmServer(s, now) == Server(map[], 2, 2, false)
  {
    assert InRange(0, 0);
    HorizonSelectsOlderClocks(0, 0, "b", now - TOMBSTONE_RETAIN_MS);
    var doomed := DoomedKeys(s.rows, HorizonHlc(now - TOMBSTONE_RETAIN_MS));
    assert doomed == s.rows.Keys;
    assert s.rows - doomed == map[];
  }
}
