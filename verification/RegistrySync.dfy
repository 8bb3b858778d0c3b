/**
 * Replicas of the registry (edge/src/registry-room.ts:312-335, crates/doc/src/registry.rs:442-537): clients
 * that join, take hello answers and live broadcasts, and fall behind, while rows are pushed and tombstones purged.
 */
module RegistrySync {
  import opened Options
  import opened RegistryCore
  import opened RegistryTable

  /** A client's copy of the table, and the counter up to which it claims to have every row. */
  datatype Replica = Replica(rows: Table, cursor: Option<nat>)

  datatype World = World(server: Server, replicas: map<nat, Replica>)

  /** A push reaches the live sockets in `listeners`; any other client misses its broadcast. */
  datatype Event =
    | Push(ops: seq<Op>, listeners: set<nat>)
    | Alarm(now: nat)
    | Hello(client: nat)

  const START := World(EMPTY_SERVER, map[])

  function ReplicaOf(w: World, client: nat): Replica {
    if client in w.replicas then w.replicas[client] else Replica(map[], None)
  }

  /** Taking a hello answer: replace on `full`, otherwise overwrite by key; the cursor moves to the server's counter. */
  function TakeState(r: Replica, frame: StateFrame): Replica {
    Replica(if frame.full then frame.rows else r.rows + frame.rows, Some(frame.seqNo))
  }

  /** Taking a broadcast: the rows always land; a gap holds the cursor, otherwise it moves up to the batch. */
  function TakeRows(r: Replica, seqNo: nat, rows: Table): Replica {
    var next := match r.cursor
      case None => None
      case Some(c) => if seqNo > c + 1 then Some(c) else if seqNo > c then Some(seqNo) else Some(c);
    Replica(r.rows + rows, next)
  }

  ghost function Step(w: World, e: Event): World {
    match e
    case Push(ops, listeners) =>
      var s := PushServer(w.server, ops);
      if s.seqNo == w.server.seqNo then w
      else
        var delta := RowsSince(s.rows, w.server.seqNo);
        World(s, map c | c in w.replicas ::
          if c in listeners then TakeRows(w.replicas[c], s.seqNo, delta) else w.replicas[c])
    case Alarm(now) => w.(server := AlarmServer(w.server, now))
    case Hello(client) =>
      var r := ReplicaOf(w, client);
      w.(replicas := w.replicas[client := TakeState(r, HelloAnswer(w.server, r.cursor))])
  }

  ghost function Run(w: World, events: seq<Event>): World
    decreases events
  {
    if events == [] then w else Run(Step(w, events[0]), events[1..])
  }

  ghost predicate ValidEvent(e: Event) {
    e.Push? ==> ValidOps(e.ops)
  }

  // ---------- the invariant ----------

  /**
   * What a cursor promises: every stored row up to it is in the copy, and a live row of the copy that the
   * table has lost puts the cursor below the collection floor.
   */
  ghost predicate InStepAt(r: Replica, s: Server, k: Key) {
    r.cursor.Some? ==>
      && (k in s.rows && s.rows[k].stamp <= r.cursor.value ==> k in r.rows && r.rows[k] == s.rows[k])
      && (k in r.rows && !r.rows[k].deleted && k !in s.rows ==> r.cursor.value < s.gcFloor)
  }

  ghost predicate InStep(r: Replica, s: Server) {
    && (r.cursor.Some? ==> r.cursor.value <= s.seqNo)
    && forall k :: InStepAt(r, s, k)
  }

  ghost predicate Inv(w: World) {
    && ServerOk(w.server)
    && forall c :: c in w.replicas ==> InStep(w.replicas[c], w.server)
  }

  lemma MissedPushKeepsStep(r: Replica, s: Server, ops: seq<Op>)
    requires ServerOk(s) && ValidOps(ops) && InStep(r, s)
    ensures InStep(r, PushServer(s, ops))
  {
    forall k ensures InStepAt(r, PushServer(s, ops), k) {
      assert InStepAt(r, s, k);
      BatchTouches(s.rows, ops, s.seqNo + 1, k);
    }
  }

  lemma HeardPushKeepsStep(r: Replica, s: Server, ops: seq<Op>)
    requires ServerOk(s) && ValidOps(ops) && InStep(r, s)
    requires PushServer(s, ops).seqNo != s.seqNo
    ensures var s' := PushServer(s, ops); InStep(TakeRows(r, s'.seqNo, RowsSince(s'.rows, s.seqNo)), s')
  {
    var s' := PushServer(s, ops);
    var r' := TakeRows(r, s'.seqNo, RowsSince(s'.rows, s.seqNo));
    forall k ensures InStepAt(r', s', k) {
      assert InStepAt(r, s, k);
      BatchTouches(s.rows, ops, s.seqNo + 1, k);
    }
  }

  /**
   * Purging is safe for every copy: a live row it strands lies above the copy's cursor, so the floor passes the
   * cursor.
   */
  lemma AlarmKeepsStep(r: Replica, s: Server, now: nat)
    requires ServerOk(s) && InStep(r, s)
    ensures InStep(r, AlarmServer(s, now))
  {
    forall k ensures InStepAt(r, AlarmServer(s, now), k) {
      assert InStepAt(r, s, k);
    }
  }

  /** The answer to a hello brings the copy fully up to date. */
  lemma HelloBringsUpToDate(r: Replica, s: Server)
    requires ServerOk(s) && InStep(r, s)
    ensures var r' := TakeState(r, HelloAnswer(s, r.cursor)); InStep(r', s) && r'.cursor == Some(s.seqNo)
  {
    var r' := TakeState(r, HelloAnswer(s, r.cursor));
    forall k ensures InStepAt(r', s, k) {
      assert InStepAt(r, s, k);
    }
  }

  lemma StepKeepsInv(w: World, e: Event)
    requires Inv(w) && ValidEvent(e)
    ensures Inv(Step(w, e))
  {
    var w' := Step(w, e);
    match e
    case Push(ops, listeners) =>
      PushKeepsServerOk(w.server, ops);
      forall c | c in w'.replicas ensures InStep(w'.replicas[c], w'.server) {
        if w'.server.seqNo != w.server.seqNo && c in listeners {
          HeardPushKeepsStep(w.replicas[c], w.server, ops);
        } else {
          MissedPushKeepsStep(w.replicas[c], w.server, ops);
        }
      }
    case Alarm(now) =>
      AlarmKeepsServerOk(w.server, now);
      forall c | c in w'.replicas ensures InStep(w'.replicas[c], w'.server) {
        AlarmKeepsStep(w.replicas[c], w.server, now);
      }
    case Hello(client) =>
      HelloBringsUpToDate(ReplicaOf(w, client), w.server);
  }

  lemma {:induction false} RunKeepsInv(w: World, events: seq<Event>)
    requires Inv(w) && forall e :: e in events ==> ValidEvent(e)
    ensures Inv(Run(w, events))
    decreases events
  {
    if events != [] {
      StepKeepsInv(w, events[0]);
      RunKeepsInv(Step(w, events[0]), events[1..]);
    }
  }

  // ---------- the theorems ----------

  function LiveRows(t: Table): Table {
    map k | k in t && !t[k].deleted :: t[k]
  }

  lemma CaughtUpMeansEqual(r: Replica, s: Server)
    requires ServerOk(s) && InStep(r, s) && r.cursor == Some(s.seqNo)
    ensures LiveRows(r.rows) == LiveRows(s.rows)
  {
    forall k ensures k in LiveRows(r.rows) <==> k in LiveRows(s.rows) {
      assert InStepAt(r, s, k);
      assert k in s.rows ==> RowOk(k, s.rows[k], s.seqNo);
    }
    forall k | k in LiveRows(r.rows) ensures LiveRows(r.rows)[k] == LiveRows(s.rows)[k] {
      assert InStepAt(r, s, k);
      assert k in LiveRows(s.rows);
      assert RowOk(k, s.rows[k], s.seqNo);
    }
  }

  /** In every run, a replica whose cursor is the server's counter holds exactly the live rows of the table. */
  lemma CaughtUpReplicasAreExact(events: seq<Event>, client: nat)
    requires forall e :: e in events ==> ValidEvent(e)
    ensures var w := Run(START, events);
            ReplicaOf(w, client).cursor == Some(w.server.seqNo) ==>
              LiveRows(ReplicaOf(w, client).rows) == LiveRows(w.server.rows)
  {
    RunKeepsInv(START, events);
    var w := Run(START, events);
    if ReplicaOf(w, client).cursor == Some(w.server.seqNo) {
      CaughtUpMeansEqual(ReplicaOf(w, client), w.server);
    }
  }

  lemma {:induction false} RunSnoc(w: World, events: seq<Event>, e: Event)
    ensures Run(w, events + [e]) == Step(Run(w, events), e)
    decreases events
  {
    if events == [] {
      assert [e][1..] == [];
    } else {
      assert (events + [e])[1..] == events[1..] + [e];
      RunSnoc(Step(w, events[0]), events[1..], e);
    }
  }

  /**
   * Delta sync is sound across tombstone collection: however pushes, alarms and other clients' syncs interleave,
   * a client that takes the hello answer holds exactly the live rows of the table.
   */
  lemma HelloIsExact(events: seq<Event>, client: nat)
    requires forall e :: e in events ==> ValidEvent(e)
    ensures var w := Run(START, events + [Hello(client)]);
            LiveRows(ReplicaOf(w, client).rows) == LiveRows(w.server.rows)
  {
    RunSnoc(START, events, Hello(client));
    RunKeepsInv(START, events);
    var w := Run(START, events);
    HelloBringsUpToDate(ReplicaOf(w, client), w.server);
    CaughtUpMeansEqual(TakeState(ReplicaOf(w, client), HelloAnswer(w.server, ReplicaOf(w, client).cursor)), w.server);
  }

  /** A client that hears every broadcast after its hello stays exact without asking again. */
  lemma HeardPushKeepsReplicaCaughtUp(w: World, ops: seq<Op>, listeners: set<nat>, client: nat)
    requires Inv(w) && ValidOps(ops) && client in w.replicas && client in listeners
    requires w.replicas[client].cursor == Some(w.server.seqNo)
    ensures var w' := Step(w, Push(ops, listeners));
            && w'.replicas[client].cursor == Some(w'.server.seqNo)
            && LiveRows(w'.replicas[client].rows) == LiveRows(w'.server.rows)
  {
    StepKeepsInv(w, Push(ops, listeners));
    CaughtUpMeansEqual(Step(w, Push(ops, listeners)).replicas[client], Step(w, Push(ops, listeners)).server);
  }
}
