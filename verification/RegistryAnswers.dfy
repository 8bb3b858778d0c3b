/**
 * What a hello is answered with (edge/src/registry-room.ts:312-335), in every run: the rows that changed since the
 * client's cursor and nothing else, unless rows it may not have heard of were purged; and a broadcast reaches the
 * copies of those who hear it, gap or no gap (crates/doc/src/registry.rs:505-528).
 */
module RegistryAnswers {
  import opened Options
  import opened Hlc
  import opened RegistryCore
  import opened RegistryTable
  import opened RegistrySync
  import opened RegistryReseed

  ghost predicate ValidRun(events: seq<Event>) {
    forall e :: e in events ==> ValidEvent(e)
  }

  /** The server before event `i`. */
  ghost function ServerAt(events: seq<Event>, i: nat): Server
    requires i <= |events|
  {
    Run(START, events[..i]).server
  }

  lemma ServerAtStep(events: seq<Event>, i: nat)
    requires ValidRun(events) && i < |events|
    ensures ServerOk(ServerAt(events, i)) && ServerOk(ServerAt(events, i + 1))
    ensures ServerAt(events, i + 1) == Step(Run(START, events[..i]), events[i]).server
  {
    PrefixStep(events, i);
    assert forall e :: e in events[..i] ==> e in events;
    assert forall e :: e in events[..i + 1] ==> e in events;
    RunKeepsInv(START, events[..i]);
    RunKeepsInv(START, events[..i + 1]);
  }

  // ---------- the rows of an answer are the changed ones ----------

  /** Event `j` is a push that changes the row of `k`. */
  ghost predicate ChangedAt(events: seq<Event>, j: nat, k: Key) {
    && j < |events| && events[j].Push?
    && Lookup(ServerAt(events, j + 1).rows, k) != Lookup(ServerAt(events, j).rows, k)
  }

  ghost predicate ChangedSince(events: seq<Event>, i: nat, n: nat, k: Key) {
    exists j :: i <= j < n && ChangedAt(events, j, k)
  }

  lemma ChangedSinceStep(events: seq<Event>, i: nat, n: nat, k: Key)
    requires i <= n < |events|
    ensures ChangedSince(events, i, n + 1, k) <==> ChangedSince(events, i, n, k) || ChangedAt(events, n, k)
  {
  }

  /** A row is stamped past the counter of an earlier moment exactly when a push has changed it since. */
  lemma {:induction false} StampsMarkChanges(events: seq<Event>, i: nat, n: nat, k: Key)
    requires ValidRun(events) && i <= n <= |events|
    ensures ServerAt(events, i).seqNo <= ServerAt(events, n).seqNo
    ensures k in ServerAt(events, n).rows ==>
              (ServerAt(events, n).rows[k].stamp > ServerAt(events, i).seqNo <==> ChangedSince(events, i, n, k))
    decreases n - i
  {
    var s := ServerAt(events, n);
    if n == i {
      assert forall e :: e in events[..n] ==> e in events;
      RunKeepsInv(START, events[..n]);
      assert k in s.rows ==> RowOk(k, s.rows[k], s.seqNo);
    } else {
      var before, e := ServerAt(events, n - 1), events[n - 1];
      StampsMarkChanges(events, i, n - 1, k);
      ServerAtStep(events, n - 1);
      ChangedSinceStep(events, i, n - 1, k);
      if e.Push? {
        assert e in events;
        BroadcastIsTheDelta(before, e.ops, k);
        BatchTouches(before.rows, e.ops, before.seqNo + 1, k);
      }
    }
  }

  /** The counter passes through every value up to the present one. */
  lemma {:induction false} CounterWas(events: seq<Event>, n: nat, c: nat) returns (i: nat)
    requires ValidRun(events) && n <= |events| && c <= ServerAt(events, n).seqNo
    ensures i <= n && ServerAt(events, i).seqNo == c
    decreases n
  {
    i := n;
    if ServerAt(events, n).seqNo != c {
      assert n > 0 by { assert events[..0] == []; }
      ServerAtStep(events, n - 1);
      i := CounterWas(events, n - 1, c);
    }
  }

  /**
   * In every run, a cursor from the floor up to the counter is answered with a delta: exactly the rows that pushes have
   * changed since the counter stood there, as they are now. Such an answer asks the client to seed nothing.
   */
  lemma AnswerIsTheDelta(events: seq<Event>, c: nat, copy: Table) returns (i: nat)
    requires ValidRun(events)
    requires var s := Run(START, events).server; s.gcFloor <= c <= s.seqNo
    ensures i <= |events| && ServerAt(events, i).seqNo == c
    ensures var s := Run(START, events).server;
            var frame := HelloAnswer(s, Some(c));
            && !frame.full && Unseeded(copy, c, frame) == copy.Keys
            && (forall k :: k in frame.rows <==> k in s.rows && ChangedSince(events, i, |events|, k))
            && (forall k :: k in frame.rows ==> frame.rows[k] == s.rows[k])
  {
    assert events[..|events|] == events;
    i := CounterWas(events, |events|, c);
    var s := Run(START, events).server;
    forall k | k in s.rows ensures s.rows[k].stamp > c <==> ChangedSince(events, i, |events|, k) {
      StampsMarkChanges(events, i, |events|, k);
    }
  }

  /** Asking twice in a row brings nothing the second time: an empty delta. */
  lemma SecondHelloIsEmpty(events: seq<Event>, client: nat)
    requires ValidRun(events)
    ensures var w := Run(START, events + [Hello(client)]);
            HelloAnswer(w.server, ReplicaOf(w, client).cursor) ==
            StateFrame(w.server.seqNo, false, w.server.gcFloor, map[])
  {
    RunSnoc(START, events, Hello(client));
    RunKeepsInv(START, events);
    var s := Run(START, events).server;
    assert ServerOk(s);
    forall k ensures k !in RowsSince(s.rows, s.seqNo) {
      assert k in s.rows ==> RowOk(k, s.rows[k], s.seqNo);
    }
    assert RowsSince(s.rows, s.seqNo) == map[];
  }

  // ---------- the floor ----------

  /** Before event `n` an alarm purged the row of `k`, whose last change was batch `stamp`. */
  ghost predicate PurgedBefore(events: seq<Event>, n: nat, i: nat, k: Key, stamp: nat) {
    i < n <= |events| && PurgedAt(events, i, k) && ServerAt(events, i).rows[k].stamp == stamp
  }

  /** The floor covers every purge so far, and is reached by one if there was any. */
  ghost predicate FloorIs(events: seq<Event>, n: nat, floor: nat) {
    && (forall i: nat, k: Key, stamp: nat :: PurgedBefore(events, n, i, k, stamp) ==> stamp <= floor)
    && (floor > 0 ==> exists i: nat, k: Key :: PurgedBefore(events, n, i, k, floor))
  }

  lemma FloorStaysPut(events: seq<Event>, n: nat, floor: nat)
    requires n < |events| && FloorIs(events, n, floor) && forall k :: !PurgedAt(events, n, k)
    ensures FloorIs(events, n + 1, floor)
  {
    var next := n + 1;
    forall i: nat, k: Key, stamp: nat | PurgedBefore(events, next, i, k, stamp) ensures stamp <= floor {
      assert i != n;
      assert PurgedBefore(events, n, i, k, stamp);
    }
    if floor > 0 {
      var i: nat, k: Key :| PurgedBefore(events, n, i, k, floor);
      assert PurgedBefore(events, n + 1, i, k, floor);
    }
  }

  lemma FloorRises(events: seq<Event>, n: nat, now: nat)
    requires ValidRun(events) && n < |events| && events[n] == Alarm(now)
    requires FloorIs(events, n, ServerAt(events, n).gcFloor)
    ensures FloorIs(events, n + 1, ServerAt(events, n + 1).gcFloor)
  {
    var s, s' := ServerAt(events, n), ServerAt(events, n + 1);
    ServerAtStep(events, n);
    AlarmRaisesFloorExactly(s, now);
    forall k ensures PurgedAt(events, n, k) <==> k in s.rows && k !in s'.rows {
      assert k in s.rows && k !in s'.rows ==> s.rows[k].deleted;
    }
    var next := n + 1;
    forall i: nat, k: Key, stamp: nat | PurgedBefore(events, next, i, k, stamp) ensures stamp <= s'.gcFloor {
      if i < n {
        assert PurgedBefore(events, n, i, k, stamp);
      }
    }
    if s'.gcFloor == s.gcFloor > 0 {
      var i: nat, k: Key :| PurgedBefore(events, n, i, k, s.gcFloor);
      assert PurgedBefore(events, n + 1, i, k, s'.gcFloor);
    } else if s'.gcFloor > 0 {
      var k :| k in s.rows && k !in s'.rows && s.rows[k].stamp == s'.gcFloor;
      assert PurgedBefore(events, n + 1, n, k, s'.gcFloor);
    }
  }

  /** In every run the collection floor is the newest stamp ever purged. */
  lemma {:induction false} FloorIsNewestPurged(events: seq<Event>, n: nat)
    requires ValidRun(events) && n <= |events|
    ensures FloorIs(events, n, ServerAt(events, n).gcFloor)
    decreases n
  {
    if n == 0 {
      assert events[..0] == [];
    } else {
      FloorIsNewestPurged(events, n - 1);
      ServerAtStep(events, n - 1);
      if events[n - 1].Alarm? {
        FloorRises(events, n - 1, events[n - 1].now);
      } else {
        FloorStaysPut(events, n - 1, ServerAt(events, n - 1).gcFloor);
      }
    }
  }

  /**
   * In every run a client's answer is full exactly when it has not asked before, or a row whose last change lies past
   * its cursor was purged, so that a delta could not tell of it.
   */
  lemma AnswerIsFullExactly(events: seq<Event>, client: nat)
    requires ValidRun(events)
    ensures var w := Run(START, events);
            var cursor := ReplicaOf(w, client).cursor;
            HelloAnswer(w.server, cursor).full <==>
            cursor.None?
            || exists i: nat, k: Key, stamp: nat ::
                PurgedBefore(events, |events|, i, k, stamp) && stamp > cursor.value
  {
    assert events[..|events|] == events;
    FloorIsNewestPurged(events, |events|);
    RunKeepsInv(START, events);
    var w := Run(START, events);
    var cursor := ReplicaOf(w, client).cursor;
    if cursor.Some? {
      assert InStep(ReplicaOf(w, client), w.server);
      if cursor.value < w.server.gcFloor {
        var i: nat, k: Key :| PurgedBefore(events, |events|, i, k, w.server.gcFloor);
      }
    }
  }

  // ---------- when the alarm has work ----------

  /** Event `j` is a push that applied something. */
  ghost predicate AppliesAt(events: seq<Event>, j: nat) {
    j < |events| && events[j].Push? && exists k :: ChangedAt(events, j, k)
  }

  /** Some push has applied since the last alarm before event `n`. */
  ghost predicate PushedSinceAlarm(events: seq<Event>, n: nat) {
    exists j: nat :: LatestWork(events, j, n)
  }

  ghost predicate LatestWork(events: seq<Event>, j: nat, n: nat) {
    j < n <= |events| && AppliesAt(events, j) && forall l :: j < l < n ==> !events[l].Alarm?
  }

  lemma {:induction false} DirtyMeansPushed(events: seq<Event>, n: nat)
    requires ValidRun(events) && n <= |events|
    ensures ServerAt(events, n).dirty <==> PushedSinceAlarm(events, n)
    decreases n
  {
    if n == 0 {
      assert events[..0] == [];
    } else {
      var m := n - 1;
      var s, e := ServerAt(events, m), events[m];
      DirtyMeansPushed(events, m);
      ServerAtStep(events, m);
      WorkStep(events, m);
      if e.Push? {
        PushMeansWork(events, m);
      } else if e.Alarm? {
        AlarmRaisesFloorExactly(s, e.now);
      }
    }
  }

  lemma WorkStep(events: seq<Event>, m: nat)
    requires m < |events|
    ensures PushedSinceAlarm(events, m + 1) <==>
            AppliesAt(events, m) || (!events[m].Alarm? && PushedSinceAlarm(events, m))
  {
    var n := m + 1;
    if AppliesAt(events, m) {
      assert LatestWork(events, m, n);
    }
    forall j: nat | j < m ensures LatestWork(events, j, n) <==> !events[m].Alarm? && LatestWork(events, j, m) {
    }
  }

  lemma PushMeansWork(events: seq<Event>, m: nat)
    requires ValidRun(events) && m < |events| && events[m].Push?
    ensures ServerAt(events, m + 1).dirty <==> ServerAt(events, m).dirty || AppliesAt(events, m)
  {
    var s, s', ops := ServerAt(events, m), ServerAt(events, m + 1), events[m].ops;
    ServerAtStep(events, m);
    assert events[m] in events;
    PushAppliesNothingExactly(s.rows, ops, s.seqNo + 1);
    if s'.seqNo != s.seqNo {
      SomethingIsStamped(s.rows, ops, s.seqNo + 1);
      var k :| k in s'.rows && s'.rows[k].stamp == s.seqNo + 1;
      assert k in s.rows ==> RowOk(k, s.rows[k], s.seqNo);
      assert ChangedAt(events, m, k);
    } else {
      assert forall k :: !ChangedAt(events, m, k);
    }
  }

  /** A batch that applies something stamps a row. */
  lemma {:induction false} SomethingIsStamped(t: Table, ops: seq<Op>, stamp: nat)
    requires AppliedCount(t, ops, stamp) > 0
    ensures exists k :: k in Batch(t, ops, stamp) && Batch(t, ops, stamp)[k].stamp == stamp
    decreases ops
  {
    var t' := StepRow(t, ops[0], stamp);
    var after := Batch(t', ops[1..], stamp);
    assert Batch(t, ops, stamp) == after;
    if Applies(t, ops[0]) > 0 {
      var k := KeyOf(ops[0]);
      assert k in t' && t'[k].stamp == stamp;
      BatchTouches(t', ops[1..], stamp, k);
      assert k in after && after[k].stamp == stamp;
    } else {
      SomethingIsStamped(t', ops[1..], stamp);
      var k :| k in after && after[k].stamp == stamp;
    }
  }

  /**
   * In every run an alarm purges exactly the tombstones past their retention, provided some push has applied since the
   * alarm before; otherwise it purges nothing, however old they are.
   */
  lemma AlarmCollectsExactly(events: seq<Event>, now: nat, k: Key)
    requires ValidRun(events) && now - TOMBSTONE_RETAIN_MS < Pow10(MS_WIDTH)
    requires k in Run(START, events).server.rows
    ensures var s := Run(START, events).server;
            var row := s.rows[k];
            k !in Run(START, events + [Alarm(now)]).server.rows <==>
            PushedSinceAlarm(events, |events|)
            && row.deleted && row.delHlc.Some? && ValidHlc(row.delHlc.value)
            && MsOf(row.delHlc.value) + 30 * 24 * 60 * 60 * 1000 < now
  {
    assert events[..|events|] == events;
    DirtyMeansPushed(events, |events|);
    RunKeepsInv(START, events);
    RunSnoc(START, events, Alarm(now));
    AlarmPurgesExactlyOldTombstones(Run(START, events).server, now, k);
  }

  // ---------- broadcasts ----------

  /** In every state, a client that hears a push has the rows it changed as the table has them, even past a gap. */
  lemma HeardRowsLand(w: World, ops: seq<Op>, listeners: set<nat>, client: nat, k: Key)
    requires Inv(w) && ValidOps(ops) && client in w.replicas && client in listeners
    ensures var w' := Step(w, Push(ops, listeners));
            if Lookup(w'.server.rows, k) != Lookup(w.server.rows, k)
            then Lookup(w'.replicas[client].rows, k) == Lookup(w'.server.rows, k)
            else Lookup(w'.replicas[client].rows, k) == Lookup(w.replicas[client].rows, k)
  {
    BroadcastIsTheDelta(w.server, ops, k);
    BatchTouches(w.server.rows, ops, w.server.seqNo + 1, k);
    PushAppliesNothingExactly(w.server.rows, ops, w.server.seqNo + 1);
  }
}
