/**
 * Redelivery of registry operations and batches (edge/src/registry-core.ts:109-161, edge/src/registry-room.ts:218-243):
 * when applying an operation a second time, after whatever pushes and alarms came in between, changes nothing.
 */
module RegistryRedelivery {
  import opened Options
  import opened Hlc
  import opened RegistryCore
  import opened RegistryMerge
  import opened RegistryHistory
  import opened RegistryTable

  // ---------- one row ----------

  /** No valid clock lies strictly between `m` and `h`: a delete that beats `m` is then not older than `h`. */
  ghost predicate NoClockBetween(m: Option<Hlc>, h: Hlc) {
    forall c :: ValidHlc(c) && HlcNewer(c, m) ==> !Before(c, h)
  }

  /** Applying `op` to the row changes nothing, now and after anything that does not revive the row. */
  ghost predicate Spent(row: Option<Row>, op: Op) {
    match op.op
    case Delete => row.Some? && NotOlder(MaxClock(row.value), Some(op.hlc))
    case Update => op.writes == map[] || (row.Some? && (row.value.deleted || Settled(row.value, op)))
    case Upsert =>
      && row.Some?
      && if row.value.deleted then !HlcNewer(op.hlc, row.value.delHlc)
         else Settled(row.value, op) && NoClockBetween(MaxClock(row.value), op.hlc)
  }

  ghost predicate Sound(row: Option<Row>) {
    row.Some? ==> WellFormed(row.value) && ValidClocks(row.value.delHlc, row.value.clocks)
  }

  ghost predicate ValidOpClocks(op: Op) {
    ValidClocks(Some(op.hlc), op.clocks)
  }

  ghost predicate Revives(row: Option<Row>, op: Op) {
    row.Some? && row.value.deleted && ApplyOp(row, op).row.Some? && !ApplyOp(row, op).row.value.deleted
  }

  lemma DeletedMaxClock(r: Row)
    requires WellFormed(r) && r.deleted
    ensures MaxClock(r) == r.delHlc
  {
    assert r.clocks.Values == {};
    assert ClockSet(r) == {r.delHlc.value};
  }

  /** A spent operation applies to nothing. */
  lemma SpentIsNoOp(row: Option<Row>, op: Op)
    requires Sound(row) && Spent(row, op)
    ensures ApplyOp(row, op) == ApplyResult(row, false)
  {
    match op.op
    case Delete => DeleteMisses(row.value, op);
    case Update => if row.Some? && !row.value.deleted { SettledIsNoOp(row.value, op); }
    case Upsert => if !row.value.deleted { SettledIsNoOp(row.value, op); }
  }

  lemma SpentUnderDelete(r: Row, op: Op, next: Op)
    requires Sound(Some(r)) && Spent(Some(r), op) && next.op.Delete? && ValidOpClocks(next)
    ensures Spent(ApplyOp(Some(r), next).row, op)
  {
    ClocksAreTotallyOrdered();
    if ApplyOp(Some(r), next).changed {
      var r' := ApplyOp(Some(r), next).row.value;
      MaxClockNeverDecreases(r, next);
      if op.op.Upsert? && r.deleted {
        assert HlcNewer(next.hlc, r.delHlc);
      }
    }
  }

  lemma SpentUnderWrite(r: Row, op: Op, next: Op)
    requires Sound(Some(r)) && Spent(Some(r), op) && !next.op.Delete? && !Revives(Some(r), next)
    ensures Spent(ApplyOp(Some(r), next).row, op)
  {
    ClocksAreTotallyOrdered();
    MaxClockNeverDecreases(r, next);
    if r.deleted {
      assert ApplyOp(Some(r), next).row == Some(r);
    } else {
      var r' := ApplyOp(Some(r), next).row.value;
      LiveApply(r, next);
      if !op.op.Delete? && Settled(r, op) {
        SettledStays(r, op, next);
      }
      if op.op.Upsert? {
        HigherFloorLeavesNoClock(MaxClock(r), MaxClock(r'), op.hlc);
      }
    }
  }

  lemma HigherFloorLeavesNoClock(m: Option<Hlc>, m': Option<Hlc>, h: Hlc)
    requires NotOlder(m', m) && NoClockBetween(m, h)
    ensures NoClockBetween(m', h)
  {
    ClocksAreTotallyOrdered();
  }

  /** Spent stays spent under everything that does not revive the row. */
  lemma SpentStays(row: Option<Row>, op: Op, next: Op)
    requires Sound(row) && Spent(row, op) && ValidOpClocks(next) && !Revives(row, next)
    ensures Spent(ApplyOp(row, next).row, op)
  {
    if row.Some? {
      if next.op.Delete? {
        SpentUnderDelete(row.value, op, next);
      } else {
        SpentUnderWrite(row.value, op, next);
      }
    }
  }

  /** One later operation after which an operation that is not spent does apply; none when it applies already. */
  ghost function Exposes(row: Option<Row>, op: Op): seq<Op>
  {
    if ApplyOp(row, op).changed then []
    else if row.None? then [Op(op.kind, op.id, Upsert, map[], op.hlc, map[])]
    else if exists c :: ValidHlc(c) && HlcNewer(c, MaxClock(row.value)) && Before(c, op.hlc) then
      var c :| ValidHlc(c) && HlcNewer(c, MaxClock(row.value)) && Before(c, op.hlc);
      [Op(op.kind, op.id, Delete, map[], c, map[])]
    else []
  }

  lemma UnspentIsExposed(row: Option<Row>, op: Op)
    requires Sound(row) && ValidOpClocks(op) && !Spent(row, op)
    ensures var later := Exposes(row, op);
            && |later| <= 1
            && (forall x :: x in later ==> ValidOpClocks(x) && x.kind == op.kind && x.id == op.id && !Revives(row, x))
            && ApplyOp(ApplyAll(row, later), op).changed
  {
    ClocksAreTotallyOrdered();
    var later := Exposes(row, op);
    if !ApplyOp(row, op).changed {
      assert later != [] by { UnspentLeavesRoom(row, op); }
      assert later[1..] == [];
      assert ApplyAll(row, later) == ApplyAll(ApplyOp(row, later[0]).row, []) == ApplyOp(row, later[0]).row;
      if row.None? {
        var f :| f in op.writes;
        var made := ApplyOp(row, later[0]).row.value;
        assert Get(made.clocks, f) == ClockAfter(map[], later[0], f) == None;
        assert Wins(made.clocks, op, f);
      } else {
        UnspentLeavesRoom(row, op);
      }
    }
  }

  /**
   * An operation that changes nothing and is still not spent: an update without a row, or an upsert that a delete can
   * undercut.
   */
  lemma UnspentLeavesRoom(row: Option<Row>, op: Op)
    requires Sound(row) && !Spent(row, op) && !ApplyOp(row, op).changed
    ensures row.None? ==> op.op.Update? && op.writes != map[]
    ensures row.Some? ==> op.op.Upsert? && !row.value.deleted && !NoClockBetween(MaxClock(row.value), op.hlc)
  {
    ClocksAreTotallyOrdered();
    if row.Some? {
      if op.op.Delete? {
        if row.value.deleted {
          DeletedMaxClock(row.value);
        }
      } else if !row.value.deleted {
        SettledIsNoOp(row.value, op);
      }
    }
  }

  /** Where a delivery leaves its operation spent, from the operation and the row it meets. */
  ghost predicate LandsForGood(row: Option<Row>, op: Op) {
    match op.op
    case Delete => true
    case Update => row.Some? || op.writes == map[]
    case Upsert => var r := ApplyOp(row, op).row.value; r.deleted || NoClockBetween(MaxClock(r), op.hlc)
  }

  /**
   * A delivered operation is spent exactly when it is no update without a row and no upsert that a delete can
   * undercut.
   */
  lemma DeliveredIsSpentExactly(row: Option<Row>, op: Op)
    requires Sound(row)
    ensures Spent(ApplyOp(row, op).row, op) <==> LandsForGood(row, op)
  {
    ClocksAreTotallyOrdered();
    ApplyKeepsWellFormed(row, op);
    match op.op
    case Delete =>
      DeliveredDeleteNeverReapplies(row, op, []);
      var r := ApplyOp(row, op).row.value;
      if r.deleted {
        DeletedMaxClock(r);
      }
    case Update => if row.Some? && !row.value.deleted { DeliverySettles(row, op); }
    case Upsert => UpsertLands(row, op);
  }

  lemma UpsertLands(row: Option<Row>, op: Op)
    requires op.op.Upsert?
    ensures ApplyOp(row, op).row.Some?
    ensures var r := ApplyOp(row, op).row.value; if r.deleted then !HlcNewer(op.hlc, r.delHlc) else Settled(r, op)
  {
    ClocksAreTotallyOrdered();
    if row.Some? && row.value.deleted {
      if HlcNewer(op.hlc, row.value.delHlc) {
        var base := Revived(row.value);
        var r := ApplyOp(row, op).row.value;
        assert forall f :: Get(r.clocks, f) == ClockAfter(base.clocks, op, f);
      }
    } else {
      DeliverySettles(row, op);
    }
  }

  /** An upsert no newer than some clock it writes cannot be undercut, wherever it lands. */
  lemma OwnClockFences(row: Option<Row>, op: Op, f: string)
    requires Sound(row) && op.op.Upsert? && f in op.writes && !Before(ClockFor(op, f), op.hlc)
    ensures LandsForGood(row, op)
  {
    ClocksAreTotallyOrdered();
    UpsertLands(row, op);
    var r := ApplyOp(row, op).row.value;
    if !r.deleted {
      assert r.clocks[f] in r.clocks.Values && !Before(r.clocks[f], ClockFor(op, f));
      MaxClockCovers(r, r.clocks[f]);
    }
  }

  // ---------- how to tell that no clock lies between ----------

  lemma {:induction false} NothingBelowItsExtension(m: string, c: string)
    requires Less(m, c) && forall i :: 0 <= i < |c| ==> '-' <= c[i]
    ensures !Less(c, m + "-")
  {
    if m == "" {
      assert m + "-" == "-";
    } else {
      assert (m + "-")[1..] == m[1..] + "-";
      if m[0] == c[0] {
        NothingBelowItsExtension(m[1..], c[1..]);
      }
    }
  }

  /** The next valid clock after `m` is `m` with a dash appended, unless the device is already at its full length. */
  lemma NoClockBetweenExactly(m: Hlc, h: Hlc)
    requires ValidHlc(m) && |m| < 149
    ensures NoClockBetween(Some(m), h) <==> !Before(m + "-", h)
  {
    ClocksAreTotallyOrdered();
    var next := m + "-";
    assert ValidHlc(next);
    PrefixIsLess(m, "-");
    forall c | ValidHlc(c) && Before(m, c) ensures !Before(c, next) {
      NothingBelowItsExtension(m, c);
    }
    if !Before(next, h) {
      forall c | ValidHlc(c) && HlcNewer(c, Some(m)) ensures !Before(c, h) {
        assert !Before(c, next);
      }
    }
  }

  /** On a row without a clock a delete undercuts every upsert but one under the least clock there is. */
  lemma NoClockBelowExactly(h: Hlc)
    ensures NoClockBetween(None, h) <==> !Before(EncodeHlc(0, 0, "-"), h)
  {
    ClocksAreTotallyOrdered();
    assert InRange(0, 0);
    ValidEncodings(0, 0, "-");
    forall c | ValidHlc(c) ensures !Before(c, EncodeHlc(0, 0, "-")) {
      ValidClocksDecode(c);
      EncodingKeepsOrder(MsOf(c), Number(c[14..20]), c[21..], 0, 0, "-");
    }
  }

  // ---------- the table ----------

  ghost predicate SpentIn(t: Table, op: Op) {
    Spent(Lookup(t, KeyOf(op)), op)
  }

  ghost predicate SoundTable(t: Table) {
    forall k :: k in t ==> Sound(Some(t[k]))
  }

  ghost predicate Watched(ops: seq<Op>, k: Key) {
    exists op :: op in ops && KeyOf(op) == k
  }

  /** While `ops` are applied, no row that `watched` touches goes from deleted back to live. */
  ghost predicate NoRevivals(watched: seq<Op>, t: Table, ops: seq<Op>, stamp: nat)
    decreases ops
  {
    ops != [] ==>
      && (Watched(watched, KeyOf(ops[0])) ==> !Revives(Lookup(t, KeyOf(ops[0])), ops[0]))
      && NoRevivals(watched, StepRow(t, ops[0], stamp), ops[1..], stamp)
  }

  /** What happens to the table between two deliveries: batches are pushed and the alarm collects tombstones. */
  datatype TableEvent = Pushed(ops: seq<Op>) | Collected(now: nat)

  ghost function After(s: Server, e: TableEvent): Server {
    match e
    case Pushed(ops) => PushServer(s, ops)
    case Collected(now) => AlarmServer(s, now)
  }

  ghost function AfterAll(s: Server, later: seq<TableEvent>): Server
    decreases later
  {
    if later == [] then s else AfterAll(After(s, later[0]), later[1..])
  }

  /** A valid push that revives no row `watched` touches, or an alarm that purges none. */
  ghost predicate Spares(watched: seq<Op>, s: Server, e: TableEvent) {
    match e
    case Pushed(ops) => ValidOps(ops) && NoRevivals(watched, s.rows, ops, s.seqNo + 1)
    case Collected(now) => forall k :: Watched(watched, k) && k in s.rows ==> k in AlarmServer(s, now).rows
  }

  /** Throughout `later`, no row that `watched` touches is revived or purged. */
  ghost predicate SparesAll(watched: seq<Op>, s: Server, later: seq<TableEvent>)
    decreases later
  {
    later != [] ==> Spares(watched, s, later[0]) && SparesAll(watched, After(s, later[0]), later[1..])
  }

  lemma SpentIgnoresStamp(r: Row, op: Op, n: nat)
    ensures Spent(Some(r.(stamp := n)), op) == Spent(Some(r), op)
  {
    assert ClockSet(r) == ClockSet(r.(stamp := n));
    NewestIsUnique(MaxClock(r), MaxClock(r.(stamp := n)), ClockSet(r));
  }

  lemma StepKeepsSound(t: Table, op: Op, stamp: nat)
    requires SoundTable(t) && ValidOpClocks(op)
    ensures SoundTable(StepRow(t, op, stamp))
  {
    ApplyKeepsWellFormed(Lookup(t, KeyOf(op)), op);
    ApplyKeepsValidClocks(Lookup(t, KeyOf(op)), op);
  }

  /** After a step the row of `op` is what the operation made of it, stamped if it changed. */
  lemma StepAt(t: Table, op: Op, stamp: nat, x: Op)
    requires KeyOf(x) == KeyOf(op)
    ensures SpentIn(StepRow(t, op, stamp), x) == Spent(ApplyOp(Lookup(t, KeyOf(op)), op).row, x)
  {
    var result := ApplyOp(Lookup(t, KeyOf(op)), op);
    if result.changed && result.row.Some? {
      SpentIgnoresStamp(result.row.value, x, stamp);
    } else {
      UnchangedIsIdentity(Lookup(t, KeyOf(op)), op);
    }
  }

  lemma StepKeepsSpent(t: Table, op: Op, next: Op, stamp: nat)
    requires SoundTable(t) && SpentIn(t, op) && ValidOpClocks(next)
    requires KeyOf(next) == KeyOf(op) ==> !Revives(Lookup(t, KeyOf(next)), next)
    ensures SpentIn(StepRow(t, next, stamp), op)
  {
    if KeyOf(next) == KeyOf(op) {
      SpentStays(Lookup(t, KeyOf(op)), op, next);
      StepAt(t, next, stamp, op);
    } else {
      assert Lookup(StepRow(t, next, stamp), KeyOf(op)) == Lookup(t, KeyOf(op));
    }
  }

  lemma {:induction false} BatchKeepsSpent(t: Table, op: Op, watched: seq<Op>, ops: seq<Op>, stamp: nat)
    requires SoundTable(t) && SpentIn(t, op) && op in watched && ValidOps(ops) && NoRevivals(watched, t, ops, stamp)
    ensures SoundTable(Batch(t, ops, stamp)) && SpentIn(Batch(t, ops, stamp), op)
    decreases ops
  {
    if ops != [] {
      assert Watched(watched, KeyOf(op));
      StepKeepsSound(t, ops[0], stamp);
      StepKeepsSpent(t, op, ops[0], stamp);
      BatchKeepsSpent(StepRow(t, ops[0], stamp), op, watched, ops[1..], stamp);
    }
  }

  lemma PushIsBatch(s: Server, ops: seq<Op>)
    ensures PushServer(s, ops).rows == Batch(s.rows, ops, s.seqNo + 1)
    ensures PushServer(s, ops) == s <==> forall op :: op in ops ==> !ApplyOp(Lookup(s.rows, KeyOf(op)), op).changed
  {
    PushAppliesNothingExactly(s.rows, ops, s.seqNo + 1);
  }

  lemma EventKeepsSpent(s: Server, op: Op, watched: seq<Op>, e: TableEvent)
    requires SoundTable(s.rows) && SpentIn(s.rows, op) && op in watched && Spares(watched, s, e)
    ensures SoundTable(After(s, e).rows) && SpentIn(After(s, e).rows, op)
  {
    match e
    case Pushed(ops) =>
      PushIsBatch(s, ops);
      BatchKeepsSpent(s.rows, op, watched, ops, s.seqNo + 1);
    case Collected(now) =>
      assert Watched(watched, KeyOf(op));
      assert Lookup(AlarmServer(s, now).rows, KeyOf(op)) == Lookup(s.rows, KeyOf(op));
  }

  lemma {:induction false} EventsKeepSpent(s: Server, op: Op, watched: seq<Op>, later: seq<TableEvent>)
    requires SoundTable(s.rows) && SpentIn(s.rows, op) && op in watched && SparesAll(watched, s, later)
    ensures SoundTable(AfterAll(s, later).rows) && SpentIn(AfterAll(s, later).rows, op)
    decreases later
  {
    if later != [] {
      EventKeepsSpent(s, op, watched, later[0]);
      EventsKeepSpent(After(s, later[0]), op, watched, later[1..]);
    }
  }

  /** Pushing `ops` again after `later` leaves the server as it is, unless `later` revives or purges a row of `ops`. */
  ghost predicate RepushIsSilent(s: Server, ops: seq<Op>, later: seq<TableEvent>) {
    SparesAll(ops, s, later) ==> PushServer(AfterAll(s, later), ops) == AfterAll(s, later)
  }

  lemma SpentRepushIsSilent(s: Server, ops: seq<Op>, later: seq<TableEvent>)
    requires SoundTable(s.rows) && forall op :: op in ops ==> SpentIn(s.rows, op)
    ensures RepushIsSilent(s, ops, later)
  {
    if SparesAll(ops, s, later) {
      var s' := AfterAll(s, later);
      forall op | op in ops ensures !ApplyOp(Lookup(s'.rows, KeyOf(op)), op).changed {
        EventsKeepSpent(s, op, ops, later);
        SpentIsNoOp(Lookup(s'.rows, KeyOf(op)), op);
      }
      PushIsBatch(s', ops);
    }
  }

  /** The history that exposes an operation, as one batch at most. */
  ghost function ExposingEvents(s: Server, op: Op): seq<TableEvent> {
    var later := Exposes(Lookup(s.rows, KeyOf(op)), op);
    if later == [] then [] else [Pushed(later)]
  }

  lemma UnspentRepushIsHeard(s: Server, ops: seq<Op>, op: Op)
    requires SoundTable(s.rows) && ValidOps(ops) && op in ops && !SpentIn(s.rows, op)
    ensures !RepushIsSilent(s, ops, ExposingEvents(s, op))
  {
    var row, later := Lookup(s.rows, KeyOf(op)), Exposes(Lookup(s.rows, KeyOf(op)), op);
    UnspentIsExposed(row, op);
    if later == [] {
      PushIsBatch(s, ops);
    } else {
      var x := later[0];
      assert later == [x];
      ExposingPush(s, ops, op, x);
      OnePushIsHeard(s, ops, op, x, [Pushed([x])]);
    }
  }

  lemma OnePushIsHeard(s: Server, ops: seq<Op>, op: Op, x: Op, later: seq<TableEvent>)
    requires later == [Pushed([x])] && ValidOps([x]) && NoRevivals(ops, s.rows, [x], s.seqNo + 1)
    requires op in ops && ApplyOp(Lookup(PushServer(s, [x]).rows, KeyOf(op)), op).changed
    ensures !RepushIsSilent(s, ops, later)
  {
    var s' := PushServer(s, [x]);
    assert later[0] == Pushed([x]) && later[1..] == [];
    assert SparesAll(ops, s', []);
    assert AfterAll(s, later) == AfterAll(s', []) == s';
    PushIsBatch(s', ops);
  }

  lemma ExposingPush(s: Server, ops: seq<Op>, op: Op, x: Op)
    requires ValidOps(ops) && op in ops && KeyOf(x) == KeyOf(op) && ValidOpClocks(x) && x.kind == op.kind
    requires !Revives(Lookup(s.rows, KeyOf(op)), x) && ApplyOp(ApplyAll(Lookup(s.rows, KeyOf(op)), [x]), op).changed
    ensures ValidOps([x]) && NoRevivals(ops, s.rows, [x], s.seqNo + 1)
    ensures ApplyOp(Lookup(PushServer(s, [x]).rows, KeyOf(op)), op).changed
  {
    var row, k, stamp := Lookup(s.rows, KeyOf(op)), KeyOf(op), s.seqNo + 1;
    assert [x][1..] == [];
    assert NoRevivals(ops, StepRow(s.rows, x, stamp), [], stamp);
    assert ApplyAll(row, [x]) == ApplyAll(ApplyOp(row, x).row, []) == ApplyOp(row, x).row;
    PushIsBatch(s, [x]);
    assert Batch(s.rows, [x], stamp) == Batch(StepRow(s.rows, x, stamp), [], stamp) == StepRow(s.rows, x, stamp);
    var after := ApplyOp(row, x);
    if after.changed && after.row.Some? {
      StampsDoNotMatter(after.row.value, op, stamp);
    } else {
      UnchangedIsIdentity(row, x);
    }
  }

  /**
   * Pushing a batch again changes nothing, counter included, at any later point before one of its rows is revived or
   * purged, if and only if the first push left every operation of it spent.
   */
  lemma RedeliveryIsSilentExactly(s: Server, ops: seq<Op>)
    requires ServerOk(s) && ValidOps(ops)
    ensures var mid := PushServer(s, ops);
            (forall later :: RepushIsSilent(mid, ops, later)) <==> forall op :: op in ops ==> SpentIn(mid.rows, op)
  {
    var mid := PushServer(s, ops);
    PushKeepsServerOk(s, ops);
    ServerRowsAreSound(mid);
    if forall op :: op in ops ==> SpentIn(mid.rows, op) {
      forall later ensures RepushIsSilent(mid, ops, later) {
        SpentRepushIsSilent(mid, ops, later);
      }
    } else {
      var op :| op in ops && !SpentIn(mid.rows, op);
      UnspentRepushIsHeard(mid, ops, op);
    }
  }

  lemma ServerRowsAreSound(s: Server)
    requires ServerOk(s)
    ensures SoundTable(s.rows)
  {
    forall k | k in s.rows ensures Sound(Some(s.rows[k])) {
      assert RowOk(k, s.rows[k], s.seqNo);
    }
  }

  /** Each operation of the batch lands for good on the row it meets, and the rest of the batch revives no row of it. */
  ghost predicate BatchLands(watched: seq<Op>, t: Table, ops: seq<Op>, stamp: nat)
    decreases ops
  {
    ops != [] ==>
      var t' := StepRow(t, ops[0], stamp);
      && LandsForGood(Lookup(t, KeyOf(ops[0])), ops[0])
      && NoRevivals(watched, t', ops[1..], stamp)
      && BatchLands(watched, t', ops[1..], stamp)
  }

  lemma {:induction false} LandedBatchIsSpent(watched: seq<Op>, t: Table, ops: seq<Op>, stamp: nat, op: Op)
    requires SoundTable(t) && ValidOps(ops) && BatchLands(watched, t, ops, stamp) && op in ops
    requires forall x :: x in ops ==> x in watched
    ensures SpentIn(Batch(t, ops, stamp), op)
    decreases ops
  {
    var t' := StepRow(t, ops[0], stamp);
    StepKeepsSound(t, ops[0], stamp);
    if op == ops[0] {
      DeliveredIsSpentExactly(Lookup(t, KeyOf(op)), op);
      StepAt(t, op, stamp, op);
      BatchKeepsSpent(t', op, watched, ops[1..], stamp);
    } else {
      LandedBatchIsSpent(watched, t', ops[1..], stamp, op);
    }
  }

  /**
   * At-least-once delivery with deletes: a batch whose operations each landed for good can be pushed again at any
   * later point before one of its rows is revived or purged, and applies nothing.
   */
  lemma LandedBatchIsSilent(s: Server, ops: seq<Op>, later: seq<TableEvent>)
    requires ServerOk(s) && ValidOps(ops) && BatchLands(ops, s.rows, ops, s.seqNo + 1)
    requires SparesAll(ops, PushServer(s, ops), later)
    ensures var s' := AfterAll(PushServer(s, ops), later); PushServer(s', ops) == s'
  {
    var mid := PushServer(s, ops);
    ServerRowsAreSound(s);
    PushKeepsServerOk(s, ops);
    ServerRowsAreSound(mid);
    PushIsBatch(s, ops);
    forall op | op in ops ensures SpentIn(mid.rows, op) {
      LandedBatchIsSpent(ops, s.rows, ops, s.seqNo + 1, op);
    }
    SpentRepushIsSilent(mid, ops, later);
    assert RepushIsSilent(mid, ops, later);
  }

  // ---------- tables where nothing is deleted ----------

  ghost predicate AllLive(t: Table) {
    forall k :: k in t ==> !t[k].deleted
  }

  /** Every update of the batch finds its row when its turn comes. */
  ghost predicate UpdatesMeetRows(t: Table, ops: seq<Op>, stamp: nat)
    decreases ops
  {
    ops != [] ==>
      && (ops[0].op.Update? ==> KeyOf(ops[0]) in t)
      && UpdatesMeetRows(StepRow(t, ops[0], stamp), ops[1..], stamp)
  }

  ghost predicate SettledIn(t: Table, op: Op) {
    KeyOf(op) in t && !t[KeyOf(op)].deleted && Settled(t[KeyOf(op)], op)
  }

  lemma StepSettles(t: Table, op: Op, stamp: nat)
    requires AllLive(t) && !op.op.Delete? && (op.op.Update? ==> KeyOf(op) in t)
    ensures AllLive(StepRow(t, op, stamp)) && SettledIn(StepRow(t, op, stamp), op)
  {
    DeliverySettles(Lookup(t, KeyOf(op)), op);
    if !ApplyOp(Lookup(t, KeyOf(op)), op).changed {
      UnchangedIsIdentity(Lookup(t, KeyOf(op)), op);
    }
  }

  lemma StepKeepsSettled(t: Table, op: Op, next: Op, stamp: nat)
    requires AllLive(t) && !next.op.Delete? && SettledIn(t, op)
    ensures AllLive(StepRow(t, next, stamp)) && SettledIn(StepRow(t, next, stamp), op)
  {
    if KeyOf(op) == KeyOf(next) {
      SettledStays(t[KeyOf(op)], op, next);
    } else if KeyOf(next) in t {
      LiveApply(t[KeyOf(next)], next);
    }
  }

  lemma {:induction false} BatchKeepsSettled(t: Table, op: Op, ops: seq<Op>, stamp: nat)
    requires AllLive(t) && NoDeletes(ops) && SettledIn(t, op)
    ensures AllLive(Batch(t, ops, stamp)) && SettledIn(Batch(t, ops, stamp), op)
    decreases ops
  {
    if ops != [] {
      StepKeepsSettled(t, op, ops[0], stamp);
      BatchKeepsSettled(StepRow(t, ops[0], stamp), op, ops[1..], stamp);
    }
  }

  lemma {:induction false} BatchSettles(t: Table, ops: seq<Op>, stamp: nat, op: Op)
    requires AllLive(t) && NoDeletes(ops) && UpdatesMeetRows(t, ops, stamp) && op in ops
    ensures AllLive(Batch(t, ops, stamp)) && SettledIn(Batch(t, ops, stamp), op)
    decreases ops
  {
    StepSettles(t, ops[0], stamp);
    if op == ops[0] {
      BatchKeepsSettled(StepRow(t, ops[0], stamp), op, ops[1..], stamp);
    } else {
      BatchSettles(StepRow(t, ops[0], stamp), ops[1..], stamp, op);
    }
  }

  /** A history in which nothing is deleted: its alarms then find nothing to purge. */
  ghost predicate DeleteFree(later: seq<TableEvent>) {
    forall e :: e in later && e.Pushed? ==> NoDeletes(e.ops)
  }

  lemma AlarmKeepsLiveTable(s: Server, now: nat)
    requires AllLive(s.rows)
    ensures AlarmServer(s, now).rows == s.rows
  {
    assert DoomedKeys(s.rows, HorizonHlc(now - TOMBSTONE_RETAIN_MS)) == {};
  }

  lemma {:induction false} EventsKeepSettled(s: Server, op: Op, later: seq<TableEvent>)
    requires AllLive(s.rows) && SettledIn(s.rows, op) && DeleteFree(later)
    ensures SettledIn(AfterAll(s, later).rows, op)
    decreases later
  {
    if later != [] {
      match later[0] {
        case Pushed(ops) =>
          BatchKeepsSettled(s.rows, op, ops, s.seqNo + 1);
          PushIsBatch(s, ops);
        case Collected(now) => AlarmKeepsLiveTable(s, now);
      }
      EventsKeepSettled(After(s, later[0]), op, later[1..]);
    }
  }

  /**
   * At-least-once delivery: where nothing is ever deleted and each update met its row, pushing a batch
   * again at any later point applies no operation and leaves the server, counter included, as it was.
   */
  lemma RedeliveryChangesNothing(s: Server, ops: seq<Op>, later: seq<TableEvent>)
    requires AllLive(s.rows) && NoDeletes(ops) && DeleteFree(later)
    requires UpdatesMeetRows(s.rows, ops, s.seqNo + 1)
    ensures var s' := AfterAll(PushServer(s, ops), later); PushServer(s', ops) == s'
  {
    var mid := PushServer(s, ops);
    var s' := AfterAll(mid, later);
    PushIsBatch(s, ops);
    forall op | op in ops ensures !ApplyOp(Lookup(s'.rows, KeyOf(op)), op).changed {
      BatchSettles(s.rows, ops, s.seqNo + 1, op);
      EventsKeepSettled(mid, op, later);
      SettledIsNoOp(s'.rows[KeyOf(op)], op);
    }
    PushIsBatch(s', ops);
  }

  /** An update that outran its row's create is dropped, so its redelivery does apply. */
  lemma DroppedUpdateReapplies(kind: string, id: string)
    ensures var outrun := Op(kind, id, Update, map["a" := Some("2")], "2", map[]);
            var create := Op(kind, id, Upsert, map["a" := Some("1")], "1", map[]);
            var s := PushServer(EMPTY_SERVER, [outrun, create]);
            PushServer(s, [outrun]) != s
  {
    var outrun := Op(kind, id, Update, map["a" := Some("2")], "2", map[]);
    var create := Op(kind, id, Upsert, map["a" := Some("1")], "1", map[]);
    var k := Key(kind, id);
    assert [outrun, create][1..] == [create] && [create][1..] == [] && [outrun][1..] == [];
    var t := StepRow(map[], create, 1);
    assert Batch(map[], [outrun, create], 1) == Batch(map[], [create], 1) == Batch(t, [], 1) == t;
    assert AppliedCount(map[], [outrun, create], 1) == AppliedCount(map[], [create], 1) == 1;
    var r := t[k];
    assert Get(r.clocks, "a") == ClockAfter(map[], create, "a") == Some("1");
    assert Before("1", "2") && Wins(r.clocks, outrun, "a");
    assert AppliedCount(t, [outrun], 2) == 1;
  }

  /** Nothing left for the operation to write: all of it landed, or it is an update that writes nothing. */
  ghost predicate Landed(t: Table, op: Op) {
    SettledIn(t, op) || (op.op.Update? && op.writes == map[])
  }

  ghost predicate RepushAfter(s: Server, ops: seq<Op>, later: seq<TableEvent>) {
    DeleteFree(later) ==> PushServer(AfterAll(s, later), ops) == AfterAll(s, later)
  }

  lemma {:induction false} BatchKeepsLive(t: Table, ops: seq<Op>, stamp: nat)
    requires AllLive(t) && NoDeletes(ops)
    ensures AllLive(Batch(t, ops, stamp))
    decreases ops
  {
    if ops != [] {
      var row := Lookup(t, KeyOf(ops[0]));
      if row.Some? {
        LiveApply(row.value, ops[0]);
      }
      BatchKeepsLive(StepRow(t, ops[0], stamp), ops[1..], stamp);
    }
  }

  lemma LandedRepushIsSilent(s: Server, ops: seq<Op>, later: seq<TableEvent>)
    requires AllLive(s.rows) && NoDeletes(ops) && forall op :: op in ops ==> Landed(s.rows, op)
    ensures RepushAfter(s, ops, later)
  {
    if DeleteFree(later) {
      var s' := AfterAll(s, later);
      forall op | op in ops ensures !ApplyOp(Lookup(s'.rows, KeyOf(op)), op).changed {
        if SettledIn(s.rows, op) {
          EventsKeepSettled(s, op, later);
          SettledIsNoOp(s'.rows[KeyOf(op)], op);
        }
      }
      PushIsBatch(s', ops);
    }
  }

  lemma UnlandedRepushIsHeard(s: Server, ops: seq<Op>, op: Op)
    requires AllLive(s.rows) && NoDeletes(ops) && op in ops && !Landed(s.rows, op)
    ensures exists later :: !RepushAfter(s, ops, later)
  {
    var k := KeyOf(op);
    if k in s.rows || op.op.Upsert? {
      if k in s.rows {
        SettledIsNoOp(s.rows[k], op);
      }
      PushIsBatch(s, ops);
      assert !RepushAfter(s, ops, []);
    } else {
      var create := Op(op.kind, op.id, Upsert, map[], op.hlc, map[]);
      var f :| f in op.writes;
      var made := WriteFields(EmptyRow(op.kind, op.id), create, true).row.value;
      assert Get(made.clocks, f) == ClockAfter(map[], create, f) == None;
      assert Wins(made.clocks, op, f);
      var later := [Pushed([create])];
      var s' := PushServer(s, [create]);
      assert [create][1..] == [] && later[1..] == [];
      PushIsBatch(s, [create]);
      assert Batch(s.rows, [create], s.seqNo + 1) == Batch(StepRow(s.rows, create, s.seqNo + 1), [], s.seqNo + 1);
      assert s'.rows[k] == made.(stamp := s.seqNo + 1);
      assert AfterAll(s, later) == AfterAll(s', []) == s';
      PushIsBatch(s', ops);
      assert !RepushAfter(s, ops, later);
    }
  }

  /**
   * Where nothing is deleted, pushing a batch again changes nothing at any later point if and only if the first push
   * landed every operation but updates that write nothing; what fails is an update that outran its create.
   */
  lemma DeleteFreeRedeliveryExactly(s: Server, ops: seq<Op>)
    requires AllLive(s.rows) && NoDeletes(ops)
    ensures var mid := PushServer(s, ops);
            (forall later :: RepushAfter(mid, ops, later)) <==> forall op :: op in ops ==> Landed(mid.rows, op)
  {
    var mid := PushServer(s, ops);
    PushIsBatch(s, ops);
    BatchKeepsLive(s.rows, ops, s.seqNo + 1);
    if forall op :: op in ops ==> Landed(mid.rows, op) {
      forall later ensures RepushAfter(mid, ops, later) {
        LandedRepushIsSilent(mid, ops, later);
      }
    } else {
      var op :| op in ops && !Landed(mid.rows, op);
      UnlandedRepushIsHeard(mid, ops, op);
    }
  }

  // ---------- how a redelivered operation comes back ----------

  /** After a revival the old upsert applies again, and brings back a field that the revival had dropped. */
  lemma RevivedRowTakesOldFields(kind: string, id: string)
    ensures var create := Op(kind, id, Upsert, map["a" := Some("1")], "1", map[]);
            var bury := Op(kind, id, Delete, map[], "2", map[]);
            var revive := Op(kind, id, Upsert, map["b" := Some("3")], "3", map[]);
            var row := ApplyAll(None, [create, bury, revive]);
            var again := ApplyOp(row, create).row;
            row.Some? && Get(row.value.fields, "a") == None && again.Some? && Get(again.value.fields, "a") == Some("1")
  {
    var create := Op(kind, id, Upsert, map["a" := Some("1")], "1", map[]);
    var bury := Op(kind, id, Delete, map[], "2", map[]);
    var revive := Op(kind, id, Upsert, map["b" := Some("3")], "3", map[]);
    assert Before("1", "2") && Before("2", "3");
    var r1 := ApplyOp(None, create).row.value;
    OnlyClock(r1, create, "a", "1");
    BeatsMaxClock("2", r1);
    var r2 := ApplyOp(Some(r1), bury).row.value;
    assert r2 == Buried(r1, "2");
    var r3 := ApplyOp(Some(r2), revive).row.value;
    assert Get(r3.clocks, "a") == ClockAfter(map[], revive, "a") && Get(r3.fields, "a") == None;
    TwoMoreSteps(None, create, bury, revive);
    LiveApply(r3, create);
    var r4 := ApplyOp(Some(r3), create).row.value;
    assert Get(r4.fields, "a") == FieldAfter(r3, create, "a");
  }

  lemma OnlyClock(r: Row, op: Op, f: string, h: Hlc)
    requires op.op.Upsert? && op.writes.Keys == {f} && ClockFor(op, f) == h && ApplyOp(None, op).row == Some(r)
    ensures ClockSet(r) == {h}
  {
    forall g ensures Get(r.clocks, g) == if g == f then Some(h) else None {
      assert Get(r.clocks, g) == ClockAfter(map[], op, g);
      assert g in op.writes <==> g in op.writes.Keys;
    }
    assert Get(r.clocks, f) == Some(h);
    assert r.clocks[f] in r.clocks.Values;
    forall c | c in r.clocks.Values ensures c == h {
      var g :| g in r.clocks && r.clocks[g] == c;
      assert Get(r.clocks, g) == Some(c);
    }
  }

  lemma TwoMoreSteps(row: Option<Row>, a: Op, b: Op, c: Op)
    ensures ApplyAll(row, [a, b]) == ApplyOp(ApplyOp(row, a).row, b).row
    ensures ApplyAll(row, [a, b, c]) == ApplyOp(ApplyOp(ApplyOp(row, a).row, b).row, c).row
  {
    assert [a, b, c][1..] == [b, c] && [b, c][1..] == [c] && [c][1..] == [] && [a, b][1..] == [b] && [b][1..] == [];
    assert ApplyAll(row, [a, b, c]) == ApplyAll(ApplyOp(row, a).row, [b, c]);
    assert ApplyAll(ApplyOp(row, a).row, [b, c]) == ApplyAll(ApplyOp(ApplyOp(row, a).row, b).row, [c]);
    assert ApplyAll(ApplyOp(row, a).row, [b]) == ApplyOp(ApplyOp(row, a).row, b).row;
  }

  /**
   * With no revival in between, an upsert newer than the clocks it writes comes back too: the delete has only to beat
   * those clocks, while revival compares the operation's own.
   */
  lemma UndercutUpsertRevives(kind: string, id: string)
    ensures var create := Op(kind, id, Upsert, map["a" := Some("1")], "9", map["a" := "1"]);
            var bury := Op(kind, id, Delete, map[], "2", map[]);
            var row := ApplyAll(None, [create, bury]);
            var again := ApplyOp(row, create).row;
            row.Some? && row.value.deleted && again.Some? && !again.value.deleted
  {
    var create := Op(kind, id, Upsert, map["a" := Some("1")], "9", map["a" := "1"]);
    var bury := Op(kind, id, Delete, map[], "2", map[]);
    assert Before("1", "2") && Before("2", "9");
    var r1 := ApplyOp(None, create).row.value;
    OnlyClock(r1, create, "a", "1");
    BeatsMaxClock("2", r1);
    TwoMoreSteps(None, create, bury, bury);
  }

  /**
   * Where the alarm has purged the row an operation touched, pushing the operation again creates the row anew: a
   * tombstone again for a delete, a live row for an upsert.
   */
  lemma PurgeUndoesDelivery(s: Server, now: nat, op: Op)
    requires !op.op.Update? && KeyOf(op) in s.rows && KeyOf(op) !in AlarmServer(s, now).rows
    ensures var s' := PushServer(AlarmServer(s, now), [op]);
            && s' != AlarmServer(s, now)
            && KeyOf(op) in s'.rows && s'.rows[KeyOf(op)].deleted == op.op.Delete?
  {
    var gone := AlarmServer(s, now);
    assert ApplyOp(Lookup(gone.rows, KeyOf(op)), op).changed;
    PushIsBatch(gone, [op]);
    assert op in [op] && [op][1..] == [];
    assert Batch(gone.rows, [op], gone.seqNo + 1) == StepRow(gone.rows, op, gone.seqNo + 1);
  }

  lemma FirstDelete(bury: Op)
    requires bury.op.Delete? && ValidOps([bury])
    ensures var s, r := PushServer(EMPTY_SERVER, [bury]), Buried(EmptyRow(bury.kind, bury.id), bury.hlc);
            s == Server(map[KeyOf(bury) := r.(stamp := 1)], 1, 0, true) && ServerOk(s) && SpentIn(s.rows, bury)
  {
    PushKeepsServerOk(EMPTY_SERVER, [bury]);
    assert bury in [bury] && [bury][1..] == [];
    PushIsBatch(EMPTY_SERVER, [bury]);
    assert Batch(map[], [bury], 1) == StepRow(map[], bury, 1);
    DeliveredIsSpentExactly(None, bury);
    StepAt(map[], bury, 1, bury);
  }

  /**
   * So a delete of a row the server has never seen, which its delivery leaves spent, is heard again once the alarm has
   * run more than the retention later.
   */
  lemma PurgedDeleteReapplies(kind: string, id: string, now: nat)
    requires ValidKind(kind) && 0 < now - TOMBSTONE_RETAIN_MS < Pow10(MS_WIDTH)
    ensures var bury := Op(kind, id, Delete, map[], EncodeHlc(0, 0, "a"), map[]);
            var s := PushServer(EMPTY_SERVER, [bury]);
            && ServerOk(s) && SpentIn(s.rows, bury) && KeyOf(bury) !in AlarmServer(s, now).rows
            && PushServer(AlarmServer(s, now), [bury]) != AlarmServer(s, now)
  {
    var bury := Op(kind, id, Delete, map[], EncodeHlc(0, 0, "a"), map[]);
    var s := PushServer(EMPTY_SERVER, [bury]);
    assert InRange(0, 0);
    ValidEncodings(0, 0, "a");
    FirstDelete(bury);
    HorizonSelectsOlderClocks(0, 0, "a", now - TOMBSTONE_RETAIN_MS);
    var k := KeyOf(bury);
    assert k in DoomedKeys(s.rows, HorizonHlc(now - TOMBSTONE_RETAIN_MS)) && s.rows[k].stamp == 1;
    PurgeUndoesDelivery(s, now, bury);
  }
}
