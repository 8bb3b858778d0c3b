/**
 * The registry room as the object it is (edge/src/registry-room.ts): methods that update the table in place,
 * each proved against what RegistryTable says of the stored state.
 */
module RegistryRoom {
  import opened Options
  import opened Hlc
  import opened RegistryCore
  import opened RegistryTable
  import Sync = RegistrySync

  datatype PushOutcome = Refused | Accepted(batch: string, seqNo: nat, applied: nat)

  function RowKey(row: Row): Key {
    Key(row.kind, row.id)
  }

  function OverlayGet(touched: map<string, Row>, base: Table, k: Key): Option<Row> {
    if ' ' !in k.kind && OverlayKey(k) in touched then Some(touched[OverlayKey(k)]) else Lookup(base, k)
  }

  /** The overlay holds stamped rows under their own text keys, and over `base` it reads as the table `t`. */
  ghost predicate OverlayOk(touched: map<string, Row>, base: Table, t: Table, stamp: nat) {
    && (forall s :: s in touched ==>
          s == OverlayKey(RowKey(touched[s])) && ValidKind(touched[s].kind) && touched[s].stamp == stamp)
    && (forall k :: Lookup(t, k) == OverlayGet(touched, base, k))
    && (forall k :: k in t ==> RowKey(t[k]) == k)
  }

  lemma OverlayStep(touched: map<string, Row>, base: Table, t: Table, op: Op, stamp: nat)
    requires OverlayOk(touched, base, t, stamp) && ValidKind(op.kind)
    ensures var result := ApplyOp(OverlayGet(touched, base, KeyOf(op)), op);
            && result == ApplyOp(Lookup(t, KeyOf(op)), op)
            && (result.changed ==> result.row.Some?)
            && (!result.changed ==> StepRow(t, op, stamp) == t)
            && (result.changed ==>
                  OverlayOk(touched[OverlayKey(KeyOf(op)) := result.row.value.(stamp := stamp)], base,
                            StepRow(t, op, stamp), stamp))
  {
    var key := KeyOf(op);
    assert Lookup(t, key) == OverlayGet(touched, base, key);
    var result := ApplyOp(Lookup(t, key), op);
    if result.changed {
      var row := result.row.value.(stamp := stamp);
      assert RowKey(row) == key;
      var touched', t' := touched[OverlayKey(key) := row], StepRow(t, op, stamp);
      forall k ensures Lookup(t', k) == OverlayGet(touched', base, k) {
        assert Lookup(t, k) == OverlayGet(touched, base, k);
        if k != key && ' ' !in k.kind && OverlayKey(k) == OverlayKey(key) {
          OverlayKeyIsInjective(k, key);
        }
      }
    }
  }

  lemma SaveStep(touched: map<string, Row>, todo: set<string>, s: string, base: Table, k: Key)
    requires s in todo && todo <= touched.Keys && s == OverlayKey(RowKey(touched[s])) && ValidKind(touched[s].kind)
    ensures OverlayGet(touched - (todo - {s}), base, k) ==
            if k == RowKey(touched[s]) then Some(touched[s]) else OverlayGet(touched - todo, base, k)
  {
    ValidKindHasNoSpace(touched[s].kind);
    if ' ' !in k.kind && OverlayKey(k) == s {
      OverlayKeyIsInjective(k, RowKey(touched[s]));
    }
  }

  class Room {
    var rows: Table
    var seqNo: nat
    var gcFloor: nat
    var dirty: bool

    ghost function View(): Server
      reads this
    {
      Server(rows, seqNo, gcFloor, dirty)
    }

    constructor ()
      ensures View() == EMPTY_SERVER && ServerOk(View())
    {
      rows, seqNo, gcFloor, dirty := map[], 0, 0, false;
    }

    /** `applyPushBatch`: all or nothing, through an overlay that later operations of the batch read first. */
    method ApplyPushBatch(frame: PushFrame) returns (outcome: PushOutcome, broadcast: Table)
      requires ServerOk(View())
      modifies this
      ensures ServerOk(View())
      ensures outcome == Refused <==>
                frame.batch == "" || frame.ops.None? || !(1 <= |frame.ops.value| <= 500)
                || exists w :: w in frame.ops.value && !ValidOp(w)
      ensures outcome == Refused ==> broadcast == map[] && View() == old(View())
      ensures Acceptable(frame) ==>
                var ops := OpsOf(frame.ops.value);
                && View() == PushServer(old(View()), ops)
                && outcome == Accepted(frame.batch, seqNo, AppliedCount(old(rows), ops, old(seqNo) + 1))
                && broadcast == RowsSince(rows, old(seqNo))
    {
      broadcast := map[];
      if frame.batch == "" || frame.ops.None? {
        return Refused, map[];
      }
      var wire := frame.ops.value;
      if |wire| == 0 || |wire| > MAX_BATCH_OPS {
        return Refused, map[];
      }
      for i := 0 to |wire|
        invariant forall j :: 0 <= j < i ==> ValidOp(wire[j])
      {
        if !ValidOp(wire[i]) {
          return Refused, map[];
        }
      }
      var ops := OpsOf(wire);
      var nextSeq := seqNo + 1;
      var touched, applied := ApplyToOverlay(ops, nextSeq);
      PushKeepsServerOk(View(), ops);
      PushAppliesNothingExactly(rows, ops, nextSeq);
      if applied > 0 {
        broadcast := SaveRows(touched, Batch(rows, ops, nextSeq), nextSeq);
        seqNo := nextSeq;
        dirty := true;
      } else {
        assert RowsSince(rows, seqNo) == map[];
      }
      outcome := Accepted(frame.batch, seqNo, applied);
    }

    /** The loop over the operations: each reads the overlay before the table, and changed rows go to the overlay. */
    method ApplyToOverlay(ops: seq<Op>, nextSeq: nat) returns (touched: map<string, Row>, applied: nat)
      requires ServerOk(View()) && ValidOps(ops)
      ensures OverlayOk(touched, rows, Batch(rows, ops, nextSeq), nextSeq)
      ensures applied == AppliedCount(rows, ops, nextSeq)
    {
      touched, applied := map[], 0;
      for i := 0 to |ops|
        invariant OverlayOk(touched, rows, Batch(rows, ops[..i], nextSeq), nextSeq)
        invariant applied == AppliedCount(rows, ops[..i], nextSeq)
      {
        var op := ops[i];
        assert ops[..i + 1] == ops[..i] + [op];
        BatchSnoc(rows, ops[..i], op, nextSeq);
        OverlayStep(touched, rows, Batch(rows, ops[..i], nextSeq), op, nextSeq);
        ValidKindHasNoSpace(op.kind);
        var key := OverlayKey(KeyOf(op));
        var before := if key in touched then Some(touched[key]) else Lookup(rows, KeyOf(op));
        var result := Apply(before, op);
        if result.changed && result.row.Some? {
          applied := applied + 1;
          touched := touched[key := result.row.value.(stamp := nextSeq)];
        }
      }
      assert ops[..|ops|] == ops;
    }

    /** The loop that saves the touched rows; they are also what the room broadcasts. */
    method SaveRows(touched: map<string, Row>, ghost t: Table, stamp: nat) returns (saved: Table)
      requires stamp > 0 && OverlayOk(touched, rows, t, stamp)
      requires forall k :: k in rows ==> rows[k].stamp < stamp
      modifies this`rows
      ensures rows == t && saved == RowsSince(t, stamp - 1)
    {
      saved := map[];
      ghost var base := rows;
      var todo := touched.Keys;
      while todo != {}
        invariant todo <= touched.Keys
        invariant forall k :: Lookup(saved, k) == OverlayGet(touched - todo, map[], k)
        invariant forall k :: Lookup(rows, k) == OverlayGet(touched - todo, base, k)
      {
        var s :| s in todo;
        var row := touched[s];
        forall k
          ensures OverlayGet(touched - (todo - {s}), base, k) ==
                  if k == RowKey(row) then Some(row) else OverlayGet(touched - todo, base, k)
          ensures OverlayGet(touched - (todo - {s}), map[], k) ==
                  if k == RowKey(row) then Some(row) else OverlayGet(touched - todo, map[], k)
        {
          SaveStep(touched, todo, s, base, k);
          SaveStep(touched, todo, s, map[], k);
        }
        rows := rows[RowKey(row) := row];
        saved := saved[RowKey(row) := row];
        todo := todo - {s};
      }
      forall k ensures Lookup(rows, k) == Lookup(t, k) {
        assert Lookup(t, k) == OverlayGet(touched, base, k);
      }
      SameLookups(rows, t);
      forall k ensures Lookup(saved, k) == Lookup(RowsSince(t, stamp - 1), k) {
        assert Lookup(t, k) == OverlayGet(touched, base, k);
      }
      SameLookups(saved, RowsSince(t, stamp - 1));
    }

    /**
     * `handleHello` and `GET /rows?since=`: whatever copy of the table the asking client holds under that cursor, as
     * long as it is in step, taking the answer brings it to exactly the live rows and to the present counter.
     */
    method HandleHello(cursor: Option<nat>) returns (frame: StateFrame)
      ensures frame == HelloAnswer(View(), cursor)
      ensures cursor.Some? && gcFloor <= cursor.value <= seqNo ==>
                !frame.full && forall k :: k in frame.rows <==> k in rows && rows[k].stamp > cursor.value
      ensures ServerOk(View()) ==>
                forall copy: Sync.Replica :: copy.cursor == cursor && Sync.InStep(copy, View()) ==>
                  var taken := Sync.TakeState(copy, frame);
                  Sync.LiveRows(taken.rows) == Sync.LiveRows(rows) && taken.cursor == Some(seqNo)
                      && Sync.InStep(taken, View())
    {
      var full := cursor.None? || cursor.value < gcFloor || cursor.value > seqNo;
      var answer := if full then RowsSince(rows, 0) else RowsSince(rows, cursor.value);
      frame := StateFrame(seqNo, full, gcFloor, answer);
      if ServerOk(View()) {
        forall copy: Sync.Replica | copy.cursor == cursor && Sync.InStep(copy, View())
          ensures var taken := Sync.TakeState(copy, frame);
                  Sync.LiveRows(taken.rows) == Sync.LiveRows(rows) && taken.cursor == Some(seqNo)
                      && Sync.InStep(taken, View())
        {
          Sync.HelloBringsUpToDate(copy, View());
          Sync.CaughtUpMeansEqual(Sync.TakeState(copy, frame), View());
        }
      }
    }

    /** The loop over the rows to be purged: their newest stamp, 0 when there are none. */
    method NewestDoomed(bound: Hlc) returns (purged: nat)
      ensures purged == MaxStamp(rows, DoomedKeys(rows, bound))
    {
      var todo := rows.Keys;
      purged := 0;
      ghost var seen: set<Key> := {};
      while todo != {}
        invariant todo <= rows.Keys
        invariant seen == set k | k in rows && k !in todo && Doomed(rows[k], bound)
        invariant IsMaxStamp(rows, seen, purged)
      {
        var k :| k in todo;
        if Doomed(rows[k], bound) {
          if rows[k].stamp > purged {
            purged := rows[k].stamp;
          }
          seen := seen + {k};
        }
        todo := todo - {k};
      }
      assert seen == DoomedKeys(rows, bound);
      MaxStampIsUnique(rows, seen, purged, MaxStamp(rows, seen));
    }

    /** The collection half of `alarm`: find the newest doomed stamp, then purge and raise the floor. */
    method Alarm(now: nat)
      requires ServerOk(View())
      modifies this
      ensures View() == AlarmServer(old(View()), now) && ServerOk(View())
    {
      AlarmKeepsServerOk(View(), now);
      ghost var goal := AlarmServer(View(), now);
      if !dirty {
        return;
      }
      var bound := HorizonHlc(now - TOMBSTONE_RETAIN_MS);
      var purged := NewestDoomed(bound);
      if purged > 0 {
        rows := map k | k in rows && !Doomed(rows[k], bound) :: rows[k];
        gcFloor := if gcFloor < purged then purged else gcFloor;
        assert rows == old(rows) - DoomedKeys(old(rows), bound);
      }
      dirty := false;
      assert View() == goal;
    }
  }

  lemma MaxStampIsUnique(t: Table, keys: set<Key>, m: nat, n: nat)
    requires IsMaxStamp(t, keys, m) && IsMaxStamp(t, keys, n)
    ensures m == n
  {
  }

  lemma SameLookups(a: Table, b: Table)
    requires forall k :: Lookup(a, k) == Lookup(b, k)
    ensures a == b
  {
    forall k ensures k in a <==> k in b {
      assert Lookup(a, k) == Lookup(b, k);
    }
    forall k | k in a ensures a[k] == b[k] {
      assert Lookup(a, k) == Lookup(b, k);
    }
  }
}
