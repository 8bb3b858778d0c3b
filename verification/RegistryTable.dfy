/**
 * The registry table (edge/src/registry-room.ts): one table of rows behind one batch counter. A push is
 * validated and applied as a whole, a hello is answered with the rows after a cursor, and the daily alarm
 * purges old tombstones behind a floor. This module says what each does to the stored state, and what they keep.
 */
module RegistryTable {
  import opened Options
  import opened Hlc
  import opened RegistryCore
  import opened RegistryMerge

  const DAY_MS := 24 * 60 * 60 * 1000
  const TOMBSTONE_RETAIN_MS := 30 * DAY_MS
  const MAX_BATCH_OPS := 500
  const MAX_OP_BYTES := 16 * 1024

  /** The table's primary key. */
  datatype Key = Key(kind: string, id: string)

  type Table = map<Key, Row>

  /** What the room keeps in storage. `dirty` is the flag that arms the alarm. */
  datatype Server = Server(rows: Table, seqNo: nat, gcFloor: nat, dirty: bool)

  const EMPTY_SERVER := Server(map[], 0, 0, false)

  function KeyOf(op: Op): Key {
    Key(op.kind, op.id)
  }

  function Lookup(t: Table, k: Key): Option<Row> {
    if k in t then Some(t[k]) else None
  }

  // ---------- validation ----------

  predicate ValidKind(s: string) {
    1 <= |s| <= 32 && Lower(s[0]) && forall i :: 1 <= i < |s| ==> AlphaNum(s[i])
  }

  predicate ValidId(s: string) {
    1 <= |s| <= 256 && forall i :: 0 <= i < |s| ==> AlphaNum(s[i]) || s[i] in "_.:@/-"
  }

  predicate ValidField(s: string) {
    1 <= |s| <= 64 && Letter(s[0]) && forall i :: 1 <= i < |s| ==> AlphaNum(s[i])
  }

  /** One entry of a push: something that is no operation at all, or an operation with its `set` present or absent. */
  datatype WireOp = Junk | Wire(op: Op, hasSet: bool, bytes: nat)

  predicate ValidOp(w: WireOp) {
    && w.Wire?
    && ValidKind(w.op.kind) && ValidId(w.op.id) && ValidHlc(w.op.hlc)
    && (if w.op.op.Delete? then !w.hasSet else w.hasSet && forall f :: f in w.op.writes ==> ValidField(f))
    && (forall f :: f in w.op.clocks ==> ValidField(f) && ValidHlc(w.op.clocks[f]))
    && w.bytes <= MAX_OP_BYTES
  }

  /** A push frame; `ops` is absent when it was no list. */
  datatype PushFrame = PushFrame(batch: string, ops: Option<seq<WireOp>>)

  predicate Acceptable(frame: PushFrame) {
    && frame.batch != "" && frame.ops.Some?
    && 1 <= |frame.ops.value| <= MAX_BATCH_OPS
    && forall w :: w in frame.ops.value ==> ValidOp(w)
  }

  function OpsOf(ops: seq<WireOp>): (plain: seq<Op>)
    requires forall w :: w in ops ==> w.Wire?
    ensures |plain| == |ops|
  {
    seq(|ops|, i requires 0 <= i < |ops| => ops[i].op)
  }

  // ---------- the overlay key ----------

  function OverlayKey(k: Key): string {
    k.kind + " " + k.id
  }

  /** The text key of the batch overlay names one table key, because no kind contains a space. */
  lemma {:induction false} OverlayKeyIsInjective(a: Key, b: Key)
    requires ' ' !in a.kind && ' ' !in b.kind && OverlayKey(a) == OverlayKey(b)
    ensures a == b
    decreases |a.kind|
  {
    var s := OverlayKey(a);
    if a.kind == "" || b.kind == "" {
      assert s[0] == ' ' <==> a.kind == "";
      assert s[0] == ' ' <==> b.kind == "";
      assert a.id == s[1..] && b.id == s[1..];
    } else {
      var a', b' := Key(a.kind[1..], a.id), Key(b.kind[1..], b.id);
      assert OverlayKey(a') == s[1..] && OverlayKey(b') == s[1..];
      OverlayKeyIsInjective(a', b');
      assert a.kind == [s[0]] + a'.kind && b.kind == [s[0]] + b'.kind;
    }
  }

  lemma ValidKindHasNoSpace(kind: string)
    requires ValidKind(kind)
    ensures ' ' !in kind
  {
  }

  // ---------- pushing a batch ----------

  /** One operation against the table, stamping the row when it changes. */
  ghost function StepRow(t: Table, op: Op, stamp: nat): Table {
    var result := ApplyOp(Lookup(t, KeyOf(op)), op);
    if result.changed && result.row.Some? then t[KeyOf(op) := result.row.value.(stamp := stamp)] else t
  }

  ghost function Applies(t: Table, op: Op): nat {
    if ApplyOp(Lookup(t, KeyOf(op)), op).changed then 1 else 0
  }

  ghost function Batch(t: Table, ops: seq<Op>, stamp: nat): Table
    decreases ops
  {
    if ops == [] then t else Batch(StepRow(t, ops[0], stamp), ops[1..], stamp)
  }

  ghost function AppliedCount(t: Table, ops: seq<Op>, stamp: nat): nat
    decreases ops
  {
    if ops == [] then 0 else Applies(t, ops[0]) + AppliedCount(StepRow(t, ops[0], stamp), ops[1..], stamp)
  }

  ghost function PushServer(s: Server, ops: seq<Op>): Server {
    var next := s.seqNo + 1;
    if AppliedCount(s.rows, ops, next) == 0 then s
    else s.(rows := Batch(s.rows, ops, next), seqNo := next, dirty := true)
  }

  // ---------- answering a hello ----------

  function RowsSince(t: Table, cursor: nat): Table {
    map k | k in t && t[k].stamp > cursor :: t[k]
  }

  datatype StateFrame = StateFrame(seqNo: nat, full: bool, gcFloor: nat, rows: Table)

  function HelloAnswer(s: Server, cursor: Option<nat>): StateFrame {
    var full := cursor.None? || cursor.value < s.gcFloor || cursor.value > s.seqNo;
    StateFrame(s.seqNo, full, s.gcFloor, if full then RowsSince(s.rows, 0) else RowsSince(s.rows, cursor.value))
  }

  // ---------- tombstone collection ----------

  predicate Doomed(row: Row, bound: Hlc) {
    row.deleted && row.delHlc.Some? && Before(row.delHlc.value, bound)
  }

  ghost function DoomedKeys(t: Table, bound: Hlc): set<Key> {
    set k | k in t && Doomed(t[k], bound)
  }

  ghost predicate IsMaxStamp(t: Table, keys: set<Key>, n: nat) {
    && (forall k :: k in keys && k in t ==> t[k].stamp <= n)
    && (n > 0 ==> exists k :: k in keys && k in t && t[k].stamp == n)
  }

  /** The newest stamp among some rows of the table, 0 for none. */
  ghost function MaxStamp(t: Table, keys: set<Key>): (n: nat)
    requires keys <= t.Keys
    ensures IsMaxStamp(t, keys, n)
  {
    if keys == {} then 0
    else
      var k :| k in keys;
      var rest := MaxStamp(t, keys - {k});
      if rest < t[k].stamp then t[k].stamp else rest
  }

  ghost function Collect(s: Server, bound: Hlc): Server {
    var doomed := DoomedKeys(s.rows, bound);
    var purged := MaxStamp(s.rows, doomed);
    if purged > 0 then s.(rows := s.rows - doomed, gcFloor := if s.gcFloor < purged then purged else s.gcFloor)
    else s
  }

  ghost function AlarmServer(s: Server, now: nat): Server {
    if s.dirty then Collect(s, HorizonHlc(now - TOMBSTONE_RETAIN_MS)).(dirty := false) else s
  }

  // ---------- what every stored table satisfies ----------

  ghost predicate ValidClocks(delHlc: Option<Hlc>, clocks: map<string, Hlc>) {
    (delHlc.Some? ==> ValidHlc(delHlc.value)) && forall f :: f in clocks ==> ValidHlc(clocks[f])
  }

  ghost predicate RowOk(k: Key, row: Row, seqNo: nat) {
    && row.kind == k.kind && row.id == k.id && ValidKind(k.kind)
    && 1 <= row.stamp <= seqNo
    && WellFormed(row) && ValidClocks(row.delHlc, row.clocks)
  }

  ghost predicate ServerOk(s: Server) {
    && (forall k :: k in s.rows ==> RowOk(k, s.rows[k], s.seqNo))
    && s.gcFloor <= s.seqNo
  }

  ghost predicate ValidOps(ops: seq<Op>) {
    forall op :: op in ops ==> ValidKind(op.kind) && ValidClocks(Some(op.hlc), op.clocks)
  }

  /** Clocks that passed validation are the only ones a row ever holds. */
  lemma ApplyKeepsValidClocks(row: Option<Row>, op: Op)
    requires row.Some? ==> ValidClocks(row.value.delHlc, row.value.clocks)
    requires ValidClocks(Some(op.hlc), op.clocks)
    ensures var r := ApplyOp(row, op).row; r.Some? ==> ValidClocks(r.value.delHlc, r.value.clocks)
  {
    var r := ApplyOp(row, op).row;
    if r.Some? {
      forall f | f in r.value.clocks ensures ValidHlc(r.value.clocks[f]) {
        assert Get(r.value.clocks, f) == Some(r.value.clocks[f]);
      }
    }
  }

  lemma StepRowOk(t: Table, op: Op, stamp: nat, k: Key)
    requires stamp > 0 && ValidKind(op.kind) && ValidClocks(Some(op.hlc), op.clocks)
    requires forall j :: j in t ==> RowOk(j, t[j], stamp)
    requires k in StepRow(t, op, stamp)
    ensures RowOk(k, StepRow(t, op, stamp)[k], stamp)
  {
    if k == KeyOf(op) {
      ApplyKeepsWellFormed(Lookup(t, k), op);
      ApplyKeepsValidClocks(Lookup(t, k), op);
    }
  }

  lemma {:induction false} BatchRowsOk(t: Table, ops: seq<Op>, stamp: nat)
    requires stamp > 0 && ValidOps(ops)
    requires forall k :: k in t ==> RowOk(k, t[k], stamp)
    ensures forall k :: k in Batch(t, ops, stamp) ==> RowOk(k, Batch(t, ops, stamp)[k], stamp)
    decreases ops
  {
    if ops != [] {
      forall k | k in StepRow(t, ops[0], stamp) ensures RowOk(k, StepRow(t, ops[0], stamp)[k], stamp) {
        StepRowOk(t, ops[0], stamp, k);
      }
      BatchRowsOk(StepRow(t, ops[0], stamp), ops[1..], stamp);
    }
  }

  /** Every push keeps the table well formed, its clocks valid, and every stamp between 1 and the batch counter. */
  lemma PushKeepsServerOk(s: Server, ops: seq<Op>)
    requires ServerOk(s) && ValidOps(ops)
    ensures ServerOk(PushServer(s, ops))
  {
    BatchRowsOk(s.rows, ops, s.seqNo + 1);
  }

  lemma AlarmKeepsServerOk(s: Server, now: nat)
    requires ServerOk(s)
    ensures ServerOk(AlarmServer(s, now))
  {
  }

  /**
   * The alarm removes exactly the tombstones whose clock is more than the retention old, nothing when idle, and
   * leaves every other row as it was; the floor then covers what it removed.
   */
  lemma AlarmPurgesExactlyOldTombstones(s: Server, now: nat, k: Key)
    requires ServerOk(s) && k in s.rows && now - TOMBSTONE_RETAIN_MS < Pow10(MS_WIDTH)
    ensures var row, s' := s.rows[k], AlarmServer(s, now);
            && (k !in s'.rows <==> s.dirty && row.deleted && MsOf(row.delHlc.value) + TOMBSTONE_RETAIN_MS < now)
            && (k !in s'.rows ==> row.stamp <= s'.gcFloor)
            && (k in s'.rows ==> s'.rows[k] == row)
  {
    var row := s.rows[k];
    assert RowOk(k, row, s.seqNo);
    if row.deleted {
      assert Pow10(MS_WIDTH - 1) == 1_000_000_000_000;
      HorizonSelectsValidClocks(row.delHlc.value, now - TOMBSTONE_RETAIN_MS);
    }
  }

  /**
   * The alarm raises the floor to the newest stamp it purged, if that is above it, and no further; it leaves the
   * counter alone and is idle until the next push.
   */
  lemma AlarmRaisesFloorExactly(s: Server, now: nat)
    requires ServerOk(s)
    ensures var s' := AlarmServer(s, now);
            && s'.seqNo == s.seqNo && !s'.dirty && s.gcFloor <= s'.gcFloor
            && (forall k :: k in s.rows && k !in s'.rows ==> s.rows[k].stamp <= s'.gcFloor)
            && (s'.gcFloor == s.gcFloor || exists k :: k in s.rows && k !in s'.rows && s.rows[k].stamp == s'.gcFloor)
  {
    if s.dirty {
      var doomed := DoomedKeys(s.rows, HorizonHlc(now - TOMBSTONE_RETAIN_MS));
      assert IsMaxStamp(s.rows, doomed, MaxStamp(s.rows, doomed));
    }
  }

  /** Rows a batch leaves alone, and rows it stamps. */
  lemma {:induction false} BatchTouches(t: Table, ops: seq<Op>, stamp: nat, k: Key)
    ensures k in t ==> k in Batch(t, ops, stamp)
    ensures var t' := Batch(t, ops, stamp); k in t' ==> t'[k].stamp == stamp || (k in t && t'[k] == t[k])
    decreases ops
  {
    if ops != [] {
      BatchTouches(StepRow(t, ops[0], stamp), ops[1..], stamp, k);
    }
  }

  // ---------- laws of a push ----------

  lemma {:induction false} BatchSnoc(t: Table, ops: seq<Op>, op: Op, stamp: nat)
    ensures Batch(t, ops + [op], stamp) == StepRow(Batch(t, ops, stamp), op, stamp)
    ensures AppliedCount(t, ops + [op], stamp) == AppliedCount(t, ops, stamp) + Applies(Batch(t, ops, stamp), op)
    decreases ops
  {
    if ops == [] {
      assert [op][1..] == [];
    } else {
      assert (ops + [op])[1..] == ops[1..] + [op];
      BatchSnoc(StepRow(t, ops[0], stamp), ops[1..], op, stamp);
    }
  }

  /**
   * A push applies nothing, and leaves the server as it was, exactly when each operation alone would change nothing.
   */
  lemma {:induction false} PushAppliesNothingExactly(t: Table, ops: seq<Op>, stamp: nat)
    ensures AppliedCount(t, ops, stamp) == 0 <==> forall op :: op in ops ==> !ApplyOp(Lookup(t, KeyOf(op)), op).changed
    ensures AppliedCount(t, ops, stamp) == 0 ==> Batch(t, ops, stamp) == t
    decreases ops
  {
    if ops != [] {
      PushAppliesNothingExactly(StepRow(t, ops[0], stamp), ops[1..], stamp);
      assert forall op :: op in ops <==> op == ops[0] || op in ops[1..];
    }
  }

  /** The table with its stamps forgotten. */
  ghost function Unstamped(t: Table): Table {
    map k | k in t :: t[k].(stamp := 0)
  }

  ghost function OneAtATime(s: Server, ops: seq<Op>): Server
    decreases ops
  {
    if ops == [] then s else OneAtATime(PushServer(s, [ops[0]]), ops[1..])
  }

  lemma StampsDoNotMatter(r: Row, op: Op, n: nat)
    ensures var a, b := ApplyOp(Some(r), op), ApplyOp(Some(r.(stamp := n)), op);
            a.changed == b.changed && a.row.Some? && b.row == Some(a.row.value.(stamp := n))
  {
    var base := if r.deleted then Revived(r) else r;
    forall f ensures FieldAfter(base, op, f) == FieldAfter(base.(stamp := n), op, f) {
    }
    EqualByGet(MergedFields(base, op), MergedFields(base.(stamp := n), op));
    assert ClockSet(r) == ClockSet(r.(stamp := n));
    NewestIsUnique(MaxClock(r), MaxClock(r.(stamp := n)), ClockSet(r));
  }

  lemma StepIgnoresStamps(t: Table, t': Table, op: Op, n: nat, n': nat)
    requires Unstamped(t) == Unstamped(t')
    ensures Unstamped(StepRow(t, op, n)) == Unstamped(StepRow(t', op, n'))
    ensures Applies(t, op) == Applies(t', op)
  {
    var k := KeyOf(op);
    assert k in t <==> k in Unstamped(t);
    assert k in t' <==> k in Unstamped(t');
    if k in t {
      assert Unstamped(t)[k] == Unstamped(t')[k];
      assert t'[k] == t[k].(stamp := t'[k].stamp);
      StampsDoNotMatter(t[k], op, t'[k].stamp);
    }
    var u, u' := StepRow(t, op, n), StepRow(t', op, n');
    forall j ensures j in Unstamped(u) <==> j in Unstamped(u') {
      assert j in Unstamped(t) <==> j in Unstamped(t');
    }
    forall j | j in Unstamped(u) ensures Unstamped(u)[j] == Unstamped(u')[j] {
      if j != k {
        assert Unstamped(t)[j] == Unstamped(t')[j];
      }
    }
  }

  lemma {:induction false} BatchVersusOneAtATime(t: Table, s: Server, ops: seq<Op>, stamp: nat)
    requires Unstamped(t) == Unstamped(s.rows)
    ensures Unstamped(Batch(t, ops, stamp)) == Unstamped(OneAtATime(s, ops).rows)
    ensures OneAtATime(s, ops).seqNo == s.seqNo + AppliedCount(t, ops, stamp)
    decreases ops
  {
    if ops != [] {
      var one := PushServer(s, [ops[0]]);
      assert [ops[0]][1..] == [];
      assert Batch(StepRow(s.rows, ops[0], s.seqNo + 1), [], s.seqNo + 1) == StepRow(s.rows, ops[0], s.seqNo + 1);
      StepIgnoresStamps(t, s.rows, ops[0], stamp, s.seqNo + 1);
      assert AppliedCount(s.rows, [ops[0]], s.seqNo + 1) == Applies(s.rows, ops[0]);
      assert Applies(s.rows, ops[0]) == 0 ==> StepRow(s.rows, ops[0], s.seqNo + 1) == s.rows;
      BatchVersusOneAtATime(StepRow(t, ops[0], stamp), one, ops[1..], stamp);
    }
  }

  /**
   * A batch is its operations pushed one at a time, up to stamps; the counter pays one per batch, not per operation,
   * and the number reported as applied is what it would pay one at a time.
   */
  lemma BatchEqualsOneAtATime(s: Server, ops: seq<Op>)
    ensures Unstamped(PushServer(s, ops).rows) == Unstamped(OneAtATime(s, ops).rows)
    ensures PushServer(s, ops).seqNo == s.seqNo + if OneAtATime(s, ops).seqNo == s.seqNo then 0 else 1
    ensures AppliedCount(s.rows, ops, s.seqNo + 1) == OneAtATime(s, ops).seqNo - s.seqNo
  {
    BatchVersusOneAtATime(s.rows, s, ops, s.seqNo + 1);
    PushAppliesNothingExactly(s.rows, ops, s.seqNo + 1);
  }

  /** What a push broadcasts, the rows stamped by it, is exactly the delta after the previous counter. */
  lemma BroadcastIsTheDelta(s: Server, ops: seq<Op>, k: Key)
    requires ServerOk(s) && ValidOps(ops)
    ensures var s' := PushServer(s, ops);
            k in RowsSince(s'.rows, s.seqNo) <==> k in s'.rows && Lookup(s'.rows, k) != Lookup(s.rows, k)
  {
    BatchTouches(s.rows, ops, s.seqNo + 1, k);
    PushAppliesNothingExactly(s.rows, ops, s.seqNo + 1);
  }
}
