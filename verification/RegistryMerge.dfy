/**
 * Laws of the registry merge (edge/src/registry-core.ts, docs/registry-sync.md): concurrent writes
 * converge whatever their arrival order, clocks only move forward, redelivery and re-seeding are safe.
 */
module RegistryMerge {
  import opened Options
  import opened Hlc
  import opened RegistryCore

  ghost predicate WellFormed(row: Row) {
    && (forall f :: Get(row.fields, f).Some? ==> Get(row.clocks, f).Some?)
    && (row.deleted ==> row.clocks == map[] && row.fields == map[] && row.delHlc.Some?)
  }

  lemma ApplyKeepsWellFormed(row: Option<Row>, op: Op)
    requires row.Some? ==> WellFormed(row.value)
    ensures ApplyOp(row, op).row.Some? ==> WellFormed(ApplyOp(row, op).row.value)
  {
    if ApplyOp(row, op).row.Some? {
      var r := ApplyOp(row, op).row.value;
      forall f | Get(r.fields, f).Some? ensures Get(r.clocks, f).Some? {
      }
    }
  }

  /** An operation that changes nothing hands the row back as it was. */
  lemma UnchangedIsIdentity(row: Option<Row>, op: Op)
    requires !ApplyOp(row, op).changed
    ensures ApplyOp(row, op).row == row
  {
  }

  lemma BeatsMaxClock(h: Hlc, row: Row)
    ensures HlcNewer(h, MaxClock(row)) <==> forall c :: c in ClockSet(row) ==> Before(c, h)
  {
    ClocksAreTotallyOrdered();
    var max := MaxClock(row);
    if max.Some? {
      assert max.value in ClockSet(row);
      forall c | c in ClockSet(row) && Before(max.value, h) ensures Before(c, h) {
        assert Before(c, max.value) || c == max.value;
      }
    }
  }

  // ---------- live rows: any order of any writes ----------

  datatype Write = Write(field: string, clock: Hlc, value: Option<Json>)

  ghost function RowWrites(row: Row): set<Write> {
    set f | f in row.clocks :: Write(f, row.clocks[f], Get(row.fields, f))
  }

  /** The writes of `op` that are newer than what `row` holds. */
  ghost function NewWrites(row: Row, op: Op): set<Write> {
    set f | f in op.writes && Wins(row.clocks, op, f) :: Write(f, ClockFor(op, f), op.writes[f])
  }

  /** Every write that could end up in the row: its own, and the newer ones of the operations, in no order. */
  ghost function Candidates(row: Row, ops: set<Op>): set<Write> {
    RowWrites(row)
    + set op, f | op in ops && f in op.writes && Wins(row.clocks, op, f) :: Write(f, ClockFor(op, f), op.writes[f])
  }

  ghost predicate IsTop(w: Write, writes: set<Write>) {
    && w in writes
    && forall v :: v in writes && v.field == w.field ==> !Before(w.clock, v.clock)
  }

  /** The row's field `f` is the newest write to it, a `None` value meaning an absent field. */
  ghost predicate HoldsNewestAt(row: Row, writes: set<Write>, f: string) {
    match Get(row.clocks, f)
    case None => Get(row.fields, f).None? && forall w :: w in writes ==> w.field != f
    case Some(clock) => IsTop(Write(f, clock, Get(row.fields, f)), writes)
  }

  ghost predicate HoldsNewest(row: Row, writes: set<Write>) {
    forall f :: HoldsNewestAt(row, writes, f)
  }

  /** Newest writes to one field that tie on the clock also agree on the value. */
  ghost predicate NewestAgree(writes: set<Write>) {
    forall v, w :: IsTop(v, writes) && IsTop(w, writes) && v.field == w.field && v.clock == w.clock ==>
        v.value == w.value
  }

  ghost predicate NoDeletes(ops: seq<Op>) {
    forall op :: op in ops ==> !op.op.Delete?
  }

  ghost function Members<T>(s: seq<T>): set<T> {
    set x | x in s
  }

  lemma RowHoldsItsWrites(row: Row)
    requires WellFormed(row)
    ensures HoldsNewest(row, RowWrites(row))
  {
    ClocksAreTotallyOrdered();
  }

  /** On a live row an upsert or update only merges fields. */
  lemma LiveApply(r: Row, op: Op)
    requires !r.deleted && !op.op.Delete?
    ensures ApplyOp(Some(r), op).row.Some?
    ensures var r' := ApplyOp(Some(r), op).row.value;
            && r' == r.(fields := r'.fields, clocks := r'.clocks)
            && (forall f :: Get(r'.clocks, f) == ClockAfter(r.clocks, op, f))
            && (forall f :: Get(r'.fields, f) == FieldAfter(r, op, f))
  {
  }

  lemma LiveStepAt(row: Row, r: Row, writes: set<Write>, op: Op, f: string)
    requires RowWrites(row) <= writes && HoldsNewestAt(r, writes, f)
    ensures var r' := r.(fields := MergedFields(r, op), clocks := MergedClocks(r.clocks, op));
            HoldsNewestAt(r', writes + NewWrites(row, op), f)
  {
    ClocksAreTotallyOrdered();
    var c, c' := Get(r.clocks, f), ClockAfter(r.clocks, op, f);
    if f in row.clocks {
      assert Write(f, row.clocks[f], Get(row.fields, f)) in writes;
      assert !Before(c.value, row.clocks[f]);
    }
    var added := NewWrites(row, op);
    assert forall w :: w in added && w.field == f ==>
        w == Write(f, ClockFor(op, f), op.writes[f]) && Wins(row.clocks, op, f);
    if Wins(r.clocks, op, f) {
      var top := Write(f, ClockFor(op, f), op.writes[f]);
      assert Wins(row.clocks, op, f) && top in added;
      assert IsTop(top, writes + added);
    } else if c.Some? {
      assert IsTop(Write(f, c.value, Get(r.fields, f)), writes + added);
    }
  }

  lemma LiveStep(row: Row, r: Row, writes: set<Write>, op: Op)
    requires !r.deleted && !op.op.Delete?
    requires RowWrites(row) <= writes && HoldsNewest(r, writes)
    ensures var r' := ApplyOp(Some(r), op).row;
            r'.Some? && r'.value == r.(fields := r'.value.fields, clocks := r'.value.clocks)
            && HoldsNewest(r'.value, writes + NewWrites(row, op))
  {
    LiveApply(r, op);
    var r' := ApplyOp(Some(r), op).row.value;
    forall f ensures HoldsNewestAt(r', writes + NewWrites(row, op), f) {
      LiveStepAt(row, r, writes, op, f);
      assert Get(r'.clocks, f) == ClockAfter(r.clocks, op, f) && Get(r'.fields, f) == FieldAfter(r, op, f);
    }
  }

  lemma {:induction false} LiveRun(row: Row, r: Row, writes: set<Write>, ops: seq<Op>)
    requires !r.deleted && NoDeletes(ops)
    requires RowWrites(row) <= writes && HoldsNewest(r, writes)
    ensures var r' := ApplyAll(Some(r), ops);
            r'.Some? && r'.value == r.(fields := r'.value.fields, clocks := r'.value.clocks)
            && HoldsNewest(r'.value, writes + Candidates(row, Members(ops)))
    decreases ops
  {
    if ops == [] {
      assert writes + Candidates(row, Members(ops)) == writes;
    } else {
      LiveStep(row, r, writes, ops[0]);
      LiveRun(row, ApplyOp(Some(r), ops[0]).row.value, writes + NewWrites(row, ops[0]), ops[1..]);
      assert Members(ops) == {ops[0]} + Members(ops[1..]);
      assert writes + NewWrites(row, ops[0]) + Candidates(row, Members(ops[1..])) ==
             writes + Candidates(row, Members(ops));
    }
  }

  /** Whatever the order and repeats, a live row ends holding the newest candidate write of every field. */
  lemma LiveRowHoldsNewest(row: Row, ops: seq<Op>)
    requires WellFormed(row) && !row.deleted && NoDeletes(ops)
    ensures var r := ApplyAll(Some(row), ops);
            r.Some? && r.value == row.(fields := r.value.fields, clocks := r.value.clocks)
            && HoldsNewest(r.value, Candidates(row, Members(ops)))
  {
    RowHoldsItsWrites(row);
    LiveRun(row, row, RowWrites(row), ops);
    assert RowWrites(row) + Candidates(row, Members(ops)) == Candidates(row, Members(ops));
  }

  lemma HoldersAgree(r: Row, r': Row, writes: set<Write>)
    requires HoldsNewest(r, writes) && HoldsNewest(r', writes) && NewestAgree(writes)
    ensures r.fields == r'.fields && r.clocks == r'.clocks
  {
    forall f ensures Get(r.clocks, f) == Get(r'.clocks, f) && Get(r.fields, f) == Get(r'.fields, f) {
      HoldersAgreeAt(r, r', writes, f);
    }
    EqualByGet(r.fields, r'.fields);
    EqualByGet(r.clocks, r'.clocks);
  }

  lemma HoldersAgreeAt(r: Row, r': Row, writes: set<Write>, f: string)
    requires HoldsNewestAt(r, writes, f) && HoldsNewestAt(r', writes, f) && NewestAgree(writes)
    ensures Get(r.clocks, f) == Get(r'.clocks, f) && Get(r.fields, f) == Get(r'.fields, f)
  {
    ClocksAreTotallyOrdered();
    if f in r.clocks && f in r'.clocks {
      var w, w' := Write(f, r.clocks[f], Get(r.fields, f)), Write(f, r'.clocks[f], Get(r'.fields, f));
      assert IsTop(w, writes) && IsTop(w', writes);
      assert !Before(w.clock, w'.clock) && !Before(w'.clock, w.clock);
    }
  }

  /** Convergence: two deliveries of the same operations, in any orders and with any repeats, leave equal rows. */
  lemma LiveRowsConverge(row: Row, ops: seq<Op>, ops': seq<Op>)
    requires WellFormed(row) && !row.deleted && NoDeletes(ops)
    requires Members(ops) == Members(ops')
    requires NewestAgree(Candidates(row, Members(ops)))
    ensures ApplyAll(Some(row), ops) == ApplyAll(Some(row), ops')
  {
    assert NoDeletes(ops') by {
      forall op | op in ops' ensures op in ops { assert op in Members(ops'); }
    }
    LiveRowHoldsNewest(row, ops);
    LiveRowHoldsNewest(row, ops');
    HoldersAgree(ApplyAll(Some(row), ops).value, ApplyAll(Some(row), ops').value, Candidates(row, Members(ops)));
  }

  ghost predicate TiesAgree(ops: seq<Op>) {
    forall a, b, f :: a in ops && b in ops && f in a.writes && f in b.writes && ClockFor(a, f) == ClockFor(b, f)
      ==> a.writes[f] == b.writes[f]
  }

  /** Clocks that never tie on different values, which the device suffix gives, are enough to converge. */
  lemma DistinctClocksConverge(row: Row, ops: seq<Op>, ops': seq<Op>)
    requires WellFormed(row) && !row.deleted && NoDeletes(ops)
    requires Members(ops) == Members(ops') && TiesAgree(ops)
    ensures ApplyAll(Some(row), ops) == ApplyAll(Some(row), ops')
  {
    ClocksAreTotallyOrdered();
    LiveRowsConverge(row, ops, ops');
  }

  // ---------- the condition is exact ----------

  ghost predicate Arrangement(p: seq<Op>, ops: seq<Op>) {
    multiset(p) == multiset(ops)
  }

  ghost predicate EveryOrderAgrees(row: Row, ops: seq<Op>) {
    forall p, q :: Arrangement(p, ops) && Arrangement(q, ops) ==> ApplyAll(Some(row), p) == ApplyAll(Some(row), q)
  }

  lemma ArrangementMembers(p: seq<Op>, ops: seq<Op>)
    requires Arrangement(p, ops)
    ensures Members(p) == Members(ops) && |p| == |ops|
  {
    assert forall x :: x in p <==> x in multiset(p);
    assert forall x :: x in ops <==> x in multiset(ops);
    assert |multiset(p)| == |multiset(ops)|;
  }

  /** A field nothing beats stays as it is. */
  lemma {:induction false} UnbeatenFieldStays(r: Row, ops: seq<Op>, f: string)
    requires !r.deleted && NoDeletes(ops)
    requires forall op :: op in ops ==> !Wins(r.clocks, op, f)
    ensures var r' := ApplyAll(Some(r), ops); r'.Some? && Get(r'.value.fields, f) == Get(r.fields, f)
    decreases ops
  {
    if ops != [] {
      LiveApply(r, ops[0]);
      var r' := ApplyOp(Some(r), ops[0]).row.value;
      assert Get(r'.clocks, f) == Get(r.clocks, f) && Get(r'.fields, f) == Get(r.fields, f);
      forall op | op in ops[1..] ensures !Wins(r'.clocks, op, f) {
        assert op in ops && Wins(r'.clocks, op, f) == Wins(r.clocks, op, f);
      }
      UnbeatenFieldStays(r', ops[1..], f);
    }
  }

  /** Delivered first, a newest write decides its field. */
  lemma FirstNewestWriteDecides(row: Row, ops: seq<Op>, i: nat, f: string)
    requires WellFormed(row) && !row.deleted && NoDeletes(ops) && i < |ops|
    requires Wins(row.clocks, ops[i], f)
    requires IsTop(Write(f, ClockFor(ops[i], f), ops[i].writes[f]), Candidates(row, Members(ops)))
    ensures var p := [ops[i]] + ops[..i] + ops[i + 1..];
            && Arrangement(p, ops)
            && ApplyAll(Some(row), p).Some?
            && Get(ApplyAll(Some(row), p).value.fields, f) == ops[i].writes[f]
  {
    var rest := ops[..i] + ops[i + 1..];
    var p := [ops[i]] + ops[..i] + ops[i + 1..];
    assert p == [ops[i]] + rest && p[1..] == rest;
    assert ops == ops[..i] + [ops[i]] + ops[i + 1..];
    LiveApply(row, ops[i]);
    var r := ApplyOp(Some(row), ops[i]).row.value;
    assert Get(r.clocks, f) == Some(ClockFor(ops[i], f)) && Get(r.fields, f) == ops[i].writes[f];
    ClocksAreTotallyOrdered();
    forall op | op in rest ensures !Wins(r.clocks, op, f) {
      assert op in Members(ops);
      assert Wins(row.clocks, op, f) ==> Write(f, ClockFor(op, f), op.writes[f]) in Candidates(row, Members(ops));
    }
    UnbeatenFieldStays(r, rest, f);
  }

  /** Two different newest writes that tie both come from operations, and each beats the row. */
  lemma TopWriter(row: Row, ops: seq<Op>, v: Write, w: Write) returns (i: nat)
    requires var all := Candidates(row, Members(ops)); IsTop(v, all) && IsTop(w, all)
    requires v.field == w.field && v.clock == w.clock && v.value != w.value
    ensures i < |ops| && Wins(row.clocks, ops[i], v.field)
    ensures v == Write(v.field, ClockFor(ops[i], v.field), ops[i].writes[v.field])
  {
    ClocksAreTotallyOrdered();
    assert v !in RowWrites(row);
    var op :| op in Members(ops) && v.field in op.writes && Wins(row.clocks, op, v.field)
      && v == Write(v.field, ClockFor(op, v.field), op.writes[v.field]);
    i :| 0 <= i < |ops| && ops[i] == op;
  }

  lemma OrdersAgreeWhenNewestDo(row: Row, ops: seq<Op>)
    requires WellFormed(row) && !row.deleted && NoDeletes(ops)
    requires NewestAgree(Candidates(row, Members(ops)))
    ensures EveryOrderAgrees(row, ops)
  {
    forall p, q | Arrangement(p, ops) && Arrangement(q, ops)
      ensures ApplyAll(Some(row), p) == ApplyAll(Some(row), q)
    {
      ArrangementMembers(p, ops);
      ArrangementMembers(q, ops);
      assert forall op :: op in p ==> op in Members(p);
      LiveRowsConverge(row, p, q);
    }
  }

  lemma OrderDecidedBy(row: Row, ops: seq<Op>, v: Write, w: Write) returns (p: seq<Op>)
    requires WellFormed(row) && !row.deleted && NoDeletes(ops)
    requires var all := Candidates(row, Members(ops)); IsTop(v, all) && IsTop(w, all)
    requires v.field == w.field && v.clock == w.clock && v.value != w.value
    ensures Arrangement(p, ops) && ApplyAll(Some(row), p).Some?
    ensures Get(ApplyAll(Some(row), p).value.fields, v.field) == v.value
  {
    var i := TopWriter(row, ops, v, w);
    FirstNewestWriteDecides(row, ops, i, v.field);
    p := [ops[i]] + ops[..i] + ops[i + 1..];
  }

  lemma OrdersDifferWhenNewestDo(row: Row, ops: seq<Op>, v: Write, w: Write)
    requires WellFormed(row) && !row.deleted && NoDeletes(ops)
    requires var all := Candidates(row, Members(ops)); IsTop(v, all) && IsTop(w, all)
    requires v.field == w.field && v.clock == w.clock && v.value != w.value
    ensures !EveryOrderAgrees(row, ops)
  {
    var p := OrderDecidedBy(row, ops, v, w);
    var q := OrderDecidedBy(row, ops, w, v);
    assert Arrangement(p, ops) && Arrangement(q, ops) && ApplyAll(Some(row), p) != ApplyAll(Some(row), q);
  }

  /** All arrival orders agree if and only if the newest candidate writes to each field agree wherever they tie. */
  lemma ConvergenceIsExact(row: Row, ops: seq<Op>)
    requires WellFormed(row) && !row.deleted && NoDeletes(ops)
    ensures EveryOrderAgrees(row, ops) <==> NewestAgree(Candidates(row, Members(ops)))
  {
    var all := Candidates(row, Members(ops));
    if NewestAgree(all) {
      OrdersAgreeWhenNewestDo(row, ops);
    } else {
      var v, w :| IsTop(v, all) && IsTop(w, all) && v.field == w.field && v.clock == w.clock && v.value != w.value;
      OrdersDifferWhenNewestDo(row, ops, v, w);
    }
  }
}
