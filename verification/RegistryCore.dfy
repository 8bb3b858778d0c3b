/**
 * The registry's merge core (edge/src/registry-core.ts): rows whose fields each carry the clock of
 * their last write, and the three operations that change a row.
 */
module RegistryCore {
  import opened Options
  import opened Hlc

  /** A field value, as the JSON text the table stores. */
  type Json = string

  datatype OpKind = Upsert | Update | Delete

  /** `stamp` is the source's `seq`: the number of the batch that last touched the row. */
  datatype Row = Row(
    kind: string, id: string, stamp: nat, deleted: bool, delHlc: Option<Hlc>,
    fields: map<string, Json>, clocks: map<string, Hlc>)

  /** `writes` is the source's `set` (empty when absent); a `None` in it is `null`, which clears the field. */
  datatype Op = Op(
    kind: string, id: string, op: OpKind, writes: map<string, Option<Json>>,
    hlc: Hlc, clocks: map<string, Hlc>)

  datatype ApplyResult = ApplyResult(row: Option<Row>, changed: bool)

  function ClockFor(op: Op, field: string): Hlc {
    if field in op.clocks then op.clocks[field] else op.hlc
  }

  function Get<V>(m: map<string, V>, key: string): Option<V> {
    if key in m then Some(m[key]) else None
  }

  // ---------- the specification ----------

  ghost function ClockSet(row: Row): set<Hlc> {
    row.clocks.Values + (if row.delHlc.Some? then {row.delHlc.value} else {})
  }

  ghost predicate IsNewest(m: Option<Hlc>, s: set<Hlc>) {
    && (m.None? <==> s == {})
    && (m.Some? ==> m.value in s && forall c :: c in s ==> !Before(m.value, c))
  }

  lemma {:induction false} NewestExists(s: set<Hlc>)
    requires s != {}
    ensures exists m :: m in s && forall c :: c in s ==> !Before(m, c)
  {
    ClocksAreTotallyOrdered();
    var x :| x in s;
    var rest := s - {x};
    if rest == {} {
      assert s == {x};
    } else {
      NewestExists(rest);
      var m :| m in rest && forall c :: c in rest ==> !Before(m, c);
      var top := if Before(m, x) then x else m;
      assert forall c :: c in s ==> c == x || c in rest;
      assert top in s && forall c :: c in s ==> !Before(top, c);
    }
  }

  ghost function Newest(s: set<Hlc>): (m: Option<Hlc>)
    ensures IsNewest(m, s)
  {
    if s == {} then None
    else
      NewestExists(s);
      var m :| m in s && forall c :: c in s ==> !Before(m, c);
      Some(m)
  }

  /** The newest clock anywhere on a row, tombstone included. */
  ghost function MaxClock(row: Row): (m: Option<Hlc>)
    ensures IsNewest(m, ClockSet(row))
  {
    Newest(ClockSet(row))
  }

  predicate Wins(clocks: map<string, Hlc>, op: Op, field: string) {
    field in op.writes && HlcNewer(ClockFor(op, field), Get(clocks, field))
  }

  function ClockAfter(clocks: map<string, Hlc>, op: Op, field: string): Option<Hlc> {
    if Wins(clocks, op, field) then Some(ClockFor(op, field)) else Get(clocks, field)
  }

  function FieldAfter(row: Row, op: Op, field: string): Option<Json> {
    if Wins(row.clocks, op, field) then op.writes[field] else Get(row.fields, field)
  }

  function MergedClocks(clocks: map<string, Hlc>, op: Op): (merged: map<string, Hlc>)
    ensures forall f :: Get(merged, f) == ClockAfter(clocks, op, f)
  {
    map f | f in clocks.Keys + op.writes.Keys && ClockAfter(clocks, op, f).Some? :: ClockAfter(clocks, op, f).value
  }

  function MergedFields(row: Row, op: Op): (merged: map<string, Json>)
    ensures forall f :: Get(merged, f) == FieldAfter(row, op, f)
  {
    map f | f in row.fields.Keys + op.writes.Keys && FieldAfter(row, op, f).Some? :: FieldAfter(row, op, f).value
  }

  lemma EqualByGet<V>(a: map<string, V>, b: map<string, V>)
    requires forall f :: Get(a, f) == Get(b, f)
    ensures a == b
  {
    forall f ensures f in a <==> f in b {
      assert Get(a, f) == Get(b, f);
    }
    forall f | f in a ensures a[f] == b[f] {
      assert Get(a, f) == Get(b, f);
    }
  }

  ghost predicate AnyWins(clocks: map<string, Hlc>, op: Op) {
    exists f :: Wins(clocks, op, f)
  }

  ghost function WriteFields(base: Row, op: Op, created: bool): ApplyResult {
    if created || AnyWins(base.clocks, op) then
      ApplyResult(Some(base.(fields := MergedFields(base, op), clocks := MergedClocks(base.clocks, op))), true)
    else
      ApplyResult(Some(base), false)
  }

  function EmptyRow(kind: string, id: string): Row {
    Row(kind, id, 0, false, None, map[], map[])
  }

  function Buried(row: Row, hlc: Hlc): Row {
    row.(deleted := true, delHlc := Some(hlc), fields := map[], clocks := map[])
  }

  function Revived(row: Row): Row {
    row.(deleted := false, fields := map[], clocks := map[])
  }

  ghost function ApplyOp(row: Option<Row>, op: Op): ApplyResult {
    if op.op.Delete? then
      match row
      case None => ApplyResult(Some(Buried(EmptyRow(op.kind, op.id), op.hlc)), true)
      case Some(r) =>
        if HlcNewer(op.hlc, if r.deleted then r.delHlc else MaxClock(r))
        then ApplyResult(Some(Buried(r, op.hlc)), true)
        else ApplyResult(row, false)
    else
      match row
      case None =>
        if op.op.Update? then ApplyResult(None, false) else WriteFields(EmptyRow(op.kind, op.id), op, true)
      case Some(r) =>
        if !r.deleted then WriteFields(r, op, false)
        else if op.op.Update? || !HlcNewer(op.hlc, r.delHlc) then ApplyResult(row, false)
        else WriteFields(Revived(r), op, true)
  }

  ghost function ApplyAll(row: Option<Row>, ops: seq<Op>): Option<Row>
    decreases ops
  {
    if ops == [] then row else ApplyAll(ApplyOp(row, ops[0]).row, ops[1..])
  }

  /** A row as the operation that re-seeds it elsewhere, with its original clocks. */
  ghost function RowToSeedOp(row: Row): Op {
    var none := EncodeHlc(0, 0, "seed");
    if row.deleted then
      Op(row.kind, row.id, Delete, map[], if row.delHlc.Some? then row.delHlc.value else none, map[])
    else
      Op(row.kind, row.id, Upsert, map f | f in row.fields :: Some(row.fields[f]),
         if MaxClock(row).Some? then MaxClock(row).value else none, row.clocks)
  }

  // ---------- the code: loops over entries ----------

  /** `maxClock`: the loop over a row's clocks. */
  method MaxClockOf(row: Row) returns (max: Option<Hlc>)
    ensures max == MaxClock(row)
  {
    max := row.delHlc;
    var todo := row.clocks.Keys;
    ghost var seen: set<Hlc> := ClockSet(row) - row.clocks.Values;
    if row.delHlc.Some? {
      seen := {row.delHlc.value};
    }
    ClocksAreTotallyOrdered();
    while todo != {}
      invariant todo <= row.clocks.Keys
      invariant seen <= ClockSet(row)
      invariant row.delHlc.Some? ==> row.delHlc.value in seen
      invariant forall f :: f in row.clocks && f !in todo ==> row.clocks[f] in seen
      invariant IsNewest(max, seen)
    {
      var f :| f in todo;
      var clock := row.clocks[f];
      assert clock in row.clocks.Values;
      if max.None? || Before(max.value, clock) {
        max := Some(clock);
      }
      seen := seen + {clock};
      todo := todo - {f};
    }
    assert seen == ClockSet(row);
    NewestIsUnique(max, MaxClock(row), seen);
  }

  lemma NewestIsUnique(a: Option<Hlc>, b: Option<Hlc>, s: set<Hlc>)
    requires IsNewest(a, s) && IsNewest(b, s)
    ensures a == b
  {
    ClocksAreTotallyOrdered();
    if a.Some? && b.Some? {
      assert !Before(a.value, b.value) && !Before(b.value, a.value);
    }
  }

  /** The entry loop of `applyOp`: each field of the operation in some order, on copies of `fields` and `clocks`. */
  method WriteEntries(base: Row, op: Op, created: bool) returns (result: ApplyResult)
    ensures result == WriteFields(base, op, created)
  {
    var changed, fields, clocks := created, base.fields, base.clocks;
    var todo := op.writes.Keys;
    while todo != {}
      invariant todo <= op.writes.Keys
      invariant forall f :: Get(clocks, f) == if f in todo then Get(base.clocks, f) else ClockAfter(base.clocks, op, f)
      invariant forall f :: Get(fields, f) == if f in todo then Get(base.fields, f) else FieldAfter(base, op, f)
      invariant changed <==> created || exists f :: f !in todo && Wins(base.clocks, op, f)
    {
      var key :| key in todo;
      var clock := ClockFor(op, key);
      var wins := HlcNewer(clock, Get(clocks, key));
      assert wins == Wins(base.clocks, op, key);
      if wins {
        match op.writes[key] {
          case None => fields := fields - {key};
          case Some(value) => fields := fields[key := value];
        }
        clocks := clocks[key := clock];
        changed := true;
      }
      todo := todo - {key};
    }
    if !changed {
      return ApplyResult(Some(base), false);
    }
    EqualByGet(fields, MergedFields(base, op));
    EqualByGet(clocks, MergedClocks(base.clocks, op));
    return ApplyResult(Some(base.(fields := fields, clocks := clocks)), true);
  }

  /** `applyOp`, branch by branch. */
  method Apply(row: Option<Row>, op: Op) returns (result: ApplyResult)
    ensures result == ApplyOp(row, op)
  {
    if op.op.Delete? {
      if row.None? {
        return ApplyResult(Some(Row(op.kind, op.id, 0, true, Some(op.hlc), map[], map[])), true);
      }
      var bar := row.value.delHlc;
      if !row.value.deleted {
        bar := MaxClockOf(row.value);
      }
      if HlcNewer(op.hlc, bar) {
        var buried := row.value.(deleted := true, delHlc := Some(op.hlc), fields := map[], clocks := map[]);
        return ApplyResult(Some(buried), true);
      }
      return ApplyResult(row, false);
    }
    if row.None? {
      if op.op.Update? {
        return ApplyResult(None, false);
      }
      result := WriteEntries(Row(op.kind, op.id, 0, false, None, map[], map[]), op, true);
    } else if row.value.deleted {
      if op.op.Update? || !HlcNewer(op.hlc, row.value.delHlc) {
        return ApplyResult(row, false);
      }
      result := WriteEntries(row.value.(deleted := false, fields := map[], clocks := map[]), op, true);
    } else {
      result := WriteEntries(row.value, op, false);
    }
  }
}
