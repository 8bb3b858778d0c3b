/**
 * What every arrival of operations on one row keeps (edge/src/registry-core.ts:111-161). A delete that wins forgets the
 * row, a later upsert revives it with its own fields only, an update without a live row is dropped, and each comparison
 * looks at other clocks: a delete at every clock on the row, a revival at the operation's own, a write at its field's.
 * Two invariants follow an arrival in any order: what the upserts that no delete can stop leave on the row, and what
 * happens where there are none.
 */
module RegistryArrivals {
  import opened Options
  import opened Hlc
  import opened RegistryCore
  import opened RegistryMerge

  // ---------- the operations ----------

  ghost predicate Writes(op: Op, f: string) {
    !op.op.Delete? && f in op.writes
  }

  /** Two writes of one field under one clock carry one value, as the device in every clock ensures. */
  ghost predicate TiesAgreeIn(all: set<Op>) {
    forall a, b, f :: a in all && b in all && Writes(a, f) && Writes(b, f) && ClockFor(a, f) == ClockFor(b, f) ==>
        a.writes[f] == b.writes[f]
  }

  ghost function DeleteClocks(all: set<Op>): set<Hlc> {
    set op | op in all && op.op.Delete? :: op.hlc
  }

  /** The clock of the newest delete, if there is a delete at all. */
  ghost function LastDelete(all: set<Op>): Option<Hlc> {
    Newest(DeleteClocks(all))
  }

  /** An upsert that revives a tombstone of clock `d`; every upsert does, when there is no delete. */
  ghost predicate Outlives(op: Op, d: Option<Hlc>) {
    op.op.Upsert? && HlcNewer(op.hlc, d)
  }

  /** Once written, some field of the operation keeps a delete of clock `d` from winning. */
  ghost predicate Fences(op: Op, d: Option<Hlc>) {
    !op.op.Delete? && (d.None? || exists f :: f in op.writes && !Before(ClockFor(op, f), d.value))
  }

  /** Both: wherever such an upsert arrives its writes land, and no delete removes them. */
  ghost predicate Lasts(op: Op, d: Option<Hlc>) {
    Outlives(op, d) && Fences(op, d)
  }

  ghost predicate HasUpsert(all: set<Op>) {
    exists u :: u in all && u.op.Upsert?
  }

  ghost predicate SomeOutlives(all: set<Op>, d: Option<Hlc>) {
    exists u :: u in all && Outlives(u, d)
  }

  ghost predicate SomeFences(all: set<Op>, d: Option<Hlc>) {
    exists u :: u in all && Fences(u, d)
  }

  ghost predicate SomeLasts(all: set<Op>, d: Option<Hlc>) {
    exists u :: u in all && Lasts(u, d)
  }

  /** Some order leaves the row live. */
  ghost predicate Contested(all: set<Op>, d: Option<Hlc>) {
    SomeOutlives(all, d) || (HasUpsert(all) && SomeFences(all, d))
  }

  /** A lasting upsert writes `f` at least as new as `u` does. */
  ghost predicate Overwritten(all: set<Op>, d: Option<Hlc>, u: Op, f: string) {
    exists p :: p in all && Lasts(p, d) && f in p.writes && !Before(ClockFor(p, f), ClockFor(u, f))
  }

  /**
   * Either no order leaves the row live, or some upserts last, and they write every field that anything writes, at
   * least as new.
   */
  ghost predicate Covered(all: set<Op>) {
    var d := LastDelete(all);
    Contested(all, d) ==>
      && SomeLasts(all, d)
      && forall u, f :: u in all && Writes(u, f) ==> Overwritten(all, d, u, f)
  }

  // ---------- where a row's parts come from ----------

  ghost predicate HasDelete(seen: set<Op>, h: Hlc) {
    exists op :: op in seen && op.op.Delete? && op.hlc == h
  }

  ghost predicate Wrote(u: Op, f: string, c: Hlc, value: Option<Json>) {
    Writes(u, f) && ClockFor(u, f) == c && u.writes[f] == value
  }

  /** Field `f` is as some operation seen left it. */
  ghost predicate FromSeen(r: Row, seen: set<Op>, f: string) {
    match Get(r.clocks, f)
    case None => Get(r.fields, f).None?
    case Some(c) => exists u :: u in seen && Wrote(u, f, c, Get(r.fields, f))
  }

  /** The row is absent until an upsert or delete arrives, and is made of what was seen. */
  ghost predicate Origin(row: Option<Row>, seen: set<Op>) {
    match row
    case None => forall op :: op in seen ==> op.op.Update?
    case Some(r) =>
      && (r.delHlc.Some? ==> HasDelete(seen, r.delHlc.value))
      && if r.deleted then r.clocks == map[] && r.fields == map[] && r.delHlc.Some?
         else HasUpsert(seen) && forall f :: FromSeen(r, seen, f)
  }

  lemma HasDeleteGrows(seen: set<Op>, op: Op, h: Hlc)
    ensures HasDelete(seen + {op}, h) <==> HasDelete(seen, h) || (op.op.Delete? && op.hlc == h)
  {
  }

  lemma FromSeenGrows(r: Row, r': Row, seen: set<Op>, op: Op, f: string)
    requires FromSeen(r, seen, f) && Get(r'.clocks, f) == Get(r.clocks, f) && Get(r'.fields, f) == Get(r.fields, f)
    ensures FromSeen(r', seen + {op}, f)
  {
    if Get(r.clocks, f).Some? {
      var c := r.clocks[f];
      var u :| u in seen && Wrote(u, f, c, Get(r.fields, f));
      assert u in seen + {op};
    }
  }

  /** A write merged into a live base, kept or lost field by field. */
  lemma MergeFromSeen(base: Row, seen: set<Op>, op: Op, r': Row, f: string)
    requires !op.op.Delete? && FromSeen(base, seen, f)
    requires Get(r'.clocks, f) == ClockAfter(base.clocks, op, f) && Get(r'.fields, f) == FieldAfter(base, op, f)
    ensures FromSeen(r', seen + {op}, f)
  {
    if Wins(base.clocks, op, f) {
      assert op in seen + {op} && Wrote(op, f, ClockFor(op, f), op.writes[f]);
    } else {
      FromSeenGrows(base, r', seen, op, f);
    }
  }

  lemma OriginUnderDelete(row: Option<Row>, seen: set<Op>, op: Op)
    requires Origin(row, seen) && op.op.Delete?
    ensures Origin(ApplyOp(row, op).row, seen + {op})
  {
    var r' := ApplyOp(row, op).row.value;
    assert op in seen + {op};
    if !ApplyOp(row, op).changed && !r'.deleted {
      var u :| u in seen && u.op.Upsert?;
      assert u in seen + {op};
      forall f ensures FromSeen(r', seen + {op}, f) {
        FromSeenGrows(r', r', seen, op, f);
      }
    }
    if r'.delHlc.Some? {
      HasDeleteGrows(seen, op, r'.delHlc.value);
    }
  }

  /** The live base an operation writes into, where it does. */
  ghost function BaseFor(row: Option<Row>, op: Op): Row {
    if row.None? then EmptyRow(op.kind, op.id) else if row.value.deleted then Revived(row.value) else row.value
  }

  /** The operation reaches a live row: it finds, creates or revives one. */
  ghost predicate Lands(row: Option<Row>, op: Op) {
    && !op.op.Delete?
    && (row.None? ==> op.op.Upsert?)
    && (row.Some? && row.value.deleted ==> Outlives(op, row.value.delHlc))
  }

  lemma LandingMerges(row: Option<Row>, op: Op)
    requires Lands(row, op)
    ensures ApplyOp(row, op).row.Some?
    ensures var base, r' := BaseFor(row, op), ApplyOp(row, op).row.value;
            && !r'.deleted && r'.delHlc == base.delHlc
            && (forall f :: Get(r'.clocks, f) == ClockAfter(base.clocks, op, f))
            && (forall f :: Get(r'.fields, f) == FieldAfter(base, op, f))
  {
    if row.Some? && !row.value.deleted {
      LiveApply(row.value, op);
    }
  }

  lemma NotLandingKeeps(row: Option<Row>, op: Op)
    requires !op.op.Delete? && !Lands(row, op)
    ensures ApplyOp(row, op).row == row
  {
  }

  lemma OriginUnderWrite(row: Option<Row>, seen: set<Op>, op: Op)
    requires Origin(row, seen) && !op.op.Delete?
    ensures Origin(ApplyOp(row, op).row, seen + {op})
  {
    var row' := ApplyOp(row, op).row;
    assert op in seen + {op};
    if Lands(row, op) {
      LandingMerges(row, op);
      var base := BaseFor(row, op);
      forall f ensures FromSeen(row'.value, seen + {op}, f) {
        assert FromSeen(base, seen, f);
        MergeFromSeen(base, seen, op, row'.value, f);
      }
      assert HasUpsert(seen + {op}) by {
        if !op.op.Upsert? {
          var u :| u in seen && u.op.Upsert?;
          assert u in seen + {op};
        }
      }
    } else {
      NotLandingKeeps(row, op);
    }
    if row'.Some? && row'.value.delHlc.Some? {
      HasDeleteGrows(seen, op, row'.value.delHlc.value);
    }
  }

  lemma OriginStep(row: Option<Row>, seen: set<Op>, op: Op)
    requires Origin(row, seen)
    ensures Origin(ApplyOp(row, op).row, seen + {op})
  {
    if op.op.Delete? {
      OriginUnderDelete(row, seen, op);
    } else {
      OriginUnderWrite(row, seen, op);
    }
  }

  lemma MembersOfTail(seen: set<Op>, ops: seq<Op>)
    requires ops != []
    ensures seen + {ops[0]} + Members(ops[1..]) == seen + Members(ops)
    ensures ops[0] in Members(ops) && Members(ops[1..]) <= Members(ops)
  {
    assert ops == [ops[0]] + ops[1..];
    assert Members(ops) == {ops[0]} + Members(ops[1..]);
  }

  lemma {:induction false} OriginRun(row: Option<Row>, seen: set<Op>, ops: seq<Op>)
    requires Origin(row, seen)
    ensures Origin(ApplyAll(row, ops), seen + Members(ops))
    decreases ops
  {
    if ops == [] {
      assert seen + Members(ops) == seen;
    } else {
      OriginStep(row, seen, ops[0]);
      OriginRun(ApplyOp(row, ops[0]).row, seen + {ops[0]}, ops[1..]);
      MembersOfTail(seen, ops);
    }
  }

  // ---------- lasting writes stay ----------

  /** The row is live and each field `p` writes is at least as new. */
  ghost predicate Holds(row: Option<Row>, p: Op) {
    && row.Some? && !row.value.deleted
    && forall f :: f in p.writes ==> f in row.value.clocks && !Before(row.value.clocks[f], ClockFor(p, f))
  }

  lemma LandedHolds(row: Option<Row>, op: Op)
    requires Lands(row, op)
    ensures Holds(ApplyOp(row, op).row, op)
  {
    ClocksAreTotallyOrdered();
    LandingMerges(row, op);
    var base, r' := BaseFor(row, op), ApplyOp(row, op).row.value;
    forall f | f in op.writes ensures f in r'.clocks && !Before(r'.clocks[f], ClockFor(op, f)) {
      assert Get(r'.clocks, f) == ClockAfter(base.clocks, op, f);
    }
  }

  lemma HoldsUnderWrite(row: Option<Row>, p: Op, op: Op)
    requires Holds(row, p) && !op.op.Delete?
    ensures Holds(ApplyOp(row, op).row, p)
  {
    ClocksAreTotallyOrdered();
    LandingMerges(row, op);
    var r, r' := row.value, ApplyOp(row, op).row.value;
    forall f | f in p.writes ensures f in r'.clocks && !Before(r'.clocks[f], ClockFor(p, f)) {
      assert Get(r'.clocks, f) == ClockAfter(r.clocks, op, f);
    }
  }

  /** A row that holds a fencing write has a clock no delete up to `d` beats. */
  lemma FencingClock(row: Option<Row>, p: Op, d: Hlc) returns (c: Hlc)
    requires Holds(row, p) && Fences(p, Some(d))
    ensures c in ClockSet(row.value) && !Before(c, d)
  {
    ClocksAreTotallyOrdered();
    var f :| f in p.writes && !Before(ClockFor(p, f), d);
    c := row.value.clocks[f];
    assert c in row.value.clocks.Values;
  }

  lemma HoldsUnderDelete(row: Option<Row>, p: Op, op: Op, d: Option<Hlc>)
    requires Holds(row, p) && Fences(p, d) && op.op.Delete? && d.Some? && !Before(d.value, op.hlc)
    ensures ApplyOp(row, op).row == row
  {
    ClocksAreTotallyOrdered();
    var c := FencingClock(row, p, d.value);
    BeatsMaxClock(op.hlc, row.value);
  }

  ghost predicate DeletesUpTo(all: set<Op>, d: Option<Hlc>) {
    forall op :: op in all && op.op.Delete? ==> d.Some? && !Before(d.value, op.hlc)
  }

  ghost predicate AllHeld(row: Option<Row>, seen: set<Op>, d: Option<Hlc>) {
    forall p :: p in seen && Lasts(p, d) ==> Holds(row, p)
  }

  lemma LastingLands(row: Option<Row>, seen: set<Op>, op: Op, d: Option<Hlc>)
    requires Origin(row, seen) && DeletesUpTo(seen, d) && Lasts(op, d)
    ensures Lands(row, op)
  {
    ClocksAreTotallyOrdered();
  }

  /**
   * In any arrival, after each operation: the row is made of what arrived, and it holds every upsert that arrived and
   * lasts.
   */
  lemma HeldStep(row: Option<Row>, seen: set<Op>, op: Op, d: Option<Hlc>)
    requires Origin(row, seen) && AllHeld(row, seen, d) && DeletesUpTo(seen + {op}, d)
    ensures Origin(ApplyOp(row, op).row, seen + {op}) && AllHeld(ApplyOp(row, op).row, seen + {op}, d)
  {
    OriginStep(row, seen, op);
    forall p | p in seen + {op} && Lasts(p, d) ensures Holds(ApplyOp(row, op).row, p) {
      if p in seen {
        if op.op.Delete? {
          HoldsUnderDelete(row, p, op, d);
        } else {
          HoldsUnderWrite(row, p, op);
        }
      } else {
        LastingLands(row, seen, op, d);
        LandedHolds(row, op);
      }
    }
  }

  lemma {:induction false} HeldRun(row: Option<Row>, seen: set<Op>, ops: seq<Op>, d: Option<Hlc>)
    requires Origin(row, seen) && AllHeld(row, seen, d) && DeletesUpTo(seen + Members(ops), d)
    ensures var row' := ApplyAll(row, ops); Origin(row', seen + Members(ops)) && AllHeld(row', seen + Members(ops), d)
    decreases ops
  {
    if ops == [] {
      assert seen + Members(ops) == seen;
    } else {
      MembersOfTail(seen, ops);
      HeldStep(row, seen, ops[0], d);
      HeldRun(ApplyOp(row, ops[0]).row, seen + {ops[0]}, ops[1..], d);
    }
  }

  // ---------- nothing outlives the newest delete ----------

  /** Until the delete at `d` arrives a live row is older than it; from then on the row is its tombstone. */
  ghost predicate Quiet(row: Option<Row>, seen: set<Op>, d: Option<Hlc>) {
    && Origin(row, seen) && DeletesUpTo(seen, d)
    && (row.Some? && d.Some? ==>
          if row.value.deleted then HasDelete(seen, d.value) ==> row.value.delHlc == d
          else !HasDelete(seen, d.value)
               && forall f :: f in row.value.clocks ==> Before(row.value.clocks[f], d.value))
  }

  /** Among `all`, a write that can neither keep the delete at `d` out nor undo it. */
  ghost predicate Yields(op: Op, all: set<Op>, d: Option<Hlc>) {
    && !op.op.Delete?
    && (Fences(op, d) ==> op.op.Update? && !HasUpsert(all))
    && (Outlives(op, d) ==> d.Some? && !HasDelete(all, d.value))
  }

  lemma QuietUnderDelete(row: Option<Row>, seen: set<Op>, op: Op, d: Option<Hlc>)
    requires Quiet(row, seen, d) && op.op.Delete? && d.Some? && !Before(d.value, op.hlc)
    ensures Quiet(ApplyOp(row, op).row, seen + {op}, d)
  {
    ClocksAreTotallyOrdered();
    OriginStep(row, seen, op);
    HasDeleteGrows(seen, op, d.value);
    if row.Some? && !row.value.deleted {
      OlderThanDelete(row.value, seen, d.value);
      BeatsMaxClock(d.value, row.value);
    } else if row.Some? {
      assert HasDelete(seen, row.value.delHlc.value);
    }
  }

  lemma OlderThanDelete(r: Row, seen: set<Op>, d: Hlc)
    requires Quiet(Some(r), seen, Some(d)) && !r.deleted
    ensures forall c :: c in ClockSet(r) ==> Before(c, d)
  {
    ClocksAreTotallyOrdered();
    forall c | c in ClockSet(r) ensures Before(c, d) {
      if c in r.clocks.Values {
        var f :| f in r.clocks && r.clocks[f] == c;
      } else {
        assert HasDelete(seen, c);
      }
    }
  }

  lemma QuietUnderWrite(row: Option<Row>, seen: set<Op>, op: Op, all: set<Op>, d: Option<Hlc>)
    requires Quiet(row, seen, d) && Yields(op, all, d) && seen + {op} <= all
    ensures Quiet(ApplyOp(row, op).row, seen + {op}, d)
  {
    ClocksAreTotallyOrdered();
    OriginStep(row, seen, op);
    if d.Some? {
      HasDeleteGrows(seen, op, d.value);
    }
    MoreSeen(seen, all);
    if Lands(row, op) && d.Some? {
      assert !Fences(op, d) && !HasDelete(seen, d.value);
      LandingMerges(row, op);
      var base, r' := BaseFor(row, op), ApplyOp(row, op).row.value;
      forall f | f in r'.clocks ensures Before(r'.clocks[f], d.value) {
        assert Get(r'.clocks, f) == ClockAfter(base.clocks, op, f);
      }
    } else if !Lands(row, op) {
      NotLandingKeeps(row, op);
    }
  }

  lemma MoreSeen(seen: set<Op>, all: set<Op>)
    requires seen <= all
    ensures HasUpsert(seen) ==> HasUpsert(all)
    ensures forall h :: HasDelete(seen, h) ==> HasDelete(all, h)
  {
  }

  /** No delete of `all` is newer than `d`, and every other operation of `ops` yields to it. */
  ghost predicate AllYield(ops: seq<Op>, all: set<Op>, d: Option<Hlc>) {
    forall op :: op in ops && !op.op.Delete? ==> Yields(op, all, d)
  }

  lemma {:induction false} QuietRun(row: Option<Row>, seen: set<Op>, ops: seq<Op>, all: set<Op>, d: Option<Hlc>)
    requires Quiet(row, seen, d) && seen + Members(ops) <= all && DeletesUpTo(all, d) && AllYield(ops, all, d)
    ensures Quiet(ApplyAll(row, ops), seen + Members(ops), d)
    decreases ops
  {
    if ops == [] {
      assert seen + Members(ops) == seen;
    } else {
      MembersOfTail(seen, ops);
      assert ops[0] in ops && forall op :: op in ops[1..] ==> op in ops;
      if ops[0].op.Delete? {
        assert ops[0] in all;
        QuietUnderDelete(row, seen, ops[0], d);
      } else {
        QuietUnderWrite(row, seen, ops[0], all, d);
      }
      QuietRun(ApplyOp(row, ops[0]).row, seen + {ops[0]}, ops[1..], all, d);
    }
  }

  // ---------- covered operations agree ----------

  /** The same deleted flag, fields and clocks, and the same tombstone clock when deleted. */
  ghost predicate SameState(a: Option<Row>, b: Option<Row>) {
    match (a, b)
    case (None, None) => true
    case (Some(r), Some(s)) =>
      r.deleted == s.deleted && r.fields == s.fields && r.clocks == s.clocks && (r.deleted ==> r.delHlc == s.delHlc)
    case _ => false
  }

  lemma HeldFieldAgrees(all: set<Op>, d: Option<Hlc>, r: Row, s: Row, f: string)
    requires TiesAgreeIn(all) && !r.deleted && !s.deleted && Origin(Some(r), all) && Origin(Some(s), all)
    requires AllHeld(Some(r), all, d) && AllHeld(Some(s), all, d)
    requires forall u, g :: u in all && Writes(u, g) ==> Overwritten(all, d, u, g)
    ensures Get(r.clocks, f) == Get(s.clocks, f) && Get(r.fields, f) == Get(s.fields, f)
  {
    ClocksAreTotallyOrdered();
    assert FromSeen(r, all, f) && FromSeen(s, all, f);
    HeldIsAsNew(all, d, r, s, f);
    HeldIsAsNew(all, d, s, r, f);
    if f in r.clocks {
      var u :| u in all && Wrote(u, f, r.clocks[f], Get(r.fields, f));
      var v :| v in all && Wrote(v, f, s.clocks[f], Get(s.fields, f));
    }
  }

  lemma HeldIsAsNew(all: set<Op>, d: Option<Hlc>, r: Row, s: Row, f: string)
    requires !r.deleted && Origin(Some(r), all) && AllHeld(Some(s), all, d)
    requires forall u, g :: u in all && Writes(u, g) ==> Overwritten(all, d, u, g)
    ensures f in r.clocks ==> f in s.clocks && !Before(s.clocks[f], r.clocks[f])
  {
    ClocksAreTotallyOrdered();
    assert FromSeen(r, all, f);
    if f in r.clocks {
      var u :| u in all && Wrote(u, f, r.clocks[f], Get(r.fields, f));
      assert Overwritten(all, d, u, f);
      var p :| p in all && Lasts(p, d) && f in p.writes && !Before(ClockFor(p, f), ClockFor(u, f));
      assert Holds(Some(s), p);
    }
  }

  ghost predicate Delivers(p: seq<Op>, ops: seq<Op>) {
    Members(p) == Members(ops)
  }

  /** Any two arrivals of the operations, in any order and with any repeats, end in the same state. */
  ghost predicate EveryArrivalAgrees(ops: seq<Op>) {
    forall p, q :: Delivers(p, ops) && Delivers(q, ops) ==> SameState(ApplyAll(None, p), ApplyAll(None, q))
  }

  /** The same of arrivals without repeats. */
  ghost predicate EveryShuffleAgrees(ops: seq<Op>) {
    forall p, q :: Arrangement(p, ops) && Arrangement(q, ops) ==> SameState(ApplyAll(None, p), ApplyAll(None, q))
  }

  lemma LastDeleteIsLast(all: set<Op>)
    ensures DeletesUpTo(all, LastDelete(all))
    ensures LastDelete(all).Some? ==> HasDelete(all, LastDelete(all).value)
  {
    forall op | op in all && op.op.Delete?
      ensures LastDelete(all).Some? && !Before(LastDelete(all).value, op.hlc)
    {
      assert op.hlc in DeleteClocks(all);
    }
  }

  lemma ArrivalHolds(all: set<Op>, p: seq<Op>)
    requires Members(p) == all
    ensures Origin(ApplyAll(None, p), all) && AllHeld(ApplyAll(None, p), all, LastDelete(all))
  {
    LastDeleteIsLast(all);
    assert {} + all == all;
    HeldRun(None, {}, p, LastDelete(all));
  }

  /** Uncontested operations end in the tombstone of the newest delete, or without deletes in no row at all. */
  lemma UncontestedIsBuried(all: set<Op>, p: seq<Op>)
    requires Members(p) == all && !Contested(all, LastDelete(all))
    ensures var row, d := ApplyAll(None, p), LastDelete(all);
            if d.None? then row.None?
            else row.Some? && row.value.deleted && row.value.delHlc == d
                 && row.value.fields == map[] && row.value.clocks == map[]
  {
    var d := LastDelete(all);
    LastDeleteIsLast(all);
    assert {} + all == all;
    assert AllYield(p, all, d) by {
      forall op | op in p && !op.op.Delete? ensures Yields(op, all, d) {
        assert op in all;
      }
    }
    QuietRun(None, {}, p, all, d);
  }

  lemma CoveredStatesAgree(all: set<Op>, p: seq<Op>, q: seq<Op>)
    requires TiesAgreeIn(all) && Covered(all) && Members(p) == all && Members(q) == all
    ensures SameState(ApplyAll(None, p), ApplyAll(None, q))
  {
    var d := LastDelete(all);
    if Contested(all, d) {
      ArrivalHolds(all, p);
      ArrivalHolds(all, q);
      var w :| w in all && Lasts(w, d);
      var a, b := ApplyAll(None, p), ApplyAll(None, q);
      assert Holds(a, w) && Holds(b, w);
      forall f ensures Get(a.value.clocks, f) == Get(b.value.clocks, f)
        ensures Get(a.value.fields, f) == Get(b.value.fields, f)
      {
        HeldFieldAgrees(all, d, a.value, b.value, f);
      }
      EqualByGet(a.value.clocks, b.value.clocks);
      EqualByGet(a.value.fields, b.value.fields);
    } else {
      UncontestedIsBuried(all, p);
      UncontestedIsBuried(all, q);
    }
  }

  lemma CoveredArrivalsAgree(ops: seq<Op>)
    requires TiesAgreeIn(Members(ops)) && Covered(Members(ops))
    ensures EveryArrivalAgrees(ops)
  {
    forall p, q | Delivers(p, ops) && Delivers(q, ops) ensures SameState(ApplyAll(None, p), ApplyAll(None, q)) {
      CoveredStatesAgree(Members(ops), p, q);
    }
  }
}
