/**
 * When the arrival order of operations on one row does not show (edge/src/registry-core.ts:111-161): the exact
 * condition, from orders that keep every write and orders that keep the least.
 */
module RegistryRevival {
  import opened Options
  import opened Hlc
  import opened RegistryCore
  import opened RegistryMerge
  import opened RegistryArrivals

  // ---------- the operations in groups ----------

  datatype Group = Deletes | Updates | Plain | Stuck | Lasting

  /** Upserts that fence nothing are plain; those that do either last, or are stuck behind the newest tombstone. */
  ghost function GroupOf(op: Op, d: Option<Hlc>): Group {
    if op.op.Delete? then Deletes
    else if op.op.Update? then Updates
    else if !Fences(op, d) then Plain
    else if Outlives(op, d) then Lasting
    else Stuck
  }

  ghost function Pick(ops: seq<Op>, d: Option<Hlc>, g: Group): seq<Op> {
    if ops == [] then [] else (if GroupOf(ops[0], d) == g then [ops[0]] else []) + Pick(ops[1..], d, g)
  }

  lemma {:induction false} PickMembers(ops: seq<Op>, d: Option<Hlc>, g: Group)
    ensures forall op :: op in Pick(ops, d, g) <==> op in ops && GroupOf(op, d) == g
  {
    if ops != [] {
      PickMembers(ops[1..], d, g);
      assert ops == [ops[0]] + ops[1..];
    }
  }

  function Occurrences(ops: seq<Op>, op: Op): nat {
    if ops == [] then 0 else (if ops[0] == op then 1 else 0) + Occurrences(ops[1..], op)
  }

  lemma {:induction false} OccurrencesAreCounts(ops: seq<Op>, op: Op)
    ensures Occurrences(ops, op) == multiset(ops)[op]
  {
    if ops != [] {
      OccurrencesAreCounts(ops[1..], op);
      assert ops == [ops[0]] + ops[1..];
    }
  }

  lemma {:induction false} OccurrencesAdd(a: seq<Op>, b: seq<Op>, op: Op)
    ensures Occurrences(a + b, op) == Occurrences(a, op) + Occurrences(b, op)
  {
    if a == [] {
      assert a + b == b;
    } else {
      assert (a + b)[1..] == a[1..] + b;
      OccurrencesAdd(a[1..], b, op);
    }
  }

  lemma {:induction false} PickCount(ops: seq<Op>, d: Option<Hlc>, g: Group, op: Op)
    ensures Occurrences(Pick(ops, d, g), op) == if GroupOf(op, d) == g then Occurrences(ops, op) else 0
  {
    if ops != [] {
      PickCount(ops[1..], d, g, op);
      if GroupOf(ops[0], d) == g {
        assert Pick(ops, d, g)[1..] == Pick(ops[1..], d, g);
      } else {
        assert Pick(ops, d, g) == Pick(ops[1..], d, g);
      }
    }
  }

  /** The groups one after another. */
  ghost function InOrder(ops: seq<Op>, d: Option<Hlc>, order: seq<Group>): seq<Op> {
    if order == [] then [] else Pick(ops, d, order[0]) + InOrder(ops, d, order[1..])
  }

  lemma {:induction false} InOrderMembers(ops: seq<Op>, d: Option<Hlc>, order: seq<Group>)
    ensures forall op :: op in InOrder(ops, d, order) <==> op in ops && GroupOf(op, d) in order
  {
    if order != [] {
      PickMembers(ops, d, order[0]);
      InOrderMembers(ops, d, order[1..]);
      assert order == [order[0]] + order[1..];
    }
  }

  ghost predicate NoneTwice(order: seq<Group>) {
    forall i, j :: 0 <= i < j < |order| ==> order[i] != order[j]
  }

  ghost predicate EachGroup(order: seq<Group>) {
    && NoneTwice(order)
    && Deletes in order && Updates in order && Plain in order && Stuck in order && Lasting in order
  }

  lemma {:induction false} InOrderCount(ops: seq<Op>, d: Option<Hlc>, order: seq<Group>, op: Op)
    requires NoneTwice(order)
    ensures Occurrences(InOrder(ops, d, order), op) == if GroupOf(op, d) in order then Occurrences(ops, op) else 0
  {
    if order != [] {
      PickCount(ops, d, order[0], op);
      InOrderCount(ops, d, order[1..], op);
      OccurrencesAdd(Pick(ops, d, order[0]), InOrder(ops, d, order[1..]), op);
      assert forall g :: g in order <==> g == order[0] || g in order[1..];
    }
  }

  lemma {:induction false} InOrderSplit(ops: seq<Op>, d: Option<Hlc>, a: seq<Group>, b: seq<Group>)
    ensures InOrder(ops, d, a + b) == InOrder(ops, d, a) + InOrder(ops, d, b)
  {
    if a == [] {
      assert a + b == b;
    } else {
      assert (a + b)[1..] == a[1..] + b;
      InOrderSplit(ops, d, a[1..], b);
    }
  }

  lemma EveryCount(ops: seq<Op>, d: Option<Hlc>, order: seq<Group>, op: Op)
    requires EachGroup(order)
    ensures Occurrences(InOrder(ops, d, order), op) == Occurrences(ops, op)
  {
    InOrderCount(ops, d, order, op);
    assert GroupOf(op, d) in order;
  }

  /** All five groups in some order are an arrangement of the operations. */
  lemma GroupsArrange(ops: seq<Op>, d: Option<Hlc>, order: seq<Group>)
    requires EachGroup(order)
    ensures Arrangement(InOrder(ops, d, order), ops)
  {
    var p := InOrder(ops, d, order);
    forall op ensures multiset(p)[op] == multiset(ops)[op] {
      EveryCount(ops, d, order, op);
      OccurrencesAreCounts(p, op);
      OccurrencesAreCounts(ops, op);
    }
  }

  lemma {:induction false} ApplyAllConcat(row: Option<Row>, a: seq<Op>, b: seq<Op>)
    ensures ApplyAll(row, a + b) == ApplyAll(ApplyAll(row, a), b)
    decreases a
  {
    if a == [] {
      assert a + b == b;
    } else {
      assert (a + b)[1..] == a[1..] + b;
      ApplyAllConcat(ApplyOp(row, a[0]).row, a[1..], b);
    }
  }

  // ---------- an arrival that keeps every write ----------

  /** Deletes that lose to a clock of the row leave it as it is. */
  lemma {:induction false} DeletesLose(r: Row, c: Hlc, ops: seq<Op>)
    requires !r.deleted && c in ClockSet(r) && forall op :: op in ops ==> op.op.Delete? && !Before(c, op.hlc)
    ensures ApplyAll(Some(r), ops) == Some(r)
    decreases ops
  {
    if ops != [] {
      BeatsMaxClock(ops[0].hlc, r);
      assert ApplyOp(Some(r), ops[0]).row == Some(r);
      DeletesLose(r, c, ops[1..]);
    }
  }

  /** Writes onto a live row, or from an upsert on, are all held. */
  lemma {:induction false} WritesHeld(row: Option<Row>, held: set<Op>, ops: seq<Op>)
    requires NoDeletes(ops) && forall p :: p in held ==> Holds(row, p)
    requires if row.Some? then !row.value.deleted else ops != [] && ops[0].op.Upsert?
    ensures var row' := ApplyAll(row, ops);
            row'.Some? && !row'.value.deleted && forall p :: p in held + Members(ops) ==> Holds(row', p)
    decreases ops
  {
    if ops == [] {
      assert held + Members(ops) == held;
    } else {
      assert ops[0] in ops && Lands(row, ops[0]);
      var row' := ApplyOp(row, ops[0]).row;
      forall p | p in held + {ops[0]} ensures Holds(row', p) {
        if p in held {
          HoldsUnderWrite(row, p, ops[0]);
        } else {
          LandedHolds(row, ops[0]);
        }
      }
      LandedHolds(row, ops[0]);
      WritesHeld(row', held + {ops[0]}, ops[1..]);
      MembersOfTail(held, ops);
    }
  }

  /** `ops` are exactly the operations of one kind, in some order. */
  ghost predicate AllOf(ops: seq<Op>, all: set<Op>, kind: OpKind) {
    forall op :: op in ops <==> op in all && op.op == kind
  }

  lemma NoMembers(ops: seq<Op>)
    ensures (forall op :: op !in ops) ==> ops == []
  {
    if ops != [] {
      assert ops[0] in ops;
    }
  }

  /** Upserts first and then updates: the row holds every write. */
  lemma WritesFirst(all: set<Op>, upserts: seq<Op>, updates: seq<Op>)
    requires AllOf(upserts, all, Upsert) && AllOf(updates, all, Update) && HasUpsert(all)
    ensures var row := ApplyAll(None, upserts + updates);
            row.Some? && !row.value.deleted && forall u :: u in all && !u.op.Delete? ==> Holds(row, u)
  {
    var u :| u in all && u.op.Upsert?;
    var writes := upserts + updates;
    assert u in upserts && writes[0] == upserts[0] && upserts[0] in upserts;
    assert forall op :: op in writes <==> op in all && !op.op.Delete?;
    WritesHeld(None, {}, writes);
    assert forall op :: op in writes ==> op in {} + Members(writes);
  }

  /** Then the deletes: none gets past a fence. */
  lemma FencedArrival(all: set<Op>, upserts: seq<Op>, updates: seq<Op>, deletes: seq<Op>)
    requires AllOf(upserts, all, Upsert) && AllOf(updates, all, Update) && AllOf(deletes, all, Delete)
    requires HasUpsert(all) && SomeFences(all, LastDelete(all))
    ensures var row := ApplyAll(None, (upserts + updates) + deletes);
            row.Some? && !row.value.deleted && forall u :: u in all && !u.op.Delete? ==> Holds(row, u)
  {
    var d := LastDelete(all);
    LastDeleteIsLast(all);
    WritesFirst(all, upserts, updates);
    var row := ApplyAll(None, upserts + updates);
    ApplyAllConcat(None, upserts + updates, deletes);
    if d.Some? {
      ClocksAreTotallyOrdered();
      var p :| p in all && Fences(p, d);
      var c := FencingClock(row, p, d.value);
      DeletesLose(row.value, c, deletes);
    } else {
      NoMembers(deletes);
    }
  }

  /** Deletes first: an upsert newer than all of them leaves the row live. */
  lemma {:induction false} OutlivingRevives(row: Option<Row>, d: Option<Hlc>, ops: seq<Op>)
    requires NoDeletes(ops)
    requires row.Some? && row.value.deleted ==>
               row.value.delHlc.Some? && d.Some? && !Before(d.value, row.value.delHlc.value)
    requires (row.Some? && !row.value.deleted) || exists u :: u in ops && Outlives(u, d)
    ensures ApplyAll(row, ops).Some? && !ApplyAll(row, ops).value.deleted
    decreases ops
  {
    if ops != [] {
      ClocksAreTotallyOrdered();
      assert ops[0] in ops && forall op :: op in ops <==> op == ops[0] || op in ops[1..];
      if Lands(row, ops[0]) {
        LandingMerges(row, ops[0]);
      } else {
        NotLandingKeeps(row, ops[0]);
      }
      OutlivingRevives(ApplyOp(row, ops[0]).row, d, ops[1..]);
    }
  }

  lemma OutlivedArrival(all: set<Op>, deletes: seq<Op>, upserts: seq<Op>, updates: seq<Op>)
    requires AllOf(deletes, all, Delete) && AllOf(upserts, all, Upsert) && AllOf(updates, all, Update)
    requires SomeOutlives(all, LastDelete(all))
    ensures var row := ApplyAll(None, deletes + (upserts + updates)); row.Some? && !row.value.deleted
  {
    var d := LastDelete(all);
    LastDeleteIsLast(all);
    OriginRun(None, {}, deletes);
    var row := ApplyAll(None, deletes);
    var u :| u in all && Outlives(u, d);
    assert u in upserts + updates;
    assert Origin(row, {} + Members(deletes));
    if row.Some? && row.value.deleted {
      var x :| x in deletes && x.op.Delete? && x.hlc == row.value.delHlc.value;
      assert x in all;
    }
    OutlivingRevives(row, d, upserts + updates);
    ApplyAllConcat(None, deletes, upserts + updates);
  }

  // ---------- an arrival that keeps only the lasting writes ----------

  /** No row without deletes, else the tombstone of the newest. */
  ghost predicate Inert(row: Option<Row>, d: Option<Hlc>) {
    if d.None? then row.None?
    else row.Some? && row.value.deleted && row.value.delHlc == d
         && row.value.clocks == map[] && row.value.fields == map[]
  }

  lemma {:induction false} InertStays(row: Option<Row>, d: Option<Hlc>, ops: seq<Op>)
    requires Inert(row, d) && forall op :: op in ops ==> op.op.Update? || (op.op.Upsert? && !Outlives(op, d))
    ensures ApplyAll(row, ops) == row
    decreases ops
  {
    if ops != [] {
      assert ops[0] in ops;
      assert ApplyOp(row, ops[0]).row == row by {
        if d.None? {
          assert ops[0].op.Update?;
        } else {
          NotLandingKeeps(row, ops[0]);
        }
      }
      InertStays(row, d, ops[1..]);
    }
  }

  ghost predicate Grouped(ops: seq<Op>, all: set<Op>, d: Option<Hlc>, groups: seq<Group>) {
    forall op :: op in ops <==> op in all && GroupOf(op, d) in groups
  }

  /** Plain upserts and then the deletes leave nothing behind. */
  lemma PlainIsBuried(all: set<Op>, plain: seq<Op>, deletes: seq<Op>)
    requires Grouped(plain, all, LastDelete(all), [Plain]) && Grouped(deletes, all, LastDelete(all), [Deletes])
    ensures Inert(ApplyAll(None, plain + deletes), LastDelete(all))
    ensures Origin(ApplyAll(None, plain + deletes), Members(deletes))
  {
    var d := LastDelete(all);
    LastDeleteIsLast(all);
    var ps, ds := Members(plain), Members(deletes);
    assert {} + ps == ps;
    QuietRun(None, {}, plain, ps, d);
    var row := ApplyAll(None, plain);
    QuietRun(row, ps, deletes, ps + ds, d);
    ApplyAllConcat(None, plain, deletes);
    var row' := ApplyAll(None, plain + deletes);
    if d.Some? {
      var x :| x in all && x.op.Delete? && x.hlc == d.value;
      assert x in ds && x in ps + ds;
      assert HasDelete(ps + ds, d.value) && HasDelete(ds, d.value);
    } else {
      NoMembers(plain);
      NoMembers(deletes);
    }
  }

  /** What stays of an arrival of plain upserts, deletes, what is then lost, and the lasting upserts last. */
  lemma LostArrival(all: set<Op>, plain: seq<Op>, deletes: seq<Op>, lost: seq<Op>, lasting: seq<Op>)
    requires var d := LastDelete(all);
             && Grouped(plain, all, d, [Plain]) && Grouped(deletes, all, d, [Deletes])
             && Grouped(lost, all, d, [Stuck, Updates]) && Grouped(lasting, all, d, [Lasting])
    ensures var row := ApplyAll(None, (plain + deletes) + (lost + lasting));
            && Origin(row, Members(deletes) + Members(lasting))
            && (lasting == [] ==> Inert(row, LastDelete(all)))
  {
    var d := LastDelete(all);
    PlainIsBuried(all, plain, deletes);
    var row := ApplyAll(None, plain + deletes);
    InertStays(row, d, lost);
    OriginRun(row, Members(deletes), lasting);
    ApplyAllConcat(row, lost, lasting);
    ApplyAllConcat(None, plain + deletes, lost + lasting);
  }

  // ---------- uncovered operations do not agree ----------

  /** The operations in four stages, each made of the groups it is given. */
  lemma InStages(ops: seq<Op>, d: Option<Hlc>, a: seq<Group>, b: seq<Group>, c: seq<Group>, e: seq<Group>)
    returns (x: seq<Op>, y: seq<Op>, z: seq<Op>, w: seq<Op>)
    requires EachGroup((a + b) + (c + e))
    ensures Arrangement((x + y) + (z + w), ops)
    ensures Grouped(x, Members(ops), d, a) && Grouped(y, Members(ops), d, b)
    ensures Grouped(z, Members(ops), d, c) && Grouped(w, Members(ops), d, e)
  {
    x, y, z, w := InOrder(ops, d, a), InOrder(ops, d, b), InOrder(ops, d, c), InOrder(ops, d, e);
    InOrderMembers(ops, d, a);
    InOrderMembers(ops, d, b);
    InOrderMembers(ops, d, c);
    InOrderMembers(ops, d, e);
    GroupsArrange(ops, d, (a + b) + (c + e));
    InOrderSplit(ops, d, a + b, c + e);
    InOrderSplit(ops, d, a, b);
    InOrderSplit(ops, d, c, e);
  }

  /** The three orders used below. */
  lemma TheOrders()
    ensures EachGroup(([Plain, Stuck, Lasting] + [Updates]) + ([Deletes] + []))
    ensures EachGroup(([Deletes] + []) + ([Plain, Stuck, Lasting] + [Updates]))
    ensures EachGroup(([Plain] + [Deletes]) + ([Stuck, Updates] + [Lasting]))
  {
    assert ([Plain, Stuck, Lasting] + [Updates]) + ([Deletes] + []) == [Plain, Stuck, Lasting, Updates, Deletes];
    assert ([Deletes] + []) + ([Plain, Stuck, Lasting] + [Updates]) == [Deletes, Plain, Stuck, Lasting, Updates];
    assert ([Plain] + [Deletes]) + ([Stuck, Updates] + [Lasting]) == [Plain, Deletes, Stuck, Updates, Lasting];
  }

  lemma GroupKinds(ops: seq<Op>, all: set<Op>, d: Option<Hlc>)
    ensures Grouped(ops, all, d, [Plain, Stuck, Lasting]) ==> AllOf(ops, all, Upsert)
    ensures Grouped(ops, all, d, [Updates]) ==> AllOf(ops, all, Update)
    ensures Grouped(ops, all, d, [Deletes]) ==> AllOf(ops, all, Delete)
    ensures Grouped(ops, all, d, []) ==> ops == []
  {
    NoMembers(ops);
  }

  /** Where some write fences, an arrangement that ends live and holds every write. */
  lemma KeepingArrangement(ops: seq<Op>) returns (p: seq<Op>)
    requires HasUpsert(Members(ops)) && SomeFences(Members(ops), LastDelete(Members(ops)))
    ensures Arrangement(p, ops)
    ensures var row := ApplyAll(None, p);
            row.Some? && !row.value.deleted && forall u :: u in Members(ops) && !u.op.Delete? ==> Holds(row, u)
  {
    var all, d := Members(ops), LastDelete(Members(ops));
    TheOrders();
    var upserts, updates, deletes, none := InStages(ops, d, [Plain, Stuck, Lasting], [Updates], [Deletes], []);
    GroupKinds(upserts, all, d);
    GroupKinds(updates, all, d);
    GroupKinds(deletes, all, d);
    GroupKinds(none, all, d);
    FencedArrival(all, upserts, updates, deletes);
    p := (upserts + updates) + deletes;
    assert deletes + none == deletes;
  }

  /** Where some upsert outlives the deletes, an arrangement that ends live. */
  lemma RevivingArrangement(ops: seq<Op>) returns (p: seq<Op>)
    requires SomeOutlives(Members(ops), LastDelete(Members(ops)))
    ensures Arrangement(p, ops) && ApplyAll(None, p).Some? && !ApplyAll(None, p).value.deleted
  {
    var all, d := Members(ops), LastDelete(Members(ops));
    TheOrders();
    var deletes, none, upserts, updates := InStages(ops, d, [Deletes], [], [Plain, Stuck, Lasting], [Updates]);
    GroupKinds(deletes, all, d);
    GroupKinds(none, all, d);
    GroupKinds(upserts, all, d);
    GroupKinds(updates, all, d);
    OutlivedArrival(all, deletes, upserts, updates);
    p := deletes + (upserts + updates);
    assert deletes + none == deletes;
  }

  /** An arrangement that ends with lasting writes only, and without any in no live row. */
  lemma LosingArrangement(ops: seq<Op>) returns (q: seq<Op>)
    ensures Arrangement(q, ops)
    ensures var all, d, row := Members(ops), LastDelete(Members(ops)), ApplyAll(None, q);
            && (!SomeLasts(all, d) ==> Inert(row, d))
            && (row.Some? && !row.value.deleted ==> forall f :: f in row.value.clocks ==>
                  exists p :: p in all && Lasts(p, d) && f in p.writes && ClockFor(p, f) == row.value.clocks[f])
  {
    var all, d := Members(ops), LastDelete(Members(ops));
    TheOrders();
    var plain, deletes, lost, lasting := InStages(ops, d, [Plain], [Deletes], [Stuck, Updates], [Lasting]);
    LostArrival(all, plain, deletes, lost, lasting);
    q := (plain + deletes) + (lost + lasting);
    HeadLasts(all, d, lasting);
    OnlyLastingLeft(all, d, ApplyAll(None, q), deletes, lasting);
  }

  lemma HeadLasts(all: set<Op>, d: Option<Hlc>, lasting: seq<Op>)
    requires Grouped(lasting, all, d, [Lasting])
    ensures lasting == [] <==> !SomeLasts(all, d)
  {
    if lasting != [] {
      assert lasting[0] in lasting && Lasts(lasting[0], d);
    }
  }

  lemma OnlyLastingLeft(all: set<Op>, d: Option<Hlc>, row: Option<Row>, deletes: seq<Op>, lasting: seq<Op>)
    requires Grouped(deletes, all, d, [Deletes]) && Grouped(lasting, all, d, [Lasting])
    requires Origin(row, Members(deletes) + Members(lasting))
    ensures row.Some? && !row.value.deleted ==> forall f :: f in row.value.clocks ==>
                exists p :: p in all && Lasts(p, d) && f in p.writes && ClockFor(p, f) == row.value.clocks[f]
  {
    if row.Some? && !row.value.deleted {
      var r := row.value;
      forall f | f in r.clocks
        ensures exists p :: p in all && Lasts(p, d) && f in p.writes && ClockFor(p, f) == r.clocks[f]
      {
        assert FromSeen(r, Members(deletes) + Members(lasting), f);
        var p :| p in Members(deletes) + Members(lasting) && Wrote(p, f, r.clocks[f], Get(r.fields, f));
        assert p in lasting;
      }
    }
  }

  lemma DifferentShuffles(ops: seq<Op>, p: seq<Op>, q: seq<Op>)
    requires Arrangement(p, ops) && Arrangement(q, ops) && !SameState(ApplyAll(None, p), ApplyAll(None, q))
    ensures !EveryShuffleAgrees(ops) && !EveryArrivalAgrees(ops)
  {
    ArrangementMembers(p, ops);
    ArrangementMembers(q, ops);
    assert Delivers(p, ops) && Delivers(q, ops);
  }

  /** Contested without a lasting upsert: one order ends live and one does not. */
  lemma NothingLasts(ops: seq<Op>)
    requires var all := Members(ops); Contested(all, LastDelete(all)) && !SomeLasts(all, LastDelete(all))
    ensures !EveryShuffleAgrees(ops) && !EveryArrivalAgrees(ops)
  {
    var all, d := Members(ops), LastDelete(Members(ops));
    var q := LosingArrangement(ops);
    var p;
    if SomeOutlives(all, d) {
      p := RevivingArrangement(ops);
    } else {
      p := KeepingArrangement(ops);
    }
    DifferentShuffles(ops, p, q);
  }

  /** A write that no lasting upsert covers: one order keeps it and one loses it. */
  lemma UncoveredWrite(ops: seq<Op>, u: Op, f: string)
    requires var all := Members(ops);
             SomeLasts(all, LastDelete(all)) && Writes(u, f) && !Overwritten(all, LastDelete(all), u, f)
    requires u in ops
    ensures !EveryShuffleAgrees(ops) && !EveryArrivalAgrees(ops)
  {
    var all, d := Members(ops), LastDelete(Members(ops));
    var w :| w in all && Lasts(w, d);
    assert w.op.Upsert? && Fences(w, d);
    var p := KeepingArrangement(ops);
    var q := LosingArrangement(ops);
    var kept, left := ApplyAll(None, p), ApplyAll(None, q);
    assert Holds(kept, u) && f in kept.value.clocks;
    DifferentShuffles(ops, p, q);
  }

  /**
   * From an absent row, any upserts, updates and deletes whose writes never tie on different values end in one state,
   * whatever the order and the repeats, if and only if no order leaves the row live, or some upserts last and write
   * every field that anything writes, at least as new. Shuffles without repeats already show the difference.
   */
  lemma RevivalConvergesExactly(ops: seq<Op>)
    requires TiesAgreeIn(Members(ops))
    ensures EveryArrivalAgrees(ops) <==> Covered(Members(ops))
    ensures EveryShuffleAgrees(ops) <==> Covered(Members(ops))
  {
    var all := Members(ops);
    if Covered(all) {
      CoveredArrivalsAgree(ops);
      forall p, q | Arrangement(p, ops) && Arrangement(q, ops) ensures SameState(ApplyAll(None, p), ApplyAll(None, q)) {
        ArrangementMembers(p, ops);
        ArrangementMembers(q, ops);
        assert Delivers(p, ops) && Delivers(q, ops);
      }
    } else if !SomeLasts(all, LastDelete(all)) {
      NothingLasts(ops);
    } else {
      var u, f :| u in all && Writes(u, f) && !Overwritten(all, LastDelete(all), u, f);
      UncoveredWrite(ops, u, f);
    }
  }

  // ---------- in particular ----------

  /** An upsert that writes something, all of it under one clock, or a delete. */
  ghost predicate OneClockOp(op: Op) {
    && !op.op.Update?
    && (op.op.Upsert? ==> op.writes != map[] && forall f :: f in op.writes ==> ClockFor(op, f) == op.hlc)
  }

  ghost predicate OneClockOps(all: set<Op>) {
    && (forall op :: op in all ==> OneClockOp(op))
    && (forall a, b :: a in all && b in all && a.hlc == b.hlc ==> a == b)
  }

  ghost predicate WrittenAfter(all: set<Op>, d: Option<Hlc>, f: string) {
    exists u :: u in all && Outlives(u, d) && f in u.writes
  }

  /**
   * Operations under one clock each are covered exactly when no upsert is newer than the newest delete, or those that
   * are write every field that any upsert writes.
   */
  lemma OneClockCover(all: set<Op>)
    requires OneClockOps(all)
    ensures TiesAgreeIn(all)
    ensures var d := LastDelete(all);
            Covered(all) <==>
            (SomeOutlives(all, d) ==> forall u, f :: u in all && Writes(u, f) ==> WrittenAfter(all, d, f))
  {
    ClocksAreTotallyOrdered();
    var d := LastDelete(all);
    LastDeleteIsLast(all);
    OneClockLasts(all, d);
    forall u, f | u in all && Writes(u, f) ensures Overwritten(all, d, u, f) <==> WrittenAfter(all, d, f) {
      assert OneClockOp(u);
      if WrittenAfter(all, d, f) {
        var w :| w in all && Outlives(w, d) && f in w.writes;
        assert OneClockOp(w);
        if !Outlives(u, d) {
          assert Lasts(w, d) && !Before(ClockFor(w, f), ClockFor(u, f));
        } else {
          assert Lasts(u, d);
        }
      }
    }
  }

  lemma OneClockLasts(all: set<Op>, d: Option<Hlc>)
    requires OneClockOps(all) && (d.Some? ==> HasDelete(all, d.value))
    ensures forall u :: u in all ==> (Fences(u, d) <==> Outlives(u, d))
  {
    ClocksAreTotallyOrdered();
    forall u | u in all ensures Fences(u, d) <==> Outlives(u, d) {
      assert OneClockOp(u);
      if d.Some? && u.op.Upsert? {
        var x :| x in all && x.op.Delete? && x.hlc == d.value;
        assert u.hlc != x.hlc;
        var f :| f in u.writes;
        assert ClockFor(u, f) == u.hlc;
      }
    }
  }

  /** A delete newer than every write, and no older than any operation, always wins, whatever else arrives. */
  lemma NewestDeleteWins(ops: seq<Op>, newest: Op)
    requires newest in ops && newest.op.Delete?
    requires forall op :: op in ops ==> !Before(newest.hlc, op.hlc)
    requires forall op, f :: op in ops && Writes(op, f) ==> Before(ClockFor(op, f), newest.hlc)
    ensures var row := ApplyAll(None, ops);
            row.Some? && row.value.deleted && row.value.delHlc == Some(newest.hlc)
            && row.value.fields == map[] && row.value.clocks == map[]
  {
    ClocksAreTotallyOrdered();
    var all := Members(ops);
    var d := LastDelete(all);
    LastDeleteIsLast(all);
    assert newest in all && newest.hlc in DeleteClocks(all);
    assert d == Some(newest.hlc) by {
      var x :| x in all && x.op.Delete? && x.hlc == d.value;
      assert x in ops;
    }
    forall u | u in all ensures !Outlives(u, d) && !Fences(u, d) {
      assert u in ops;
      assert forall f :: f in u.writes && !u.op.Delete? ==> Writes(u, f);
    }
    UncontestedIsBuried(all, ops);
  }

  /** Whole-row operations: every upsert writes exactly `names`, all under the operation's one clock. */
  ghost predicate WholeRowOp(op: Op, names: set<string>) {
    && !op.op.Update?
    && (op.op.Upsert? ==> op.writes.Keys == names && forall f :: f in names ==> ClockFor(op, f) == op.hlc)
  }

  ghost predicate WholeRowOps(ops: seq<Op>, names: set<string>) {
    && (forall op :: op in ops ==> WholeRowOp(op, names))
    && (forall a, b :: a in ops && b in ops && a.hlc == b.hlc ==> a == b)
  }

  /** The state that operation `op` alone dictates: deleted flag, fields and clocks. */
  ghost predicate DictatedBy(r: Row, op: Op, names: set<string>) {
    && r.deleted == op.op.Delete?
    && (r.deleted ==> r.delHlc == Some(op.hlc) && r.fields == map[] && r.clocks == map[])
    && (!r.deleted ==>
          && (r.delHlc.None? || Before(r.delHlc.value, op.hlc))
          && (forall f :: Get(r.clocks, f) == if f in names then Some(op.hlc) else None)
          && (forall f :: Get(r.fields, f) == if f in names && f in op.writes then op.writes[f] else None))
  }

  /**
   * From an absent row, upserts of one field set and deletes, in any order and with any repeats, end in
   * the state that the single newest operation dictates.
   */
  lemma NewestOperationWins(ops: seq<Op>, newest: Op, names: set<string>)
    requires names != {} && WholeRowOps(ops, names)
    requires newest in ops && forall op :: op in ops ==> !Before(newest.hlc, op.hlc)
    ensures ApplyAll(None, ops).Some? && DictatedBy(ApplyAll(None, ops).value, newest, names)
  {
    ClocksAreTotallyOrdered();
    if newest.op.Delete? {
      forall op, f | op in ops && Writes(op, f) ensures Before(ClockFor(op, f), newest.hlc) {
        assert WholeRowOp(op, names) && f in op.writes.Keys;
      }
      NewestDeleteWins(ops, newest);
    } else {
      NewestUpsertDictates(ops, newest, names);
    }
  }

  lemma NewestUpsertLasts(ops: seq<Op>, newest: Op, names: set<string>)
    requires names != {} && WholeRowOps(ops, names) && newest.op.Upsert?
    requires newest in ops && forall op :: op in ops ==> !Before(newest.hlc, op.hlc)
    ensures Lasts(newest, LastDelete(Members(ops)))
  {
    ClocksAreTotallyOrdered();
    var all, d := Members(ops), LastDelete(Members(ops));
    LastDeleteIsLast(all);
    assert WholeRowOp(newest, names);
    if d.Some? {
      var x :| x in all && x.op.Delete? && x.hlc == d.value;
      assert x in ops && x != newest;
      var f :| f in names;
      assert f in newest.writes.Keys && ClockFor(newest, f) == newest.hlc;
    }
  }

  lemma NewestUpsertDictates(ops: seq<Op>, newest: Op, names: set<string>)
    requires names != {} && WholeRowOps(ops, names) && newest.op.Upsert?
    requires newest in ops && forall op :: op in ops ==> !Before(newest.hlc, op.hlc)
    ensures ApplyAll(None, ops).Some? && DictatedBy(ApplyAll(None, ops).value, newest, names)
  {
    ClocksAreTotallyOrdered();
    var all := Members(ops);
    NewestUpsertLasts(ops, newest, names);
    ArrivalHolds(all, ops);
    var row := ApplyAll(None, ops);
    assert newest in all && Holds(row, newest);
    var r := row.value;
    if r.delHlc.Some? {
      var x :| x in all && x.op.Delete? && x.hlc == r.delHlc.value;
      assert x in ops && x != newest;
    }
    forall f ensures Get(r.clocks, f) == if f in names then Some(newest.hlc) else None
             ensures Get(r.fields, f) == if f in names && f in newest.writes then newest.writes[f] else None {
      NewestUpsertAt(ops, newest, names, r, f);
    }
  }

  lemma NewestUpsertAt(ops: seq<Op>, newest: Op, names: set<string>, r: Row, f: string)
    requires WholeRowOps(ops, names) && newest.op.Upsert? && Origin(Some(r), Members(ops)) && Holds(Some(r), newest)
    requires newest in ops && forall op :: op in ops ==> !Before(newest.hlc, op.hlc)
    ensures Get(r.clocks, f) == if f in names then Some(newest.hlc) else None
    ensures Get(r.fields, f) == if f in names && f in newest.writes then newest.writes[f] else None
  {
    ClocksAreTotallyOrdered();
    assert FromSeen(r, Members(ops), f);
    assert WholeRowOp(newest, names);
    assert f in newest.writes <==> f in newest.writes.Keys;
    if Get(r.clocks, f).Some? {
      var u :| u in Members(ops) && Wrote(u, f, r.clocks[f], Get(r.fields, f));
      assert u in ops && WholeRowOp(u, names) && f in u.writes.Keys;
      assert u.hlc == newest.hlc;
    }
  }

  // ---------- an uncovered run ----------

  /**
   * The smallest uncovered case: a revival forgets the field it does not write, while the same upsert arriving
   * before the delete defeats it and keeps the field.
   */
  lemma RevivalsDependOnOrder(kind: string, id: string)
    ensures var create := Op(kind, id, Upsert, map["a" := Some("1"), "b" := Some("2")], "1", map[]);
            var bury := Op(kind, id, Delete, map[], "2", map[]);
            var revive := Op(kind, id, Upsert, map["a" := Some("3")], "3", map[]);
            var r, r' := ApplyAll(None, [create, bury, revive]), ApplyAll(None, [create, revive, bury]);
            && r.Some? && r'.Some? && Get(r.value.fields, "b") == None && Get(r'.value.fields, "b") == Some("2")
            && TiesAgreeIn(Members([create, bury, revive])) && !Covered(Members([create, bury, revive]))
  {
    var create := Op(kind, id, Upsert, map["a" := Some("1"), "b" := Some("2")], "1", map[]);
    var bury := Op(kind, id, Delete, map[], "2", map[]);
    var revive := Op(kind, id, Upsert, map["a" := Some("3")], "3", map[]);
    assert Before("1", "2") && Before("2", "3") && Before("1", "3");
    var r1 := ApplyOp(None, create).row.value;
    assert Get(r1.clocks, "a") == Some("1") && Get(r1.clocks, "b") == Some("1") && Get(r1.fields, "b") == Some("2");
    // create, bury, revive
    BeatsMaxClock("2", r1);
    assert ClockSet(r1) == {"1"} by {
      assert forall f :: f in r1.clocks ==> Get(r1.clocks, f) == Some("1");
      assert r1.clocks["a"] in r1.clocks.Values;
    }
    var r2 := ApplyOp(Some(r1), bury).row;
    assert r2 == Some(Buried(r1, "2"));
    var r3 := ApplyOp(r2, revive).row;
    assert ApplyAll(None, [create, bury, revive]) == r3 by {
      ThreeSteps(None, create, bury, revive);
    }
    // create, revive, bury
    LiveApply(r1, revive);
    var s2 := ApplyOp(Some(r1), revive).row.value;
    assert Get(s2.clocks, "a") == Some("3") && Get(s2.fields, "b") == Some("2");
    assert "3" in s2.clocks.Values by { assert s2.clocks["a"] == "3"; }
    BeatsMaxClock("2", s2);
    ClocksAreTotallyOrdered();
    assert "3" in ClockSet(s2) && !Before("3", "2");
    assert ApplyAll(None, [create, revive, bury]) == Some(s2) by {
      ThreeSteps(None, create, revive, bury);
    }
    assert r3.Some? && Get(r3.value.fields, "b") == None;
    assert !SameState(r3, Some(s2));
    ReorderedRunDiffers(create, bury, revive);
  }

  lemma ThreeMembers(a: Op, b: Op, c: Op)
    ensures Members([a, b, c]) == {a, b, c}
  {
    assert [a, b, c][0] == a && [a, b, c][1] == b && [a, b, c][2] == c;
  }

  lemma ThreeOneClockOps(a: Op, b: Op, c: Op)
    requires OneClockOp(a) && OneClockOp(b) && OneClockOp(c) && a.hlc != b.hlc && b.hlc != c.hlc && a.hlc != c.hlc
    ensures OneClockOps({a, b, c})
  {
  }

  lemma DifferingArrivalsAreUncovered(ops: seq<Op>, other: seq<Op>)
    requires TiesAgreeIn(Members(ops)) && Delivers(other, ops)
    requires !SameState(ApplyAll(None, ops), ApplyAll(None, other))
    ensures !Covered(Members(ops))
  {
    if Covered(Members(ops)) {
      CoveredArrivalsAgree(ops);
      assert Delivers(ops, ops);
    }
  }

  lemma ReorderedRunDiffers(create: Op, bury: Op, revive: Op)
    requires OneClockOp(create) && OneClockOp(bury) && OneClockOp(revive)
    requires create.hlc != bury.hlc && bury.hlc != revive.hlc && create.hlc != revive.hlc
    requires !SameState(ApplyAll(None, [create, bury, revive]), ApplyAll(None, [create, revive, bury]))
    ensures TiesAgreeIn(Members([create, bury, revive])) && !Covered(Members([create, bury, revive]))
  {
    ThreeMembers(create, bury, revive);
    ThreeMembers(create, revive, bury);
    ThreeOneClockOps(create, bury, revive);
    OneClockCover({create, bury, revive});
    assert {create, bury, revive} == {create, revive, bury};
    DifferingArrivalsAreUncovered([create, bury, revive], [create, revive, bury]);
  }

  lemma ThreeSteps(row: Option<Row>, a: Op, b: Op, c: Op)
    ensures ApplyAll(row, [a, b, c]) == ApplyOp(ApplyOp(ApplyOp(row, a).row, b).row, c).row
  {
    assert [a, b, c][1..] == [b, c] && [b, c][1..] == [c] && [c][1..] == [];
    assert ApplyAll(row, [a, b, c]) == ApplyAll(ApplyOp(row, a).row, [b, c]);
    assert ApplyAll(ApplyOp(row, a).row, [b, c]) == ApplyAll(ApplyOp(ApplyOp(row, a).row, b).row, [c]);
  }
}
