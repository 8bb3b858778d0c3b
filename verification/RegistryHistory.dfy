/**
 * Laws of whole row histories (edge/src/registry-core.ts, edge/src/registry-room.ts:457-470): clocks that only move
 * forward, writes that have landed for good, and re-seeding a table from old copies of its rows. A history is made of
 * operations arriving and of the alarm's purges.
 */
module RegistryHistory {
  import opened Options
  import opened Hlc
  import opened RegistryCore
  import opened RegistryMerge

  // ---------- histories ----------

  /** What happens to a row: an operation arrives, or the alarm purges it if it is a tombstone. */
  datatype RowEvent = Arrives(op: Op) | Purge

  ghost predicate IsTombstone(row: Option<Row>) {
    row.Some? && row.value.deleted
  }

  ghost function Next(row: Option<Row>, e: RowEvent): Option<Row> {
    match e
    case Arrives(op) => ApplyOp(row, op).row
    case Purge => if IsTombstone(row) then None else row
  }

  ghost function Through(row: Option<Row>, events: seq<RowEvent>): Option<Row>
    decreases events
  {
    if events == [] then row else Through(Next(row, events[0]), events[1..])
  }

  lemma {:induction false} ThroughSnoc(row: Option<Row>, events: seq<RowEvent>, e: RowEvent)
    ensures Through(row, events + [e]) == Next(Through(row, events), e)
    decreases events
  {
    if events == [] {
      assert [e][1..] == [];
    } else {
      assert (events + [e])[1..] == events[1..] + [e];
      ThroughSnoc(Next(row, events[0]), events[1..], e);
    }
  }

  /** No purge of `events` meets a tombstone. */
  ghost predicate NeverPurged(row: Option<Row>, events: seq<RowEvent>)
    decreases events
  {
    events != [] ==>
      && (events[0].Purge? ==> !IsTombstone(row))
      && NeverPurged(Next(row, events[0]), events[1..])
  }

  /** Whenever the row is a tombstone it stays one: it is neither revived nor purged. */
  ghost predicate StaysBuried(row: Option<Row>, events: seq<RowEvent>)
    decreases events
  {
    events != [] ==>
      && (IsTombstone(row) ==> IsTombstone(Next(row, events[0])))
      && StaysBuried(Next(row, events[0]), events[1..])
  }

  // ---------- clocks only move forward ----------

  ghost predicate NotOlder(a: Option<Hlc>, b: Option<Hlc>) {
    b.None? || (a.Some? && !Before(a.value, b.value))
  }

  lemma MaxClockCovers(row: Row, c: Hlc)
    requires c in ClockSet(row)
    ensures MaxClock(row).Some? && !Before(MaxClock(row).value, c)
  {
  }

  /** No operation ever moves a stored row's newest clock back. */
  lemma MaxClockNeverDecreases(row: Row, op: Op)
    requires WellFormed(row)
    ensures ApplyOp(Some(row), op).row.Some?
    ensures NotOlder(MaxClock(ApplyOp(Some(row), op).row.value), MaxClock(row))
  {
    ClocksAreTotallyOrdered();
    var r := ApplyOp(Some(row), op).row.value;
    if MaxClock(row).Some? {
      var top := MaxClock(row).value;
      assert top in ClockSet(row);
      if op.op.Delete? {
        if ApplyOp(Some(row), op).changed {
          BeatsMaxClock(op.hlc, row);
          assert op.hlc in ClockSet(r);
          MaxClockCovers(r, op.hlc);
        }
      } else if row.delHlc == Some(top) {
        MaxClockCovers(r, top);
      } else {
        assert !row.deleted;
        LiveApply(row, op);
        var f :| f in row.clocks && row.clocks[f] == top;
        assert Get(r.clocks, f) == ClockAfter(row.clocks, op, f);
        assert r.clocks[f] in r.clocks.Values;
        MaxClockCovers(r, r.clocks[f]);
      }
    }
  }

  /** Nor does any history, until the row is purged. */
  lemma {:induction false} MaxClockNeverDecreasesOverRuns(row: Row, events: seq<RowEvent>)
    requires WellFormed(row) && NeverPurged(Some(row), events)
    ensures Through(Some(row), events).Some? && WellFormed(Through(Some(row), events).value)
    ensures NotOlder(MaxClock(Through(Some(row), events).value), MaxClock(row))
    decreases events
  {
    ClocksAreTotallyOrdered();
    if events != [] {
      if events[0].Arrives? {
        MaxClockNeverDecreases(row, events[0].op);
        ApplyKeepsWellFormed(Some(row), events[0].op);
      }
      MaxClockNeverDecreasesOverRuns(Next(Some(row), events[0]).value, events[1..]);
    }
  }

  lemma DeleteMisses(row: Row, op: Op)
    requires WellFormed(row) && op.op.Delete? && NotOlder(MaxClock(row), Some(op.hlc))
    ensures ApplyOp(Some(row), op) == ApplyResult(Some(row), false)
  {
    ClocksAreTotallyOrdered();
    if row.deleted {
      assert row.clocks.Values == {};
      assert ClockSet(row) == {row.delHlc.value};
    }
  }

  /** Once delivered, a delete does not apply again to its row, whatever arrives in between, until the row is purged. */
  lemma DeliveredDeleteNeverReapplies(row: Option<Row>, bury: Op, later: seq<RowEvent>)
    requires row.Some? ==> WellFormed(row.value)
    requires bury.op.Delete? && NeverPurged(ApplyOp(row, bury).row, later)
    ensures var after := Through(ApplyOp(row, bury).row, later);
            ApplyOp(after, bury) == ApplyResult(after, false)
  {
    ClocksAreTotallyOrdered();
    ApplyKeepsWellFormed(row, bury);
    var r := ApplyOp(row, bury).row.value;
    assert NotOlder(MaxClock(r), Some(bury.hlc)) by {
      if ApplyOp(row, bury).changed {
        assert bury.hlc in ClockSet(r);
      } else if r.deleted {
        assert r.delHlc.value in ClockSet(r);
      }
    }
    MaxClockNeverDecreasesOverRuns(r, later);
    DeleteMisses(Through(Some(r), later).value, bury);
  }

  /** A purge forgets every clock: after it any delete and any upsert applies, however old. */
  lemma PurgeForgets(row: Option<Row>, events: seq<RowEvent>, op: Op)
    requires IsTombstone(Through(row, events)) && !op.op.Update?
    ensures var gone := Through(row, events + [Purge]);
            && gone == None && ApplyOp(gone, op).changed
            && ApplyOp(gone, op).row.Some? && ApplyOp(gone, op).row.value.deleted == op.op.Delete?
  {
    ThroughSnoc(row, events, Purge);
  }

  // ---------- redelivery ----------

  /** Every field write of `op` already lost or landed. */
  ghost predicate Settled(r: Row, op: Op) {
    forall f :: f in op.writes ==> !HlcNewer(ClockFor(op, f), Get(r.clocks, f))
  }

  lemma SettledIsNoOp(r: Row, op: Op)
    requires !r.deleted && !op.op.Delete?
    ensures ApplyOp(Some(r), op).changed <==> !Settled(r, op)
    ensures !ApplyOp(Some(r), op).changed ==> ApplyOp(Some(r), op).row == Some(r)
  {
    if !Settled(r, op) {
      var f :| f in op.writes && HlcNewer(ClockFor(op, f), Get(r.clocks, f));
      assert Wins(r.clocks, op, f);
    }
  }

  /** A write lands on the first live row it meets. */
  lemma DeliverySettles(row: Option<Row>, op: Op)
    requires !op.op.Delete?
    requires row.Some? ==> !row.value.deleted
    requires row.None? ==> op.op.Upsert?
    ensures var r := ApplyOp(row, op).row; r.Some? && !r.value.deleted && Settled(r.value, op)
  {
    ClocksAreTotallyOrdered();
    var base := if row.Some? then row.value else EmptyRow(op.kind, op.id);
    LiveApply(base, op);
    var r := ApplyOp(row, op).row.value;
    assert forall f :: Get(r.clocks, f) == ClockAfter(base.clocks, op, f);
  }

  lemma SettledStays(r: Row, op: Op, next: Op)
    requires !r.deleted && !next.op.Delete? && Settled(r, op)
    ensures var r' := ApplyOp(Some(r), next).row; r'.Some? && !r'.value.deleted && Settled(r'.value, op)
  {
    ClocksAreTotallyOrdered();
    LiveApply(r, next);
    var r' := ApplyOp(Some(r), next).row.value;
    forall f | f in op.writes ensures !HlcNewer(ClockFor(op, f), Get(r'.clocks, f)) {
      assert Get(r'.clocks, f) == ClockAfter(r.clocks, next, f);
    }
  }

  // ---------- re-seeding ----------

  /** Seeding an absent row restores its deleted flag, its fields and the clocks of the fields still present. */
  lemma SeedingRestoresARow(row: Row)
    requires WellFormed(row)
    ensures var r := ApplyOp(None, RowToSeedOp(row)).row;
            && r.Some? && r.value.kind == row.kind && r.value.id == row.id
            && r.value.deleted == row.deleted && r.value.fields == row.fields
            && (row.deleted ==> r.value.delHlc == row.delHlc && r.value.clocks == row.clocks)
            && (!row.deleted ==> r.value.delHlc == None)
            && forall f :: Get(r.value.clocks, f) == if f in row.fields then Get(row.clocks, f) else None
  {
    var op := RowToSeedOp(row);
    var r := ApplyOp(None, op).row.value;
    if !row.deleted {
      forall f ensures Get(r.fields, f) == Get(row.fields, f)
        && Get(r.clocks, f) == if f in row.fields then Get(row.clocks, f) else None
      {
        assert Get(row.fields, f).Some? ==> Get(row.clocks, f).Some?;
        assert Get(r.fields, f) == FieldAfter(EmptyRow(row.kind, row.id), op, f);
        assert Get(r.clocks, f) == ClockAfter(map[], op, f);
      }
      EqualByGet(r.fields, row.fields);
    }
  }

  /**
   * The restored row equals the original, batch number aside, exactly when the original holds no cleared
   * field and is not a revived row: those two clocks travel in no seed.
   */
  lemma SeedingIsExact(row: Row)
    requires WellFormed(row)
    ensures ApplyOp(None, RowToSeedOp(row)).row == Some(row.(stamp := 0)) <==>
            row.deleted || (row.delHlc.None? && row.clocks.Keys == row.fields.Keys)
  {
    SeedingRestoresARow(row);
    var r := ApplyOp(None, RowToSeedOp(row)).row.value;
    if !row.deleted {
      if row.delHlc.None? && row.clocks.Keys == row.fields.Keys {
        forall f ensures Get(r.clocks, f) == Get(row.clocks, f) {
          assert f in row.clocks.Keys <==> f in row.fields.Keys;
        }
        EqualByGet(r.clocks, row.clocks);
      } else if row.delHlc.None? {
        forall f | f in row.fields ensures f in row.clocks {
          assert Get(row.fields, f).Some?;
        }
        assert exists f :: f in row.clocks && f !in row.fields by {
          assert row.fields.Keys <= row.clocks.Keys;
        }
        var f :| f in row.clocks && f !in row.fields;
        assert Get(r.clocks, f).None? && Get(row.clocks, f).Some?;
      }
    }
  }

  /** The seed of a live copy revives a tombstone exactly when something on the copy is newer than it. */
  lemma SeedRevivesExactly(row: Row, tombstone: Row)
    requires WellFormed(row) && !row.deleted && MaxClock(row).Some? && WellFormed(tombstone) && tombstone.deleted
    ensures var r := ApplyOp(Some(tombstone), RowToSeedOp(row)).row;
            r.Some? && (!r.value.deleted <==> exists c :: c in ClockSet(row) && Before(tombstone.delHlc.value, c))
  {
    ClocksAreTotallyOrdered();
    var top := MaxClock(row).value;
    assert top in ClockSet(row);
    if exists c :: c in ClockSet(row) && Before(tombstone.delHlc.value, c) {
      var c :| c in ClockSet(row) && Before(tombstone.delHlc.value, c);
      assert !Before(top, c);
    }
  }

  /** What an old copy's seed needs of a later row in order to change nothing. */
  ghost predicate Outgrew(r: Row, old': Row) {
    && (old'.deleted ==> r.deleted)
    && NotOlder(MaxClock(r), MaxClock(old'))
    && (!r.deleted ==> forall f :: f in old'.clocks ==> f in r.clocks && !Before(r.clocks[f], old'.clocks[f]))
  }

  lemma OutgrewStep(r: Row, old': Row, op: Op)
    requires WellFormed(r) && Outgrew(r, old')
    requires r.deleted ==> ApplyOp(Some(r), op).row.Some? && ApplyOp(Some(r), op).row.value.deleted
    ensures ApplyOp(Some(r), op).row.Some? && Outgrew(ApplyOp(Some(r), op).row.value, old')
  {
    ClocksAreTotallyOrdered();
    MaxClockNeverDecreases(r, op);
    if !r.deleted && !op.op.Delete? {
      LiveApply(r, op);
      var r' := ApplyOp(Some(r), op).row.value;
      forall f | f in old'.clocks ensures f in r'.clocks && !Before(r'.clocks[f], old'.clocks[f]) {
        assert Get(r'.clocks, f) == ClockAfter(r.clocks, op, f);
      }
    }
  }

  lemma {:induction false} OutgrewRun(r: Row, old': Row, events: seq<RowEvent>)
    requires WellFormed(r) && Outgrew(r, old') && StaysBuried(Some(r), events)
    ensures var r' := Through(Some(r), events); r'.Some? && WellFormed(r'.value) && Outgrew(r'.value, old')
    decreases events
  {
    if events != [] {
      if events[0].Arrives? {
        MaxClockNeverDecreases(r, events[0].op);
        OutgrewStep(r, old', events[0].op);
        ApplyKeepsWellFormed(Some(r), events[0].op);
      }
      OutgrewRun(Next(Some(r), events[0]).value, old', events[1..]);
    }
  }

  /**
   * Seeding an old copy that carries a clock changes nothing in any state reached from it in which the row was neither
   * revived nor purged.
   */
  lemma StaleSeedsChangeNothing(row: Row, events: seq<RowEvent>)
    requires WellFormed(row) && MaxClock(row).Some? && StaysBuried(Some(row), events)
    ensures var later := Through(Some(row), events);
            ApplyOp(later, RowToSeedOp(row)) == ApplyResult(later, false)
  {
    ClocksAreTotallyOrdered();
    OutgrewRun(row, row, events);
    var r, op := Through(Some(row), events).value, RowToSeedOp(row);
    if row.deleted {
      assert ClockSet(row) == {row.delHlc.value} by { assert row.clocks.Values == {}; }
      DeleteMisses(r, op);
    } else if r.deleted {
      assert ClockSet(r) == {r.delHlc.value} by { assert r.clocks.Values == {}; }
    } else {
      forall f | f in op.writes ensures !HlcNewer(ClockFor(op, f), Get(r.clocks, f)) {
        assert Get(row.fields, f).Some?;
      }
      SettledIsNoOp(r, op);
    }
  }

  /** A delete of the row just newer than everything on it. */
  ghost function JustNewerDelete(row: Row): Op {
    Op(row.kind, row.id, Delete, map[],
       if MaxClock(row).Some? then MaxClock(row).value + "-" else EncodeHlc(0, 0, "a"), map[])
  }

  lemma NewerDeleteBuries(row: Row)
    requires !row.deleted
    ensures Next(Some(row), Arrives(JustNewerDelete(row))) == Some(Buried(row, JustNewerDelete(row).hlc))
  {
    if MaxClock(row).Some? {
      PrefixIsLess(MaxClock(row).value, "-");
    }
  }

  /** Where the row was purged, the seed of any live copy brings it back, clock or no clock. */
  lemma PurgedRowIsReseeded(row: Row)
    requires WellFormed(row) && !row.deleted
    ensures var events := [Arrives(JustNewerDelete(row)), Purge];
            var r := ApplyOp(Through(Some(row), events), RowToSeedOp(row)).row;
            && Through(Some(row), events) == None && !StaysBuried(Some(row), events)
            && r.Some? && !r.value.deleted && r.value.fields == row.fields
  {
    var bury := Arrives(JustNewerDelete(row));
    NewerDeleteBuries(row);
    SeedingRestoresARow(row);
    assert [bury, Purge][1..] == [Purge] && [Purge][1..] == [];
    assert Through(Some(row), [bury, Purge]) == Through(Next(Some(row), bury), [Purge]);
    assert StaysBuried(Some(row), [bury, Purge]) ==> StaysBuried(Next(Some(row), bury), [Purge]);
  }

  /** A row without a clock is an empty one: its seed carries a made-up clock that can beat a later tombstone. */
  lemma ClocklessSeedRevives(row: Row)
    requires WellFormed(row) && MaxClock(row).None?
    ensures var bury := Arrives(JustNewerDelete(row));
            var later := Through(Some(row), [bury]);
            && row == EmptyRow(row.kind, row.id).(stamp := row.stamp)
            && StaysBuried(Some(row), [bury]) && IsTombstone(later)
            && ApplyOp(later, RowToSeedOp(row)).changed
  {
    var bury := Arrives(JustNewerDelete(row));
    assert ClockSet(row) == {};
    NoClocksNoFields(row);
    NewerDeleteBuries(row);
    var later := Next(Some(row), bury);
    assert [bury][1..] == [] && StaysBuried(later, []);
    assert Through(Some(row), [bury]) == Through(later, []) == later;
    assert Less("a", "seed");
    assert InRange(0, 0);
    EncodingKeepsOrder(0, 0, "a", 0, 0, "seed");
  }

  lemma NoClocksNoFields(row: Row)
    requires WellFormed(row) && ClockSet(row) == {}
    ensures !row.deleted && row.delHlc.None? && row.clocks == map[] && row.fields == map[]
  {
    ClockSetHasEveryClock(row);
    forall f ensures f !in row.clocks && f !in row.fields {
      assert Get(row.fields, f).Some? ==> Get(row.clocks, f).Some?;
    }
  }

  lemma ClockSetHasEveryClock(row: Row)
    ensures forall f :: f in row.clocks ==> row.clocks[f] in ClockSet(row)
    ensures row.delHlc.Some? ==> row.delHlc.value in ClockSet(row)
  {
    assert forall f :: f in row.clocks ==> row.clocks[f] in row.clocks.Values;
  }

  /** Arriving after `events`, which neither revive nor purge the row, the seed of `row` changes nothing. */
  ghost predicate SeedMisses(row: Row, events: seq<RowEvent>) {
    StaysBuried(Some(row), events) ==>
      var later := Through(Some(row), events);
      ApplyOp(later, RowToSeedOp(row)) == ApplyResult(later, false)
  }

  /**
   * A stale seed is harmless after every history that neither revives nor purges the row if and only if the old copy
   * carried a clock.
   */
  lemma StaleSeedsAreHarmlessExactly(row: Row)
    requires WellFormed(row)
    ensures (forall events :: SeedMisses(row, events)) <==> MaxClock(row).Some?
  {
    if MaxClock(row).Some? {
      forall events ensures SeedMisses(row, events) {
        if StaysBuried(Some(row), events) {
          StaleSeedsChangeNothing(row, events);
        }
      }
    } else {
      ClocklessSeedRevives(row);
      assert !SeedMisses(row, [Arrives(JustNewerDelete(row))]);
    }
  }
}
