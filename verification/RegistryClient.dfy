/**
 * The client's copy of the registry (crates/doc/src/registry.rs): taking answers and broadcasts into the copy, and
 * queueing the rows it must seed in batches the room accepts. The server's side of both is RegistrySync and
 * RegistryReseed.
 */
module RegistryClient {
  import opened Options
  import opened Hlc
  import opened RegistryCore
  import opened RegistryTable
  import opened RegistrySync
  import opened RegistryReseed

  const MAX_OPS_PER_BATCH := 400

  /** What a hello answer turned out to be. */
  datatype StateOutcome = Delta | Replaced | Reseeded

  /** The chunks a list of operations is queued in: full ones, then what is left. */
  function Chunks(ops: seq<Op>): seq<seq<Op>> {
    if ops == [] then []
    else if |ops| <= MAX_OPS_PER_BATCH then [ops]
    else [ops[..MAX_OPS_PER_BATCH]] + Chunks(ops[MAX_OPS_PER_BATCH..])
  }

  /** The chunks are the operations in order, each of a size the room accepts, and none but the last less than full. */
  lemma {:induction false} ChunksHoldTheOps(ops: seq<Op>)
    ensures Concat(Chunks(ops)) == ops
    ensures forall chunk :: chunk in Chunks(ops) ==> 1 <= |chunk| <= MAX_BATCH_OPS
    ensures forall i :: 0 <= i < |Chunks(ops)| - 1 ==> |Chunks(ops)[i]| == 400
  {
    if |ops| > MAX_OPS_PER_BATCH {
      ChunksHoldTheOps(ops[MAX_OPS_PER_BATCH..]);
      assert ops == ops[..MAX_OPS_PER_BATCH] + ops[MAX_OPS_PER_BATCH..];
    } else if ops != [] {
      assert Concat([ops]) == ops + Concat([ops][1..]);
    }
  }

  /** `row_to_seed_op`. */
  method SeedOp(row: Row) returns (op: Op)
    ensures op == RowToSeedOp(row)
  {
    if row.deleted {
      return Op(row.kind, row.id, Delete, map[],
                if row.delHlc.Some? then row.delHlc.value else EncodeHlc(0, 0, "seed"), map[]);
    }
    var max := MaxClockOf(row);
    op := Op(row.kind, row.id, Upsert, map f | f in row.fields :: Some(row.fields[f]),
             if max.Some? then max.value else EncodeHlc(0, 0, "seed"), row.clocks);
  }

  /** The loop over the copy's rows, in no particular order. */
  method SeedRows(rows: Table, have: set<Key>) returns (seed: seq<Op>)
    ensures SeedsOf(seed, rows, have)
  {
    seed := [];
    var todo := rows.Keys;
    while todo != {}
      invariant todo <= rows.Keys
      invariant AllSeeds(seed, rows, have)
      invariant forall k :: k in rows && k !in have && k !in todo ==> RowToSeedOp(rows[k]) in seed
    {
      var k :| k in todo;
      if k !in have {
        var op := SeedOp(rows[k]);
        assert IsSeed(op, rows, have, k);
        seed := seed + [op];
      }
      todo := todo - {k};
    }
  }

  lemma SeedsExist(seed: seq<Op>, rows: Table, have: set<Key>)
    requires SeedsOf(seed, rows, have)
    ensures seed == [] <==> rows.Keys <= have
  {
    if seed != [] {
      assert seed[0] in seed;
      var k :| IsSeed(seed[0], rows, have, k);
    } else {
      assert forall k :: k in rows.Keys ==> k in have;
    }
  }

  class Doc {
    var rows: Table
    var cursor: nat
    var pending: seq<seq<Op>>

    constructor ()
      ensures rows == map[] && cursor == 0 && pending == []
    {
      rows, cursor, pending := map[], 0, [];
    }

    ghost function Copy(): Replica
      reads this
    {
      Replica(rows, Some(cursor))
    }

    /** Appends the operations to the queue in chunks under the room's cap. */
    method EnqueueOps(ops: seq<Op>)
      modifies this`pending
      ensures pending == old(pending) + Chunks(ops)
    {
      var rest := ops;
      while rest != []
        invariant pending + Chunks(rest) == old(pending) + Chunks(ops)
        decreases |rest|
      {
        var tail := if |rest| > MAX_OPS_PER_BATCH then rest[MAX_OPS_PER_BATCH..] else [];
        var head := if |rest| > MAX_OPS_PER_BATCH then rest[..MAX_OPS_PER_BATCH] else rest;
        assert Chunks(rest) == [head] + Chunks(tail);
        pending := pending + [head];
        rest := tail;
      }
    }

    /**
     * A hello answer: a delta lands on the copy, a full one replaces it, and one from behind the copy's cursor lands on
     * it too. What the answer then lacks is queued, under its original clocks and behind what was pending.
     */
    method ApplyState(frame: StateFrame) returns (outcome: StateOutcome)
      modifies this
      ensures var lost := frame.full && frame.seqNo < old(cursor);
              Copy() == if lost then Replica(old(rows) + frame.rows, Some(frame.seqNo))
                        else TakeState(old(Copy()), frame)
      ensures old(pending) <= pending
      ensures SeedsOf(Concat(pending[|old(pending)|..]), old(rows), Unseeded(old(rows), old(cursor), frame))
      ensures forall batch :: batch in pending[|old(pending)|..] ==> 1 <= |batch| <= MAX_BATCH_OPS
      ensures outcome == if !frame.full then Delta
                         else if frame.seqNo >= old(cursor) && old(rows).Keys <= frame.rows.Keys then Replaced
                         else Reseeded
    {
      if !frame.full {
        rows, cursor := rows + frame.rows, frame.seqNo;
        assert pending[|old(pending)|..] == [];
        return Delta;
      }
      var seed;
      if frame.seqNo < cursor {
        seed := SeedRows(rows, {});
        rows := rows + frame.rows;
        outcome := Reseeded;
      } else {
        seed := SeedRows(rows, frame.rows.Keys);
        rows := frame.rows;
        outcome := if seed == [] then Replaced else Reseeded;
        SeedsExist(seed, old(rows), frame.rows.Keys);
      }
      cursor := frame.seqNo;
      ChunksHoldTheOps(seed);
      EnqueueOps(seed);
      assert pending[|old(pending)|..] == Chunks(seed);
    }

    /** A broadcast: its rows always land, and a gap before it holds the cursor and is reported. */
    method ApplyRows(seqNo: nat, delta: Table) returns (contiguous: bool)
      modifies this`rows, this`cursor
      ensures Copy() == TakeRows(old(Copy()), seqNo, delta)
      ensures contiguous <==> seqNo <= old(cursor) + 1
    {
      rows := rows + delta;
      if seqNo > cursor + 1 {
        return false;
      }
      if seqNo > cursor {
        cursor := seqNo;
      }
      contiguous := true;
    }
  }
}
