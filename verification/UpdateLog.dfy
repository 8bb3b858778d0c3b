/**
 * The chunked update log (edge/src/update-log.ts): an update wider than the row cap is stored as consecutive
 * rows, the first marked as a start and the rest as continuations; reading joins each start with its followers.
 */
module UpdateLog {
  import opened Bytes

  const CHUNK_BYTES: nat := 1_500_000

  datatype LogRow = LogRow(bytes: Bytes, cont: bool)

  // ---------- the specification ----------

  function ChunkRows(update: Bytes): (rows: seq<LogRow>)
    ensures |rows| == PieceCount(|update|, CHUNK_BYTES)
  {
    var pieces := Pieces(update, CHUNK_BYTES);
    seq(|pieces|, i requires 0 <= i < |pieces| => LogRow(pieces[i], i > 0))
  }

  /** The updates read from `rows`, given the pieces of an update already open. */
  function ReadFrom(parts: seq<Bytes>, rows: seq<LogRow>): seq<Bytes>
    decreases rows
  {
    if rows == [] then (if parts == [] then [] else [Join(parts)])
    else if !rows[0].cont && parts != [] then [Join(parts)] + ReadFrom([rows[0].bytes], rows[1..])
    else ReadFrom(parts + [rows[0].bytes], rows[1..])
  }

  function ReadUpdates(rows: seq<LogRow>): seq<Bytes> {
    ReadFrom([], rows)
  }

  function RowBytes(rows: seq<LogRow>): nat {
    if rows == [] then 0 else |rows[0].bytes| + RowBytes(rows[1..])
  }

  // ---------- laws ----------

  /** Rows that follow a complete group and begin with a start do not disturb what was read before them. */
  lemma {:induction false} ReadThenStart(parts: seq<Bytes>, rows: seq<LogRow>, more: seq<LogRow>)
    requires more != [] && !more[0].cont
    ensures ReadFrom(parts, rows + more) == ReadFrom(parts, rows) + ReadUpdates(more)
    decreases rows
  {
    if rows == [] {
      assert rows + more == more;
      if parts != [] {
        assert ReadFrom([], more) == ReadFrom([more[0].bytes], more[1..]) by {
          assert [] + [more[0].bytes] == [more[0].bytes];
        }
      }
    } else {
      assert (rows + more)[1..] == rows[1..] + more;
      if !rows[0].cont && parts != [] {
        ReadThenStart([rows[0].bytes], rows[1..], more);
        var a, b, c := [Join(parts)], ReadFrom([rows[0].bytes], rows[1..]), ReadUpdates(more);
        assert a + (b + c) == (a + b) + c;
      } else {
        ReadThenStart(parts + [rows[0].bytes], rows[1..], more);
      }
    }
  }

  lemma {:induction false} ReadContinuations(parts: seq<Bytes>, rows: seq<LogRow>)
    requires parts != [] && forall r :: r in rows ==> r.cont
    ensures ReadFrom(parts, rows) == [Join(parts + Payloads(rows))]
    decreases rows
  {
    if rows == [] {
      assert parts + Payloads(rows) == parts;
    } else {
      ReadContinuations(parts + [rows[0].bytes], rows[1..]);
      assert parts + [rows[0].bytes] + Payloads(rows[1..]) == parts + Payloads(rows);
    }
  }

  function Payloads(rows: seq<LogRow>): (payloads: seq<Bytes>)
    ensures |payloads| == |rows|
  {
    seq(|rows|, i requires 0 <= i < |rows| => rows[i].bytes)
  }

  lemma OneUpdateReadsBack(update: Bytes)
    requires update != []
    ensures var rows := ChunkRows(update); rows != [] && !rows[0].cont && ReadUpdates(rows) == [update]
  {
    var rows := ChunkRows(update);
    PiecesJoin(update, CHUNK_BYTES);
    assert [] + [rows[0].bytes] == [rows[0].bytes];
    ReadContinuations([rows[0].bytes], rows[1..]);
    assert [rows[0].bytes] + Payloads(rows[1..]) == Pieces(update, CHUNK_BYTES);
  }

  /** Appending a non-empty update to any log makes it the last update read, and changes none before it. */
  lemma AppendedUpdateReadsBack(rows: seq<LogRow>, update: Bytes)
    requires update != []
    ensures ReadUpdates(rows + ChunkRows(update)) == ReadUpdates(rows) + [update]
  {
    OneUpdateReadsBack(update);
    ReadThenStart([], rows, ChunkRows(update));
  }

  ghost function AppendAll(rows: seq<LogRow>, updates: seq<Bytes>): seq<LogRow>
    decreases updates
  {
    if updates == [] then rows else AppendAll(rows + ChunkRows(updates[0]), updates[1..])
  }

  /** Any list of non-empty updates reads back as it was appended, after whatever the log held. */
  lemma {:induction false} AppendedUpdatesReadBack(rows: seq<LogRow>, updates: seq<Bytes>)
    requires forall u :: u in updates ==> u != []
    ensures ReadUpdates(AppendAll(rows, updates)) == ReadUpdates(rows) + updates
    decreases updates
  {
    if updates == [] {
      assert ReadUpdates(rows) + updates == ReadUpdates(rows);
    } else {
      assert updates[0] in updates && forall u :: u in updates[1..] ==> u in updates;
      AppendedUpdateReadsBack(rows, updates[0]);
      AppendedUpdatesReadBack(rows + ChunkRows(updates[0]), updates[1..]);
      assert ReadUpdates(rows) + [updates[0]] + updates[1..] == ReadUpdates(rows) + updates;
    }
  }

  lemma JoinOne(p: Bytes)
    ensures Join([p]) == p
  {
    assert [p][1..] == [] && p + [] == p;
  }

  /** Rows written before chunking all carry `cont = 0` and read back as one update each. */
  lemma {:induction false} LegacyRowsReadBack(rows: seq<LogRow>)
    requires forall r :: r in rows ==> !r.cont
    ensures ReadUpdates(rows) == Payloads(rows)
    decreases |rows|
  {
    if rows != [] {
      var init, last := rows[..|rows| - 1], rows[|rows| - 1];
      assert rows == init + [last];
      LegacyRowsReadBack(init);
      ReadThenStart([], init, [last]);
      assert ReadUpdates([last]) == [last.bytes] by {
        assert [last][1..] == [] && [] + [last.bytes] == [last.bytes];
        assert ReadFrom([], [last]) == ReadFrom([last.bytes], []) == [Join([last.bytes])];
        JoinOne(last.bytes);
      }
      assert Payloads(rows) == Payloads(init) + [last.bytes];
    }
  }

  /** No stored row exceeds the cap, none but the last is less, and the rows of an update hold exactly its bytes. */
  lemma ChunkRowsFit(update: Bytes)
    ensures forall i :: 0 <= i < |ChunkRows(update)| - 1 ==> |ChunkRows(update)[i].bytes| == 1_500_000
    ensures forall r :: r in ChunkRows(update) ==> 1 <= |r.bytes| <= 1_500_000
    ensures RowBytes(ChunkRows(update)) == |update|
  {
    PiecesJoin(update, CHUNK_BYTES);
    RowBytesArePayloads(ChunkRows(update));
    forall i | 0 <= i < |ChunkRows(update)| - 1 ensures |ChunkRows(update)[i].bytes| == CHUNK_BYTES {
      PieceBounds(|update|, CHUNK_BYTES, i);
    }
    assert Payloads(ChunkRows(update)) == Pieces(update, CHUNK_BYTES);
    JoinLength(Pieces(update, CHUNK_BYTES));
  }

  lemma {:induction false} RowBytesArePayloads(rows: seq<LogRow>)
    ensures RowBytes(rows) == TotalLength(Payloads(rows))
  {
    if rows != [] {
      RowBytesArePayloads(rows[1..]);
      assert Payloads(rows)[1..] == Payloads(rows[1..]);
    }
  }

  lemma {:induction false} RowBytesConcat(a: seq<LogRow>, b: seq<LogRow>)
    ensures RowBytes(a + b) == RowBytes(a) + RowBytes(b)
  {
    if a == [] {
      assert a + b == b;
    } else {
      assert (a + b)[1..] == a[1..] + b;
      RowBytesConcat(a[1..], b);
    }
  }

  // ---------- the code ----------

  class Log {
    var rows: seq<LogRow>

    constructor ()
      ensures rows == []
    {
      rows := [];
    }

    /** `appendUpdateRow`: one insert per chunk, the offset advancing by the cap. */
    method AppendUpdateRow(update: Bytes)
      modifies this
      ensures rows == old(rows) + ChunkRows(update)
    {
      var off, i := 0, 0;
      while off < |update|
        invariant 0 <= i <= PieceCount(|update|, CHUNK_BYTES) && off == i * CHUNK_BYTES
        invariant rows == old(rows) + ChunkRows(update)[..i]
      {
        var end := Min(off + CHUNK_BYTES, |update|);
        rows := rows + [LogRow(update[off..end], off != 0)];
        assert LogRow(update[off..end], off != 0) == ChunkRows(update)[i];
        assert ChunkRows(update)[..i + 1] == ChunkRows(update)[..i] + [ChunkRows(update)[i]];
        off, i := off + CHUNK_BYTES, i + 1;
      }
      assert i == PieceCount(|update|, CHUNK_BYTES);
    }

    /** `readUpdateRows`: the reader that keeps the open group in `parts`. */
    method ReadUpdateRows() returns (updates: seq<Bytes>)
      ensures updates == ReadUpdates(rows)
    {
      updates := [];
      var parts: seq<Bytes> := [];
      for i := 0 to |rows|
        invariant updates + ReadFrom(parts, rows[i..]) == ReadUpdates(rows)
      {
        var row := rows[i];
        assert rows[i..][0] == row && rows[i..][1..] == rows[i + 1..];
        ghost var before, open, rest := updates, parts, ReadFrom(parts, rows[i..]);
        if !row.cont && parts != [] {
          updates := updates + [Join(parts)];
          parts := [];
          assert [] + [row.bytes] == [row.bytes];
          assert updates + ReadFrom([row.bytes], rows[i + 1..]) == before + rest;
        }
        parts := parts + [row.bytes];
      }
      if parts != [] {
        updates := updates + [Join(parts)];
      }
    }
  }
}
