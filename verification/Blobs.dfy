/**
 * Chunked blobs (edge/src/blobs.ts): a named blob is stored as ordered chunk rows, and a byte range is served
 * by reading only the chunks it intersects.
 */
module Blobs {
  import opened Options
  import opened Bytes
  import UpdateLog

  const CHUNK_BYTES: nat := UpdateLog.CHUNK_BYTES
  const MAX_SAFE_INTEGER := 0x1F_FFFF_FFFF_FFFF

  datatype ChunkKey = ChunkKey(name: string, idx: nat)

  datatype RangeResult = BadRange | Missing | Found(bytes: Bytes, total: nat)

  /** How many rows a blob takes: an empty blob still takes one. */
  function ChunkCount(b: Bytes): nat {
    if b == [] then 1 else PieceCount(|b|, CHUNK_BYTES)
  }

  function Chunk(b: Bytes, idx: nat): Bytes
    requires idx < ChunkCount(b)
  {
    if b == [] then [] else Piece(b, CHUNK_BYTES, idx)
  }

  function Stop(total: nat, end: Option<int>): int {
    if end.Some? then Min(end.value, total) else total
  }

  /** The bytes of `b` from `start` up to `end`, both cut to the blob. */
  function Slice(b: Bytes, start: nat, end: Option<int>): Bytes {
    if start < Stop(|b|, end) then b[start..Stop(|b|, end)] else []
  }

  predicate GoodRange(start: int, end: Option<int>) {
    && 0 <= start <= MAX_SAFE_INTEGER
    && (end.Some? ==> start <= end.value <= MAX_SAFE_INTEGER)
  }

  function Max(a: int, b: int): int {
    if a < b then b else a
  }

  /** The positions of chunk `idx` and those from `start` up to `stop` overlap. */
  ghost predicate Intersects(b: Bytes, idx: nat, start: nat, stop: int) {
    idx < ChunkCount(b) && Max(start, idx * CHUNK_BYTES) < Min(stop, idx * CHUNK_BYTES + |Chunk(b, idx)|)
  }

  /** The chunk of a position, in the arithmetic the code uses. */
  lemma ChunkOfPosition(b: Bytes, k: nat)
    requires k < |b|
    ensures var idx := k / CHUNK_BYTES;
            && idx < ChunkCount(b)
            && idx * CHUNK_BYTES <= k < idx * CHUNK_BYTES + |Chunk(b, idx)|
            && Chunk(b, idx)[k - idx * CHUNK_BYTES] == b[k]
  {
    var idx := k / CHUNK_BYTES;
    PieceBounds(|b|, CHUNK_BYTES, idx);
  }

  lemma ChunkSpan(b: Bytes, idx: nat)
    requires b != [] && idx < ChunkCount(b)
    ensures idx * CHUNK_BYTES < |b| && |Chunk(b, idx)| == Min(CHUNK_BYTES, |b| - idx * CHUNK_BYTES)
    ensures forall k :: idx * CHUNK_BYTES <= k < idx * CHUNK_BYTES + |Chunk(b, idx)| ==>
        Chunk(b, idx)[k - idx * CHUNK_BYTES] == b[k]
  {
    PieceBounds(|b|, CHUNK_BYTES, idx);
  }

  /** The chunks that intersect a non-empty range are those from its first byte's chunk to its last byte's. */
  lemma IntersectingChunks(b: Bytes, idx: nat, start: nat, stop: nat)
    requires start < stop <= |b|
    ensures Intersects(b, idx, start, stop) <==> start / CHUNK_BYTES <= idx <= (stop - 1) / CHUNK_BYTES
  {
    ChunkOfPosition(b, start);
    ChunkOfPosition(b, stop - 1);
    if idx < ChunkCount(b) {
      ChunkSpan(b, idx);
    }
  }

  class BlobStore {
    var chunks: map<ChunkKey, Bytes>
    ghost var blobs: map<string, Bytes>

    /** The chunk rows are exactly the chunks of the stored blobs. */
    ghost predicate Valid()
      reads this
    {
      && (forall k :: k in chunks <==> k.name in blobs && k.idx < ChunkCount(blobs[k.name]))
      && (forall k :: k in chunks ==> chunks[k] == Chunk(blobs[k.name], k.idx))
    }

    constructor ()
      ensures Valid() && blobs == map[]
    {
      chunks, blobs := map[], map[];
    }

    method Delete(name: string)
      requires Valid()
      modifies this
      ensures Valid() && blobs == old(blobs) - {name}
    {
      chunks := map k | k in chunks && k.name != name :: chunks[k];
      blobs := blobs - {name};
    }

    /** `put`: drop the old rows, then insert one row per chunk. Other names keep their rows. */
    method Put(name: string, bytes: Bytes)
      requires Valid()
      modifies this
      ensures Valid() && blobs == old(blobs)[name := bytes]
      ensures forall k: ChunkKey :: k.name != name ==>
          (k in chunks <==> k in old(chunks)) && (k in chunks ==> chunks[k] == old(chunks)[k])
    {
      Delete(name);
      ghost var others := chunks;
      var i, idx := 0, 0;
      while i == 0 || i < |bytes|
        invariant 0 <= idx <= ChunkCount(bytes) && i == idx * CHUNK_BYTES
        invariant blobs == old(blobs) - {name}
        invariant forall k :: k in chunks <==> k in others || (k.name == name && k.idx < idx)
        invariant forall k :: k in chunks ==> chunks[k] == if k.name == name then Chunk(bytes, k.idx) else others[k]
        decreases |bytes| + CHUNK_BYTES - i
      {
        if bytes != [] {
          PieceBounds(|bytes|, CHUNK_BYTES, idx);
        }
        chunks := chunks[ChunkKey(name, idx) := bytes[i..Min(i + CHUNK_BYTES, |bytes|)]];
        i, idx := i + CHUNK_BYTES, idx + 1;
      }
      assert idx == ChunkCount(bytes);
      blobs := blobs[name := bytes];
    }

    /** `SUM(length(bytes))` over a name's rows, `None` when it has none. */
    method StoredLength(name: string) returns (total: Option<nat>)
      requires Valid()
      ensures total == if name in blobs then Some(|blobs[name]|) else None
    {
      if ChunkKey(name, 0) !in chunks {
        return None;
      }
      var sum, idx := 0, 0;
      ghost var b := blobs[name];
      while ChunkKey(name, idx) in chunks
        invariant idx <= ChunkCount(b)
        invariant sum == Min(idx * CHUNK_BYTES, |b|)
        decreases ChunkCount(b) - idx
      {
        if b != [] {
          ChunkSpan(b, idx);
        }
        sum, idx := sum + |chunks[ChunkKey(name, idx)]|, idx + 1;
      }
      total := Some(sum);
    }

    /**
     * `getRange`: an invalid range is an error, an unknown name is missing, and otherwise the range's bytes and the
     * full length come back after reading exactly the chunks that intersect it, listed in `read`.
     */
    method GetRange(name: string, start: int, end: Option<int>) returns (result: RangeResult, read: set<nat>)
      requires Valid()
      ensures result == if !GoodRange(start, end) then BadRange
                        else if name !in blobs then Missing
                        else Found(Slice(blobs[name], start, end), |blobs[name]|)
      ensures result == BadRange <==>
                start < 0 || start > 0x1F_FFFF_FFFF_FFFF
                || (end.Some? && (end.value < start || end.value > 0x1F_FFFF_FFFF_FFFF))
      ensures result == Missing ==> name !in blobs
      ensures result.Found? ==>
                && name in blobs && result.total == |blobs[name]|
                && var stop := if end.Some? && end.value < |blobs[name]| then end.value else |blobs[name]|;
                   result.bytes == if start < stop then blobs[name][start..stop] else []
      ensures GoodRange(start, end) && name in blobs ==>
                forall idx :: idx in read <==> Intersects(blobs[name], idx, start, Stop(|blobs[name]|, end))
    {
      read := {};
      if start < 0 || start > MAX_SAFE_INTEGER || (end.Some? && (end.value > MAX_SAFE_INTEGER || end.value < start)) {
        return BadRange, {};
      }
      var size := StoredLength(name);
      if size.None? {
        return Missing, {};
      }
      var total := size.value;
      var stop := Stop(total, end);
      ghost var b := blobs[name];
      if stop <= start {
        return Found([], total), {};
      }
      var bytes;
      bytes, read := ReadChunks(name, start, stop);
      result := Found(bytes, total);
    }

    /** The cursor loop of `getRange` over the intersecting rows, copying each into the output buffer. */
    method ReadChunks(name: string, start: nat, stop: nat) returns (bytes: Bytes, read: set<nat>)
      requires Valid() && name in blobs && start < stop <= |blobs[name]|
      ensures bytes == blobs[name][start..stop]
      ensures forall idx :: idx in read <==> Intersects(blobs[name], idx, start, stop)
    {
      ghost var b := blobs[name];
      var out := new byte[stop - start];
      var first, last := start / CHUNK_BYTES, (stop - 1) / CHUNK_BYTES;
      ChunkOfPosition(b, stop - 1);
      read := {};
      for idx := first to last + 1
        invariant forall j :: j in read <==> first <= j < idx
        invariant forall i :: 0 <= i < out.Length && start + i < idx * CHUNK_BYTES ==> out[i] == b[start + i]
      {
        ChunkSpan(b, idx);
        assert ChunkKey(name, idx) in chunks;
        CopyChunk(out, chunks[ChunkKey(name, idx)], idx * CHUNK_BYTES, start, stop);
        read := read + {idx};
      }
      bytes := out[..];
      forall idx: nat ensures idx in read <==> Intersects(b, idx, start, stop) {
        IntersectingChunks(b, idx, start, stop);
      }
    }

    /** `out.set(bytes.subarray(..), ..)`: the part of one chunk row that lies in the range. */
    static method CopyChunk(out: array<byte>, row: Bytes, offset: nat, start: nat, stop: nat)
      requires start <= stop && out.Length == stop - start
      modifies out
      ensures forall i :: 0 <= i < out.Length ==>
                out[i] == if offset <= start + i < offset + |row| then row[start + i - offset] else old(out[i])
    {
      var lo, hi := Max(start, offset), Min(stop, offset + |row|);
      forall i | lo - start <= i < hi - start {
        out[i] := row[start + i - offset];
      }
    }
  }

  // ---------- resuming a download ----------

  datatype Response =
    | NotFound
    | Unsatisfiable(total: nat)
    | Partial(body: Bytes, first: nat, last: nat, total: nat)
    | Whole(body: Bytes)

  /**
   * `GET /checkpoint` (edge/src/chat-room.ts:148-174): `range` is the start of a `bytes=N-` header, if there was one.
   */
  function ServeCheckpoint(blob: Option<Bytes>, range: Option<nat>): Response {
    match blob
    case None => NotFound
    case Some(b) =>
      var start := if range.Some? then range.value else 0;
      if range.Some? && range.value >= |b| then Unsatisfiable(|b|)
      else if range.Some? then Partial(Slice(b, start, None), start, |b| - 1, |b|)
      else Whole(Slice(b, 0, None))
  }

  /** The four answers: the header and the body of a part always agree, and a start past the end is refused. */
  lemma ServesExactly(blob: Option<Bytes>, range: Option<nat>)
    ensures var r := ServeCheckpoint(blob, range);
            && (r.NotFound? <==> blob.None?)
            && (r.Unsatisfiable? <==> blob.Some? && range.Some? && range.value >= |blob.value|)
            && (r.Unsatisfiable? ==> r.total == |blob.value|)
            && (r.Whole? <==> blob.Some? && range.None?) && (r.Whole? ==> r.body == blob.value)
            && (r.Partial? ==> r.first == range.value && r.last == |blob.value| - 1 && r.total == |blob.value|
                               && r.body == blob.value[r.first..r.last + 1])
  {
  }

  function BodyOf(r: Response): Bytes {
    if r.Partial? || r.Whole? then r.body else []
  }

  /** What a client holding `have` is served next. */
  function NextBody(blob: Bytes, have: Bytes): Bytes {
    BodyOf(ServeCheckpoint(Some(blob), if have == [] then None else Some(|have|)))
  }

  lemma NextBodyIsTheRest(blob: Bytes, n: nat)
    requires n <= |blob|
    ensures NextBody(blob, blob[..n]) == blob[n..] && blob[..n] + blob[n..] == blob
  {
    if n == 0 {
      assert blob[0..] == blob;
    }
  }

  /**
   * A client that holds `have` and is cut off after `takes[0]`, `takes[1]`, .. bytes, resuming each time, then
   * finishes.
   */
  ghost function Download(blob: Bytes, have: Bytes, takes: seq<nat>): Bytes
    decreases takes
  {
    var body := NextBody(blob, have);
    if takes == [] then have + body
    else Download(blob, have + body[..Min(takes[0], |body|)], takes[1..])
  }

  /** Wherever the connection is cut, and however often, the resumed parts make up the blob. */
  lemma {:induction false} ResumedDownloadIsWhole(blob: Bytes, n: nat, takes: seq<nat>)
    requires n <= |blob|
    ensures Download(blob, blob[..n], takes) == blob
    decreases takes
  {
    NextBodyIsTheRest(blob, n);
    if takes != [] {
      var k := Min(takes[0], |blob[n..]|);
      assert blob[..n] + blob[n..][..k] == blob[..n + k];
      ResumedDownloadIsWhole(blob, n + k, takes[1..]);
    }
  }
}
