/**
 * The chat log (edge/src/chat-log.ts): an append-only log of opaque updates, deduplicated by batch, whose
 * prefix a client-built checkpoint may replace.
 */
module ChatLog {
  import opened Options
  import opened Bytes

  const MAX_ROW_BYTES: nat := 1024 * 1024

  datatype LogRow = LogRow(device: string, batchId: string, bytes: Bytes)

  /** The stored state: rows by sequence number, the counters, and the checkpoint blob with its frontier. */
  datatype Log = Log(
    rows: map<nat, LogRow>, headSeq: nat, seqFloor: nat, checkpointSeq: nat,
    checkpoint: Option<Bytes>, frontier: Option<Bytes>)

  const EMPTY_LOG := Log(map[], 0, 0, 0, None, None)

  datatype AppendOutcome = Appended(seqNo: nat, dup: bool) | TooLarge | EmptyRow

  datatype CheckpointOutcome = Committed(seqFloor: nat, pruned: nat) | FloorRegression | AheadOfHead | EmptyCheckpoint

  ghost predicate Stores(rows: map<nat, LogRow>, n: nat, batchId: string) {
    n in rows && rows[n].batchId == batchId
  }

  /** The row that already carries a batch id. */
  ghost function Existing(rows: map<nat, LogRow>, batchId: string): (n: Option<nat>)
    ensures n.Some? ==> Stores(rows, n.value, batchId)
    ensures n.None? ==> forall m :: !Stores(rows, m, batchId)
  {
    if exists m :: Stores(rows, m, batchId) then
      var m :| Stores(rows, m, batchId); Some(m)
    else None
  }

  ghost function AppendOutcomeOf(log: Log, batchId: string, bytes: Bytes): AppendOutcome {
    if bytes == [] then EmptyRow
    else if |bytes| > MAX_ROW_BYTES then TooLarge
    else match Existing(log.rows, batchId)
      case Some(n) => Appended(n, true)
      case None => Appended(log.headSeq + 1, false)
  }

  ghost function AppendLog(log: Log, device: string, batchId: string, bytes: Bytes): Log {
    match AppendOutcomeOf(log, batchId, bytes)
    case Appended(n, false) => log.(rows := log.rows[n := LogRow(device, batchId, bytes)], headSeq := n)
    case _ => log
  }

  /** The rows a checkpoint up to `covered` leaves. */
  function Kept(rows: map<nat, LogRow>, covered: nat): map<nat, LogRow> {
    map n | n in rows && n > covered :: rows[n]
  }

  function Dropped(rows: map<nat, LogRow>, covered: nat): set<nat> {
    set n | n in rows && n <= covered
  }

  lemma KeptAndDropped(rows: map<nat, LogRow>, covered: nat)
    ensures |rows| == |Kept(rows, covered)| + |Dropped(rows, covered)|
  {
    var kept := Kept(rows, covered);
    assert rows.Keys == kept.Keys + Dropped(rows, covered);
    assert |rows| == |rows.Keys| && |kept| == |kept.Keys|;
  }

  function CommitOutcomeOf(log: Log, covered: nat, bytes: Bytes): CheckpointOutcome {
    if bytes == [] then EmptyCheckpoint
    else if covered < log.seqFloor then FloorRegression
    else if covered > log.headSeq then AheadOfHead
    else Committed(covered, |Dropped(log.rows, covered)|)
  }

  function CommitLog(log: Log, covered: nat, frontier: Bytes, bytes: Bytes): Log {
    if CommitOutcomeOf(log, covered, bytes).Committed? then
      log.(rows := Kept(log.rows, covered), seqFloor := covered, checkpointSeq := covered,
           checkpoint := Some(bytes), frontier := Some(frontier))
    else log
  }

  // ---------- what an append answers and stores ----------

  /** A row of the table already carries the batch. */
  ghost predicate Known(log: Log, batchId: string) {
    exists n :: n in log.rows && log.rows[n].batchId == batchId
  }

  predicate WithinCap(bytes: Bytes) {
    1 <= |bytes| <= MAX_ROW_BYTES
  }

  /**
   * Nothing empty and nothing over the cap is accepted; of the rest a batch still in the table is answered its row's
   * number, and a new one becomes the row after the head, as it came.
   */
  lemma AppendIsExact(log: Log, device: string, batchId: string, bytes: Bytes)
    ensures var outcome, log' := AppendOutcomeOf(log, batchId, bytes), AppendLog(log, device, batchId, bytes);
            && (outcome.EmptyRow? <==> bytes == []) && (outcome.TooLarge? <==> |bytes| > MAX_ROW_BYTES)
            && (WithinCap(bytes) && !Known(log, batchId) ==>
                  && outcome == Appended(log.headSeq + 1, false)
                  && log' == log.(rows := log'.rows, headSeq := log.headSeq + 1)
                  && (forall n :: n in log'.rows <==> n in log.rows || n == log.headSeq + 1)
                  && (forall n :: n in log'.rows ==>
                        log'.rows[n] == if n == log.headSeq + 1 then LogRow(device, batchId, bytes) else log.rows[n]))
            && (WithinCap(bytes) && Known(log, batchId) ==>
                  && outcome.Appended? && outcome.dup
                  && outcome.seqNo in log.rows && log.rows[outcome.seqNo].batchId == batchId)
            && (!WithinCap(bytes) || Known(log, batchId) ==> log' == log)
  {
    if Known(log, batchId) {
      var n :| n in log.rows && log.rows[n].batchId == batchId;
      assert Stores(log.rows, n, batchId);
    } else {
      assert forall n :: !Stores(log.rows, n, batchId);
    }
  }

  // ---------- the invariant ----------

  /**
   * The stored rows are exactly those above the floor, no two carry one batch id, and the checkpoint sits at the
   * floor.
   */
  ghost predicate LogOk(log: Log) {
    && (forall n :: n in log.rows <==> log.seqFloor < n <= log.headSeq)
    && (forall m, n :: m in log.rows && n in log.rows && log.rows[m].batchId == log.rows[n].batchId ==> m == n)
    && (forall n :: n in log.rows ==> 1 <= |log.rows[n].bytes| <= MAX_ROW_BYTES)
    && log.checkpointSeq == log.seqFloor <= log.headSeq
  }

  lemma AppendKeepsLogOk(log: Log, device: string, batchId: string, bytes: Bytes)
    requires LogOk(log)
    ensures LogOk(AppendLog(log, device, batchId, bytes))
  {
    if Existing(log.rows, batchId).None? {
      forall n | n in log.rows ensures log.rows[n].batchId != batchId {
        assert !Stores(log.rows, n, batchId);
      }
    }
  }

  lemma {:induction false} IntervalSize(s: set<nat>, lo: nat, hi: nat)
    requires lo <= hi && forall n :: n in s <==> lo < n <= hi
    ensures |s| == hi - lo
    decreases hi
  {
    if lo == hi {
      assert s == {};
    } else {
      IntervalSize(s - {hi}, lo, hi - 1);
      assert |s| == |s - {hi}| + 1;
    }
  }

  lemma CommitKeepsLogOk(log: Log, covered: nat, frontier: Bytes, bytes: Bytes)
    requires LogOk(log)
    ensures LogOk(CommitLog(log, covered, frontier, bytes))
  {
  }

  /** A commit is accepted exactly inside the floor and the head, and prunes exactly the rows it newly covers. */
  lemma CommitPrunesExactly(log: Log, covered: nat, frontier: Bytes, bytes: Bytes)
    requires LogOk(log) && bytes != []
    ensures var outcome := CommitOutcomeOf(log, covered, bytes);
            && (outcome.Committed? <==> log.seqFloor <= covered <= log.headSeq)
            && (outcome.Committed? ==> outcome.pruned == covered - log.seqFloor)
    ensures var log' := CommitLog(log, covered, frontier, bytes);
            forall n :: n in log'.rows ==> n in log.rows && log'.rows[n] == log.rows[n]
  {
    if log.seqFloor <= covered <= log.headSeq {
      IntervalSize(Dropped(log.rows, covered), log.seqFloor, covered);
    }
  }

  // ---------- runs ----------

  datatype Event =
    | Append(device: string, batchId: string, bytes: Bytes)
    | Commit(covered: nat, frontier: Bytes, bytes: Bytes)

  ghost function Step(log: Log, e: Event): Log {
    match e
    case Append(device, batchId, bytes) => AppendLog(log, device, batchId, bytes)
    case Commit(covered, frontier, bytes) => CommitLog(log, covered, frontier, bytes)
  }

  ghost function Run(log: Log, events: seq<Event>): Log
    decreases events
  {
    if events == [] then log else Run(Step(log, events[0]), events[1..])
  }

  /** The sequence numbers acknowledged for newly stored batches, in order. */
  ghost function FreshAcks(log: Log, events: seq<Event>): seq<nat>
    decreases events
  {
    if events == [] then []
    else
      var rest := FreshAcks(Step(log, events[0]), events[1..]);
      if events[0].Append?
          && AppendOutcomeOf(log, events[0].batchId, events[0].bytes) == Appended(log.headSeq + 1, false)
      then [log.headSeq + 1] + rest else rest
  }

  lemma StepKeepsLogOk(log: Log, e: Event)
    requires LogOk(log)
    ensures LogOk(Step(log, e)) && log.headSeq <= Step(log, e).headSeq && log.seqFloor <= Step(log, e).seqFloor
  {
    match e
    case Append(device, batchId, bytes) => AppendKeepsLogOk(log, device, batchId, bytes);
    case Commit(covered, frontier, bytes) => CommitKeepsLogOk(log, covered, frontier, bytes);
  }

  /** Every run keeps the log well formed, and neither the head nor the floor ever moves back. */
  lemma {:induction false} RunKeepsLogOk(log: Log, events: seq<Event>)
    requires LogOk(log)
    ensures var log' := Run(log, events);
            LogOk(log') && log.headSeq <= log'.headSeq && log.seqFloor <= log'.seqFloor
    decreases events
  {
    if events != [] {
      StepKeepsLogOk(log, events[0]);
      RunKeepsLogOk(Step(log, events[0]), events[1..]);
    }
  }

  /** Fresh acknowledgements are consecutive numbers, across any pruning in between. */
  lemma {:induction false} FreshAcksCountUp(log: Log, events: seq<Event>)
    ensures var acks := FreshAcks(log, events);
            && (forall i :: 0 <= i < |acks| ==> acks[i] == log.headSeq + 1 + i)
            && Run(log, events).headSeq == log.headSeq + |acks|
    decreases events
  {
    if events != [] {
      FreshAcksCountUp(Step(log, events[0]), events[1..]);
    }
  }

  /** A stored row is immutable: it stays, unchanged, until a commit's floor passes it. */
  lemma {:induction false} StoredRowsStay(log: Log, events: seq<Event>, n: nat)
    requires LogOk(log) && n in log.rows
    ensures var log' := Run(log, events);
            && (n in log'.rows <==> log'.seqFloor < n)
            && (n in log'.rows ==> log'.rows[n] == log.rows[n])
    decreases events
  {
    RunKeepsLogOk(log, events);
    if events != [] {
      var next := Step(log, events[0]);
      StepKeepsLogOk(log, events[0]);
      RunKeepsLogOk(next, events[1..]);
      if n in next.rows {
        StoredRowsStay(next, events[1..], n);
      }
    }
  }

  /**
   * A batch once stored at `n` is answered `n`, and changes nothing, on a re-push at any later point exactly while
   * the floor is below `n`: deduplication lasts as long as the row does.
   */
  lemma RepushIsDeduplicatedWhileStored(log: Log, events: seq<Event>, n: nat, device: string, bytes: Bytes)
    requires LogOk(log) && n in log.rows && 1 <= |bytes| <= MAX_ROW_BYTES
    ensures var log' := Run(log, events);
            var batchId := log.rows[n].batchId;
            && (AppendOutcomeOf(log', batchId, bytes) == Appended(n, true) <==> log'.seqFloor < n)
            && (log'.seqFloor < n ==> AppendLog(log', device, batchId, bytes) == log')
  {
    RunKeepsLogOk(log, events);
    StoredRowsStay(log, events, n);
    var log' := Run(log, events);
    if log'.seqFloor < n {
      assert Stores(log'.rows, n, log.rows[n].batchId);
    }
  }

  lemma {:induction false} RunSnoc(log: Log, events: seq<Event>, e: Event)
    ensures Run(log, events + [e]) == Step(Run(log, events), e)
    decreases events
  {
    if events == [] {
      assert [e][1..] == [];
    } else {
      assert (events + [e])[1..] == events[1..] + [e];
      RunSnoc(Step(log, events[0]), events[1..], e);
    }
  }

  /** The state before event `i` of a run from the empty log. */
  ghost function Upto(events: seq<Event>, i: nat): Log
    requires i <= |events|
  {
    Run(EMPTY_LOG, events[..i])
  }

  lemma UptoStep(events: seq<Event>, i: nat)
    requires i < |events|
    ensures Upto(events, i + 1) == Step(Upto(events, i), events[i])
  {
    assert events[..i + 1] == events[..i] + [events[i]];
    RunSnoc(EMPTY_LOG, events[..i], events[i]);
  }

  /** Event `i` commits a checkpoint: it is not empty and covers no less than the floor and no more than the head. */
  ghost predicate CommitsAt(events: seq<Event>, i: nat) {
    && i < |events| && events[i].Commit? && events[i].bytes != []
    && Upto(events, i).seqFloor <= events[i].covered <= Upto(events, i).headSeq
  }

  ghost predicate LastCommit(events: seq<Event>, i: nat, n: nat) {
    i < n && CommitsAt(events, i) && forall j :: i < j < n ==> !CommitsAt(events, j)
  }

  /** The blob, frontier and floor are those of the commit `e`. */
  ghost predicate Holds(log: Log, e: Event) {
    && e.Commit? && log.checkpoint == Some(e.bytes) && log.frontier == Some(e.frontier)
    && log.seqFloor == log.checkpointSeq == e.covered
  }

  /**
   * In every run the stored blob and frontier, each in its own place, and the floor are those of the last commit that
   * was in bounds; before the first one there are none.
   */
  lemma {:induction false} CheckpointIsLastCommitted(events: seq<Event>, n: nat)
    requires n <= |events|
    ensures forall i: nat :: LastCommit(events, i, n) ==> Holds(Upto(events, n), events[i])
    ensures (forall i: nat :: !LastCommit(events, i, n)) ==>
              var log := Upto(events, n);
              log.checkpoint == None && log.frontier == None && log.seqFloor == log.checkpointSeq == 0
    decreases n
  {
    if n > 0 {
      CheckpointIsLastCommitted(events, n - 1);
      UptoStep(events, n - 1);
      forall i: nat ensures LastCommit(events, i, n) <==>
          if i == n - 1 then CommitsAt(events, i) else !CommitsAt(events, n - 1) && LastCommit(events, i, n - 1) {
      }
    } else {
      assert Upto(events, 0) == EMPTY_LOG;
    }
  }

  /** Event `i` appends a new row: within the cap, under a batch that the table does not hold. */
  ghost predicate AppendsAt(events: seq<Event>, i: nat) {
    && i < |events| && events[i].Append? && WithinCap(events[i].bytes)
    && !Known(Upto(events, i), events[i].batchId)
  }

  /** How many of the first `n` events append a new row. */
  ghost function Appends(events: seq<Event>, n: nat): nat
    requires n <= |events|
  {
    if n == 0 then 0 else Appends(events, n - 1) + if AppendsAt(events, n - 1) then 1 else 0
  }

  /**
   * In every run the head counts the new rows within the cap, and each stored row is, byte for byte, the one whose
   * append brought the head to its number.
   */
  lemma {:induction false} RowsAreTheAppends(events: seq<Event>, n: nat, k: nat)
    requires n <= |events|
    ensures Upto(events, n).headSeq == Appends(events, n)
    ensures k in Upto(events, n).rows ==>
              exists i :: 0 <= i < n && AppendsAt(events, i) && Appends(events, i + 1) == k
                          && Upto(events, n).rows[k] == LogRow(events[i].device, events[i].batchId, events[i].bytes)
    decreases n
  {
    if n > 0 {
      var log, e := Upto(events, n - 1), events[n - 1];
      RowsAreTheAppends(events, n - 1, k);
      UptoStep(events, n - 1);
      if e.Append? {
        AppendIsExact(log, e.device, e.batchId, e.bytes);
        if AppendsAt(events, n - 1) && k == log.headSeq + 1 {
          assert Appends(events, n) == k;
        }
      }
    } else {
      assert Upto(events, 0) == EMPTY_LOG;
    }
  }

  // ---------- reading the log ----------

  datatype Entry = Entry(seqNo: nat, row: LogRow)

  predicate Wanted(row: LogRow, exclude: string) {
    exclude == "" || row.device != exclude
  }

  /** The rows from `lo` to the head in order, without those of the excluded device. */
  function RowsFrom(rows: map<nat, LogRow>, lo: nat, head: nat, exclude: string): seq<Entry>
    decreases head + 1 - lo
  {
    if lo > head then []
    else
      (if lo in rows && Wanted(rows[lo], exclude) then [Entry(lo, rows[lo])] else [])
      + RowsFrom(rows, lo + 1, head, exclude)
  }

  /** `SELECT .. WHERE seq > after AND device != exclude ORDER BY seq`. */
  function RowsAfter(log: Log, after: nat, exclude: string): seq<Entry> {
    RowsFrom(log.rows, after + 1, log.headSeq, exclude)
  }

  predicate IsEntryOf(e: Entry, rows: map<nat, LogRow>, lo: nat, head: nat, exclude: string) {
    && lo <= e.seqNo <= head && e.seqNo in rows && e.row == rows[e.seqNo]
    && (exclude == "" || e.row.device != exclude)
  }

  /** Exactly the wanted rows of the range, in strictly increasing order. */
  lemma {:induction false} RowsFromIsExact(rows: map<nat, LogRow>, lo: nat, head: nat, exclude: string)
    ensures var es := RowsFrom(rows, lo, head, exclude);
            && (forall e :: e in es <==> IsEntryOf(e, rows, lo, head, exclude))
            && (forall i, j :: 0 <= i < j < |es| ==> es[i].seqNo < es[j].seqNo)
    decreases head + 1 - lo
  {
    if lo <= head {
      RowsFromIsExact(rows, lo + 1, head, exclude);
      var first := if lo in rows && Wanted(rows[lo], exclude) then [Entry(lo, rows[lo])] else [];
      var rest := RowsFrom(rows, lo + 1, head, exclude);
      assert RowsFrom(rows, lo, head, exclude) == first + rest;
      forall e ensures e in first + rest <==> IsEntryOf(e, rows, lo, head, exclude) {
        assert e in first + rest <==> e in first || e in rest;
        assert e in rest <==> IsEntryOf(e, rows, lo + 1, head, exclude);
        assert e in first <==> e.seqNo == lo && IsEntryOf(e, rows, lo, head, exclude);
      }
      forall i, j | 0 <= i < j < |first + rest| ensures (first + rest)[i].seqNo < (first + rest)[j].seqNo {
        assert (first + rest)[j] == rest[j - |first|] && rest[j - |first|] in rest;
        assert IsEntryOf(rest[j - |first|], rows, lo + 1, head, exclude);
        if i >= |first| {
          assert (first + rest)[i] == rest[i - |first|];
        }
      }
    }
  }

  // ---------- the code ----------

  lemma ReadOneMore(entries: seq<Entry>, rows: map<nat, LogRow>, n: nat, head: nat, exclude: string)
    requires n <= head
    ensures var read := if n in rows && Wanted(rows[n], exclude) then entries + [Entry(n, rows[n])] else entries;
            entries + RowsFrom(rows, n, head, exclude) == read + RowsFrom(rows, n + 1, head, exclude)
  {
  }

  class Store {
    var rows: map<nat, LogRow>
    var headSeq: nat
    var seqFloor: nat
    var checkpointSeq: nat
    var checkpoint: Option<Bytes>
    var frontier: Option<Bytes>

    /** The stored state as one value, `logStats` and the blobs included. */
    function View(): Log
      reads this
    {
      Log(rows, headSeq, seqFloor, checkpointSeq, checkpoint, frontier)
    }

    constructor ()
      ensures View() == EMPTY_LOG && LogOk(View())
    {
      rows, headSeq, seqFloor, checkpointSeq, checkpoint, frontier := map[], 0, 0, 0, None, None;
    }

    /** `SELECT seq FROM rows WHERE batch_id = ?`. */
    method FindBatch(batchId: string) returns (found: Option<nat>)
      requires LogOk(View())
      ensures found == Existing(rows, batchId)
    {
      var todo := rows.Keys;
      while todo != {}
        invariant todo <= rows.Keys
        invariant forall n :: n in rows && n !in todo ==> rows[n].batchId != batchId
      {
        var n :| n in todo;
        if rows[n].batchId == batchId {
          assert Stores(rows, n, batchId);
          return Some(n);
        }
        todo := todo - {n};
      }
      return None;
    }

    method AppendRow(device: string, batchId: string, bytes: Bytes) returns (outcome: AppendOutcome)
      requires LogOk(View())
      modifies this
      ensures LogOk(View())
      ensures outcome == AppendOutcomeOf(old(View()), batchId, bytes)
      ensures View() == AppendLog(old(View()), device, batchId, bytes)
    {
      AppendKeepsLogOk(View(), device, batchId, bytes);
      if bytes == [] {
        return EmptyRow;
      }
      if |bytes| > MAX_ROW_BYTES {
        return TooLarge;
      }
      var existing := FindBatch(batchId);
      if existing.Some? {
        return Appended(existing.value, true);
      }
      var seqNo := headSeq + 1;
      rows := rows[seqNo := LogRow(device, batchId, bytes)];
      headSeq := seqNo;
      outcome := Appended(seqNo, false);
    }

    method CommitCheckpoint(covered: nat, newFrontier: Bytes, bytes: Bytes) returns (outcome: CheckpointOutcome)
      requires LogOk(View())
      modifies this
      ensures LogOk(View())
      ensures outcome == CommitOutcomeOf(old(View()), covered, bytes)
      ensures View() == CommitLog(old(View()), covered, newFrontier, bytes)
    {
      ghost var before := View();
      if bytes == [] {
        return EmptyCheckpoint;
      }
      if covered < seqFloor {
        return FloorRegression;
      }
      if covered > headSeq {
        return AheadOfHead;
      }
      checkpoint, frontier := Some(bytes), Some(newFrontier);
      var count := |rows|;
      rows := map n | n in rows && n > covered :: rows[n];
      var pruned := count - |rows|;
      KeptAndDropped(old(rows), covered);
      seqFloor, checkpointSeq := covered, covered;
      outcome := Committed(covered, pruned);
      assert View() == CommitLog(before, covered, newFrontier, bytes);
      CommitKeepsLogOk(before, covered, newFrontier, bytes);
    }

    /** `rowsAfter`, the cursor loop. */
    method ReadRowsAfter(after: nat, exclude: string) returns (entries: seq<Entry>)
      ensures entries == RowsAfter(View(), after, exclude)
    {
      entries := [];
      ghost var goal := RowsFrom(rows, after + 1, headSeq, exclude);
      var n := after + 1;
      while n <= headSeq
        invariant entries + RowsFrom(rows, n, headSeq, exclude) == goal
      {
        ReadOneMore(entries, rows, n, headSeq, exclude);
        if n in rows && (exclude == "" || rows[n].device != exclude) {
          entries := entries + [Entry(n, rows[n])];
        }
        n := n + 1;
      }
    }
  }
}
