/**
 * The chat relay with its clients (edge/src/chat-log.ts, edge/src/chat-room.ts:115-281, and the HTTP pull of
 * crates/sync/src/chat_client.rs): devices commit locally, push, checkpoint and pull pages, in any interleaving.
 * An update is opaque; a document is the set of updates it has imported, so importing is union.
 */
module ChatSync {
  import opened Options
  import opened Bytes
  import opened ChatFrames
  import opened ChatLog
  import opened ChatPull

  type Doc = set<Bytes>

  /**
   * What `GET /rows` answered: counters, the checkpoint's frontier if there is one, a page, and whether it was the
   * last.
   */
  datatype Pull = Pull(
    after: nat, exclude: string, headSeq: nat, checkpointSeq: nat, frontier: Option<Doc>, rows: seq<Entry>, done: bool)

  /** A device's document, the number up to which it claims every row, and a pull in flight. */
  datatype Client = Client(doc: Doc, cursor: nat, inbox: Option<Pull>)

  /** `accepted` remembers every row ever stored. */
  datatype World = World(log: Log, accepted: map<nat, LogRow>, clients: map<string, Client>)

  const START := World(EMPTY_LOG, map[], map[])

  // ---------- what travels ----------

  /** The figures of a state frame that the client uses. */
  datatype Stats = Stats(headSeq: nat, checkpointSeq: nat, hasCheckpoint: bool)

  datatype RowHead = RowHead(seqNo: nat, device: string, batchId: string)

  /**
   * The texts of the server's headers and what a client reads in a text, and the bytes a client makes of a document, as
   * a checkpoint and as its frontier, with what it makes of such bytes.
   */
  datatype Wire = Wire(
    texts: Texts, isObject: Bytes -> bool, readState: Bytes -> Option<Stats>, readRow: Bytes -> Option<RowHead>,
    blobOf: Doc -> Bytes, docOf: Bytes -> Doc, frontierOf: Doc -> Bytes, seenIn: Bytes -> Doc)

  function StatsOf(log: Log): Stats {
    Stats(log.headSeq, log.checkpointSeq, log.checkpoint.Some?)
  }

  function HeadOf(e: Entry): RowHead {
    RowHead(e.seqNo, e.row.device, e.row.batchId)
  }

  /** Headers, checkpoints and frontiers are read as they were written, and no checkpoint is empty. */
  ghost predicate Understood(wire: Wire) {
    && (forall log: Log :: wire.readState(wire.texts.state(log)) == Some(StatsOf(log)))
    && (forall e: Entry :: wire.readRow(wire.texts.row(e)) == Some(HeadOf(e)))
    && (forall log: Log :: wire.isObject(wire.texts.state(log)))
    && (forall e: Entry :: wire.isObject(wire.texts.row(e)))
    && (forall n: nat :: wire.isObject(wire.texts.done(n)))
    && (forall d: Doc :: wire.docOf(wire.blobOf(d)) == d && wire.blobOf(d) != [])
    && (forall d: Doc :: wire.seenIn(wire.frontierOf(d)) == d)
  }

  /** What the stored checkpoint holds. */
  function Content(log: Log, wire: Wire): Doc {
    if log.checkpoint.Some? then wire.docOf(log.checkpoint.value) else {}
  }

  /** The client's loop over the frames of a body; one that does not decode is passed over. */
  function DecodeAll(frames: seq<Bytes>, wire: Wire): seq<Frame> {
    if frames == [] then []
    else
      var f := Decode(frames[0], wire.isObject);
      (if f.Some? then [f.value] else []) + DecodeAll(frames[1..], wire)
  }

  function ReadRows(frames: seq<Frame>, wire: Wire): seq<Entry> {
    if frames == [] then []
    else
      var head := if frames[0].kind == ROW then wire.readRow(frames[0].header) else None;
      (if head.None? then []
       else [Entry(head.value.seqNo, LogRow(head.value.device, head.value.batchId, frames[0].payload))])
      + ReadRows(frames[1..], wire)
  }

  predicate SaysDone(frames: seq<Frame>) {
    exists f :: f in frames && f.kind == ROWS_DONE
  }

  /** What a client makes of the body of an answer: its first frame is the state, the others are rows and the marker. */
  function ReadPull(after: nat, exclude: string, body: Bytes, wire: Wire): Option<Pull> {
    var frames := DecodeAll(ParseBody(body), wire);
    if frames == [] || frames[0].kind != STATE then None
    else match wire.readState(frames[0].header)
      case None => None
      case Some(stats) =>
        Some(Pull(after, exclude, stats.headSeq, stats.checkpointSeq,
                  if stats.hasCheckpoint then Some(wire.seenIn(frames[0].payload)) else None,
                  ReadRows(frames[1..], wire), SaysDone(frames[1..])))
  }

  // ---------- the client's plan ----------

  datatype CatchUp = RowsOnly(after: nat) | CheckpointThenRows(after: nat)

  /** `plan_catch_up` (crates/sync/src/chat_client.rs:189-216). */
  function PlanCatchUp(cursor: nat, p: Pull, contained: bool): CatchUp {
    var cursor := if cursor > p.headSeq then 0 else cursor;
    if p.frontier.None? then RowsOnly(cursor)
    else if contained then RowsOnly(if cursor < p.checkpointSeq then p.checkpointSeq else cursor)
    else CheckpointThenRows(p.checkpointSeq)
  }

  /** The contiguity rule: a row always lands in the document, but the cursor never jumps a gap. */
  function Advance(cursor: nat, n: nat): nat {
    if n > cursor + 1 then cursor else if n > cursor then n else cursor
  }

  function ApplyRow(c: Client, e: Entry): Client {
    c.(doc := c.doc + {e.row.bytes}, cursor := Advance(c.cursor, e.seqNo))
  }

  function ApplyRows(c: Client, rows: seq<Entry>): Client
    decreases rows
  {
    if rows == [] then c else ApplyRows(ApplyRow(c, rows[0]), rows[1..])
  }

  /** Taking a pull: the checkpoint first if its frontier is not contained, then the rows. */
  function TakePull(c: Client, p: Pull, content: Doc): Client {
    var contained := p.frontier.None? || p.frontier.value <= c.doc;
    var plan := PlanCatchUp(p.after, p, contained);
    var doc := if plan.CheckpointThenRows? then c.doc + content else c.doc;
    var cursor := if c.cursor > p.headSeq || c.cursor < plan.after then plan.after else c.cursor;
    ApplyRows(c.(doc := doc, cursor := cursor, inbox := None), p.rows)
  }

  // ---------- steps ----------

  datatype Event =
    | Join(device: string)
    | Commit(device: string, update: Bytes)
    | Push(device: string, batchId: string, bytes: Bytes)
    | Request(device: string, excludeOwn: bool)
    | Receive(device: string)
    | Checkpoint(device: string, covered: nat)

  /**
   * A device pushes what its document holds, and re-pushes a batch unchanged; it checkpoints no more than its
   * cursor covers. What an answer carries must fit its frames.
   */
  ghost predicate Enabled(w: World, e: Event, wire: Wire) {
    match e
    case Join(device) =>
      device !in w.clients && device != "" && forall n :: n in w.accepted ==> w.accepted[n].device != device
    case Commit(device, _) => device in w.clients
    case Push(device, batchId, bytes) =>
      && device in w.clients && bytes in w.clients[device].doc
      && forall n :: Stores(w.log.rows, n, batchId) ==> w.log.rows[n] == LogRow(device, batchId, bytes)
    case Request(device, _) => device in w.clients && Readable(w.log, wire.texts)
    case Receive(device) => device in w.clients && w.clients[device].inbox.Some?
    case Checkpoint(device, covered) => device in w.clients && covered <= w.clients[device].cursor
  }

  /** What an answer says. */
  function AnswerPull(log: Log, after: nat, exclude: string, wire: Wire): Pull {
    var rows := RowsAfter(log, after, exclude);
    var page := Page(rows, wire.texts.row, 0);
    Pull(after, exclude, log.headSeq, log.checkpointSeq,
         if log.checkpoint.None? then None
         else Some(wire.seenIn(if log.frontier.Some? then log.frontier.value else [])),
         page, |page| == |rows|)
  }

  /** What a client reads in the body it is answered with. */
  function Asked(log: Log, after: nat, exclude: string, wire: Wire): Option<Pull> {
    ReadPull(after, exclude, PullBody(log, after, exclude, wire.texts), wire)
  }

  ghost function Step(w: World, e: Event, wire: Wire): World
    requires Enabled(w, e, wire)
  {
    match e
    case Join(device) => w.(clients := w.clients[device := Client({}, 0, None)])
    case Commit(device, update) =>
      var c := w.clients[device];
      w.(clients := w.clients[device := c.(doc := c.doc + {update})])
    case Push(device, batchId, bytes) =>
      var log := AppendLog(w.log, device, batchId, bytes);
      var c := w.clients[device];
      var outcome := AppendOutcomeOf(w.log, batchId, bytes);
      if outcome.Appended? then
        World(log, w.accepted[outcome.seqNo := LogRow(device, batchId, bytes)],
              w.clients[device := c.(cursor := Advance(c.cursor, outcome.seqNo))])
      else w
    case Request(device, excludeOwn) =>
      var c := w.clients[device];
      w.(clients := w.clients[device :=
          c.(inbox := Asked(w.log, c.cursor, if excludeOwn then device else "", wire))])
    case Receive(device) =>
      var c := w.clients[device];
      w.(clients := w.clients[device := TakePull(c, c.inbox.value, Content(w.log, wire))])
    case Checkpoint(device, covered) =>
      var doc := w.clients[device].doc;
      w.(log := CommitLog(w.log, covered, wire.frontierOf(doc), wire.blobOf(doc)))
  }

  ghost predicate EnabledRun(w: World, events: seq<Event>, wire: Wire)
    decreases events
  {
    events != [] ==> Enabled(w, events[0], wire) && EnabledRun(Step(w, events[0], wire), events[1..], wire)
  }

  ghost function Run(w: World, events: seq<Event>, wire: Wire): World
    requires EnabledRun(w, events, wire)
    decreases events
  {
    if events == [] then w else Run(Step(w, events[0], wire), events[1..], wire)
  }

  // ---------- the invariant ----------

  /** The document holds the update accepted under `n`. */
  ghost predicate Knows(doc: Doc, accepted: map<nat, LogRow>, n: nat) {
    n in accepted ==> accepted[n].bytes in doc
  }

  ghost predicate KnowsUpTo(doc: Doc, accepted: map<nat, LogRow>, hi: nat) {
    forall n: nat :: n <= hi ==> Knows(doc, accepted, n)
  }

  ghost predicate ServerInv(w: World, wire: Wire) {
    && LogOk(w.log)
    && (forall n :: n in w.accepted <==> 1 <= n <= w.log.headSeq)
    && (forall n :: n in w.log.rows ==> n in w.accepted && w.log.rows[n] == w.accepted[n])
    && (w.log.checkpoint.None? ==> w.log.seqFloor == 0)
    && (w.log.checkpoint.Some? ==> w.log.frontier.Some? && wire.seenIn(w.log.frontier.value) == Content(w.log, wire))
    && KnowsUpTo(Content(w.log, wire), w.accepted, w.log.seqFloor)
  }

  /** Where the rows of a pull begin: past the cursor it was requested with, and past the floor. */
  function Base(p: Pull): nat {
    if p.after < p.checkpointSeq then p.checkpointSeq else p.after
  }

  /** A pull that leaves out no device carries consecutive rows, up to the head if it is the last. */
  ghost predicate Consecutive(p: Pull) {
    p.exclude == "" ==>
      && (forall i :: 0 <= i < |p.rows| ==> p.rows[i].seqNo == Base(p) + 1 + i)
      && (p.done ==> |p.rows| == p.headSeq - Base(p))
  }

  ghost predicate PullInv(log: Log, accepted: map<nat, LogRow>, device: string, c: Client, p: Pull) {
    && (p.exclude == "" || p.exclude == device)
    && p.after <= p.headSeq <= log.headSeq
    && p.after <= c.cursor
    && Consecutive(p)
    && p.checkpointSeq <= log.seqFloor && p.checkpointSeq <= p.headSeq
    && KnowsUpTo(c.doc, accepted, p.after)
    && (p.frontier.None? ==> p.checkpointSeq == 0)
    && (p.frontier.Some? ==> KnowsUpTo(p.frontier.value, accepted, p.checkpointSeq))
    && RowsOk(accepted, p)
  }

  /** Its rows are accepted ones, and if it is the last none that it is for is missing. */
  ghost predicate RowsOk(accepted: map<nat, LogRow>, p: Pull) {
    && (forall e :: e in p.rows ==> e.seqNo in accepted && e.row == accepted[e.seqNo] && e.seqNo <= p.headSeq)
    && (p.done ==> forall n :: Requested(accepted, p, n) ==> Entry(n, accepted[n]) in p.rows)
  }

  /** An accepted row the pull is for: past what it asked from and past the checkpoint, up to the head, wanted. */
  predicate Requested(accepted: map<nat, LogRow>, p: Pull, n: nat) {
    n in accepted && p.after < n <= p.headSeq && p.checkpointSeq < n && Wanted(accepted[n], p.exclude)
  }

  ghost predicate ClientInv(log: Log, accepted: map<nat, LogRow>, device: string, c: Client) {
    && device != ""
    && c.cursor <= log.headSeq
    && KnowsUpTo(c.doc, accepted, c.cursor)
    && (forall n :: n in accepted && accepted[n].device == device ==> Knows(c.doc, accepted, n))
    && (c.inbox.Some? ==> PullInv(log, accepted, device, c, c.inbox.value))
  }

  ghost predicate Inv(w: World, wire: Wire) {
    && ServerInv(w, wire)
    && forall d :: d in w.clients ==> ClientInv(w.log, w.accepted, d, w.clients[d])
  }

  // ---------- an answer is read as it was meant ----------

  lemma PageRows(rows: seq<Entry>, header: RowHeader)
    ensures var page := Page(rows, header, 0);
            page <= rows && (forall e :: e in page ==> e in rows) && (|page| == |rows| ==> page == rows)
  {
    PageIsLongestFit(rows, header, 0);
  }

  lemma {:induction false} DecodeAllConcat(a: seq<Bytes>, b: seq<Bytes>, wire: Wire)
    ensures DecodeAll(a + b, wire) == DecodeAll(a, wire) + DecodeAll(b, wire)
  {
    if a == [] {
      assert a + b == b;
    } else {
      assert (a + b)[1..] == a[1..] + b;
      DecodeAllConcat(a[1..], b, wire);
    }
  }

  lemma {:induction false} ReadRowsConcat(a: seq<Frame>, b: seq<Frame>, wire: Wire)
    ensures ReadRows(a + b, wire) == ReadRows(a, wire) + ReadRows(b, wire)
  {
    if a == [] {
      assert a + b == b;
    } else {
      assert (a + b)[1..] == a[1..] + b;
      ReadRowsConcat(a[1..], b, wire);
    }
  }

  lemma DecodesAlone(kind: byte, header: Bytes, payload: Bytes, wire: Wire)
    requires KnownType(kind) && |header| <= MAX_HEADER_BYTES && wire.isObject(header)
    ensures DecodeAll([Encode(kind, header, payload)], wire) == [Frame(kind, header, payload)]
  {
    DecodeEncoded(Frame(kind, header, payload), wire.isObject);
    assert [Encode(kind, header, payload)][1..] == [];
  }

  lemma {:induction false} PageReadsBack(page: seq<Entry>, wire: Wire)
    requires Understood(wire) && FramesFit(page, wire.texts.row)
    ensures var frames := DecodeAll(RowFrames(page, wire.texts.row), wire);
            ReadRows(frames, wire) == page && forall f :: f in frames ==> f.kind == ROW
  {
    if page != [] {
      var e := page[0];
      var first, rest := RowFrame(e, wire.texts.row), RowFrames(page[1..], wire.texts.row);
      assert e in page && forall x :: x in page[1..] ==> x in page;
      PageReadsBack(page[1..], wire);
      assert RowFrames(page, wire.texts.row) == [first] + rest;
      DecodeAllConcat([first], rest, wire);
      DecodesAlone(ROW, wire.texts.row(e), e.row.bytes, wire);
      var head := Frame(ROW, wire.texts.row(e), e.row.bytes);
      assert wire.readRow(head.header) == Some(HeadOf(e));
      assert ReadRows([head] + DecodeAll(rest, wire), wire) == [e] + ReadRows(DecodeAll(rest, wire), wire) by {
        assert ([head] + DecodeAll(rest, wire))[1..] == DecodeAll(rest, wire);
      }
    }
  }

  lemma MarkerReadsBack(rows: seq<Frame>, done: Frame, wire: Wire)
    requires done.kind == ROWS_DONE && forall f :: f in rows ==> f.kind == ROW
    ensures ReadRows(rows + [done], wire) == ReadRows(rows, wire)
    ensures SaysDone(rows + [done]) && !SaysDone(rows)
  {
    ReadRowsConcat(rows, [done], wire);
    assert [done][1..] == [];
    assert done in rows + [done];
  }

  lemma BodyDecodes(log: Log, after: nat, exclude: string, wire: Wire)
    requires Understood(wire) && Readable(log, wire.texts)
    ensures var rows := RowsAfter(log, after, exclude);
            var page := Page(rows, wire.texts.row, 0);
            var sent := DecodeAll(RowFrames(page, wire.texts.row), wire);
            var frontier := if log.frontier.Some? then log.frontier.value else [];
            DecodeAll(ParseBody(PullBody(log, after, exclude, wire.texts)), wire) ==
            [Frame(STATE, wire.texts.state(log), frontier)] + sent
            + if |page| < |rows| then [] else [Frame(ROWS_DONE, wire.texts.done(log.headSeq), [])]
  {
    var page := Page(RowsAfter(log, after, exclude), wire.texts.row, 0);
    var sent := RowFrames(page, wire.texts.row);
    var frontier := if log.frontier.Some? then log.frontier.value else [];
    var tail := if |page| < |RowsAfter(log, after, exclude)| then [] else [DoneFrame(log, wire.texts)];
    ResponseParses(log, after, exclude, wire.texts);
    DecodeAllConcat([StateFrame(log, wire.texts)] + sent, tail, wire);
    DecodeAllConcat([StateFrame(log, wire.texts)], sent, wire);
    DecodesAlone(STATE, wire.texts.state(log), frontier, wire);
    DecodesAlone(ROWS_DONE, wire.texts.done(log.headSeq), [], wire);
  }

  /** The rows and the marker behind the state frame. */
  lemma TailReadsBack(rows: seq<Entry>, page: seq<Entry>, done: Frame, wire: Wire)
    requires Understood(wire) && FramesFit(page, wire.texts.row) && done.kind == ROWS_DONE && |page| <= |rows|
    ensures var tail := DecodeAll(RowFrames(page, wire.texts.row), wire) + if |page| < |rows| then [] else [done];
            ReadRows(tail, wire) == page && (SaysDone(tail) <==> |page| == |rows|)
  {
    var sent := DecodeAll(RowFrames(page, wire.texts.row), wire);
    PageReadsBack(page, wire);
    MarkerReadsBack(sent, done, wire);
    assert sent + [] == sent;
  }

  lemma ReadsState(after: nat, exclude: string, body: Bytes, wire: Wire, state: Frame, tail: seq<Frame>, stats: Stats)
    requires DecodeAll(ParseBody(body), wire) == [state] + tail
    requires state.kind == STATE && wire.readState(state.header) == Some(stats)
    ensures ReadPull(after, exclude, body, wire) ==
            Some(Pull(after, exclude, stats.headSeq, stats.checkpointSeq,
                      if stats.hasCheckpoint then Some(wire.seenIn(state.payload)) else None,
                      ReadRows(tail, wire), SaysDone(tail)))
  {
    assert ([state] + tail)[1..] == tail;
  }

  /** What a client reads in the body of an answer is the log's figures, the page, and whether it is the last. */
  lemma AnswerReadsBack(log: Log, after: nat, exclude: string, wire: Wire)
    requires Understood(wire) && Readable(log, wire.texts)
    ensures Asked(log, after, exclude, wire) == Some(AnswerPull(log, after, exclude, wire))
  {
    var rows := RowsAfter(log, after, exclude);
    var page := Page(rows, wire.texts.row, 0);
    var state := Frame(STATE, wire.texts.state(log), if log.frontier.Some? then log.frontier.value else []);
    var done := Frame(ROWS_DONE, wire.texts.done(log.headSeq), []);
    var sent := DecodeAll(RowFrames(page, wire.texts.row), wire);
    var tail := sent + if |page| < |rows| then [] else [done];
    BodyDecodes(log, after, exclude, wire);
    assert [state] + sent + (if |page| < |rows| then [] else [done]) == [state] + tail;
    PageFits(log, after, exclude, wire);
    TailReadsBack(rows, page, done, wire);
    assert wire.readState(state.header) == Some(StatsOf(log));
    ReadsState(after, exclude, PullBody(log, after, exclude, wire.texts), wire, state, tail, StatsOf(log));
  }

  lemma PageFits(log: Log, after: nat, exclude: string, wire: Wire)
    requires Readable(log, wire.texts)
    ensures var rows := RowsAfter(log, after, exclude);
            var page := Page(rows, wire.texts.row, 0);
            |page| <= |rows| && FramesFit(page, wire.texts.row)
  {
    FittingLogsFit(log, wire.texts.row, after, exclude);
    PageRows(RowsAfter(log, after, exclude), wire.texts.row);
  }

  // ---------- each step keeps it ----------

  lemma {:induction false} ApplyRowsKnows(c: Client, rows: seq<Entry>, accepted: map<nat, LogRow>)
    requires KnowsUpTo(c.doc, accepted, c.cursor)
    requires forall e :: e in rows ==> e.seqNo in accepted && e.row == accepted[e.seqNo]
    ensures var c' := ApplyRows(c, rows);
            && KnowsUpTo(c'.doc, accepted, c'.cursor)
            && c.doc <= c'.doc && c'.inbox == c.inbox
            && (forall e :: e in rows ==> e.row.bytes in c'.doc)
    decreases rows
  {
    if rows != [] {
      var next := ApplyRow(c, rows[0]);
      assert rows[0] in rows;
      forall n: nat | n <= next.cursor ensures Knows(next.doc, accepted, n) {
        assert n <= c.cursor ==> Knows(c.doc, accepted, n);
      }
      ApplyRowsKnows(next, rows[1..], accepted);
      assert forall e :: e in rows ==> e == rows[0] || e in rows[1..];
    }
  }

  lemma {:induction false} ApplyRowsBounds(c: Client, rows: seq<Entry>, head: nat)
    requires c.cursor <= head && forall e :: e in rows ==> e.seqNo <= head
    ensures c.cursor <= ApplyRows(c, rows).cursor <= head
    decreases rows
  {
    if rows != [] {
      assert rows[0] in rows;
      ApplyRowsBounds(ApplyRow(c, rows[0]), rows[1..], head);
    }
  }

  /** The document and cursor a pull's plan leaves, before its rows land. */
  function PlannedDoc(c: Client, p: Pull, content: Doc): Doc {
    if p.frontier.Some? && !(p.frontier.value <= c.doc) then c.doc + content else c.doc
  }

  function PlannedCursor(c: Client, p: Pull): nat {
    var after := PlanCatchUp(p.after, p, p.frontier.None? || p.frontier.value <= c.doc).after;
    if c.cursor > p.headSeq || c.cursor < after then after else c.cursor
  }

  lemma PlanIsHonest(w: World, device: string, c: Client, p: Pull, wire: Wire)
    requires ServerInv(w, wire) && ClientInv(w.log, w.accepted, device, c) && c.inbox == Some(p)
    ensures var doc, cursor := PlannedDoc(c, p, Content(w.log, wire)), PlannedCursor(c, p);
            && TakePull(c, p, Content(w.log, wire))
               == ApplyRows(c.(doc := doc, cursor := cursor, inbox := None), p.rows)
            && c.doc <= doc && KnowsUpTo(doc, w.accepted, cursor)
            && KnowsUpTo(doc, w.accepted, p.checkpointSeq)
            && cursor <= w.log.headSeq
  {
    var doc, cursor := PlannedDoc(c, p, Content(w.log, wire)), PlannedCursor(c, p);
    forall n: nat | n <= p.checkpointSeq ensures Knows(doc, w.accepted, n) {
      assert Knows(Content(w.log, wire), w.accepted, n);
      assert p.frontier.Some? ==> Knows(p.frontier.value, w.accepted, n);
      assert p.frontier.None? ==> n == 0;
    }
    forall n: nat | n <= cursor ensures Knows(doc, w.accepted, n) {
      assert n <= c.cursor ==> Knows(c.doc, w.accepted, n);
      assert n <= p.after ==> Knows(c.doc, w.accepted, n);
    }
  }

  /** A pull marked as the last leaves the client with every update accepted up to the head it reported. */
  lemma FinishedPullKnowsAll(w: World, device: string, c: Client, p: Pull, wire: Wire)
    requires ServerInv(w, wire) && ClientInv(w.log, w.accepted, device, c) && c.inbox == Some(p) && p.done
    ensures KnowsUpTo(TakePull(c, p, Content(w.log, wire)).doc, w.accepted, p.headSeq)
  {
    PlanIsHonest(w, device, c, p, wire);
    var doc := PlannedDoc(c, p, Content(w.log, wire));
    var c' := TakePull(c, p, Content(w.log, wire));
    ApplyRowsKnows(c.(doc := doc, cursor := PlannedCursor(c, p), inbox := None), p.rows, w.accepted);
    forall n: nat | n <= p.headSeq ensures Knows(c'.doc, w.accepted, n) {
      if n in w.accepted {
        if n <= p.checkpointSeq {
          assert Knows(doc, w.accepted, n);
        } else if n <= p.after {
          assert Knows(c.doc, w.accepted, n);
        } else if Wanted(w.accepted[n], p.exclude) {
          assert Entry(n, w.accepted[n]) in p.rows;
        } else {
          assert Knows(c.doc, w.accepted, n);
        }
      }
    }
  }

  ghost function PayloadsOf(rows: seq<Entry>): Doc {
    set e | e in rows :: e.row.bytes
  }

  lemma {:induction false} ApplyRowsAdds(c: Client, rows: seq<Entry>)
    ensures ApplyRows(c, rows).doc == c.doc + PayloadsOf(rows)
    decreases rows
  {
    if rows == [] {
      assert PayloadsOf(rows) == {};
    } else {
      ApplyRowsAdds(ApplyRow(c, rows[0]), rows[1..]);
      assert rows == [rows[0]] + rows[1..];
      assert PayloadsOf(rows) == {rows[0].row.bytes} + PayloadsOf(rows[1..]);
    }
  }

  /** A pull adds its rows, and the checkpoint exactly when there is one whose frontier is not yet contained. */
  lemma PullAddsExactly(c: Client, p: Pull, content: Doc)
    ensures TakePull(c, p, content).doc ==
            c.doc + PayloadsOf(p.rows)
            + if p.frontier.Some? && !(p.frontier.value <= c.doc) then content else {}
  {
    var doc := PlannedDoc(c, p, content);
    ApplyRowsAdds(c.(doc := doc, cursor := PlannedCursor(c, p), inbox := None), p.rows);
  }

  /**
   * A cursor past the server's head means that the server has lost its log: the client starts over, from the checkpoint
   * if there is one and else from the beginning.
   */
  lemma LostLogIsReread(c: Client, p: Pull, content: Doc)
    requires p.checkpointSeq <= p.headSeq < c.cursor == p.after && p.rows == []
    ensures TakePull(c, p, content).cursor == if p.frontier.Some? then p.checkpointSeq else 0
  {
  }

  lemma ReceiveKeepsClientInv(w: World, device: string, c: Client, wire: Wire)
    requires ServerInv(w, wire) && ClientInv(w.log, w.accepted, device, c) && c.inbox.Some?
    ensures ClientInv(w.log, w.accepted, device, TakePull(c, c.inbox.value, Content(w.log, wire)))
  {
    var p := c.inbox.value;
    PlanIsHonest(w, device, c, p, wire);
    var planned := c.(doc := PlannedDoc(c, p, Content(w.log, wire)), cursor := PlannedCursor(c, p), inbox := None);
    ApplyRowsKnows(planned, p.rows, w.accepted);
    ApplyRowsBounds(planned, p.rows, w.log.headSeq);
    var c' := TakePull(c, p, Content(w.log, wire));
    forall n | n in w.accepted && w.accepted[n].device == device ensures Knows(c'.doc, w.accepted, n) {
      assert Knows(c.doc, w.accepted, n);
    }
  }

  /** The rows read past a cursor are the accepted ones above both the cursor and the floor. */
  lemma ReadRowsAreAccepted(w: World, after: nat, exclude: string, wire: Wire)
    requires ServerInv(w, wire)
    ensures var rows := RowsAfter(w.log, after, exclude);
            && (forall e :: e in rows ==>
                e.seqNo in w.accepted && e.row == w.accepted[e.seqNo] && e.seqNo <= w.log.headSeq)
            && (forall n :: n in w.accepted && after < n && w.log.seqFloor < n && Wanted(w.accepted[n], exclude) ==>
                  Entry(n, w.accepted[n]) in rows)
  {
    RowsFromIsExact(w.log.rows, after + 1, w.log.headSeq, exclude);
    var rows := RowsAfter(w.log, after, exclude);
    forall e | e in rows ensures e.seqNo in w.accepted && e.row == w.accepted[e.seqNo] && e.seqNo <= w.log.headSeq {
      assert IsEntryOf(e, w.log.rows, after + 1, w.log.headSeq, exclude);
    }
    forall n | n in w.accepted && after < n && w.log.seqFloor < n && Wanted(w.accepted[n], exclude)
      ensures Entry(n, w.accepted[n]) in rows
    {
      assert n in w.log.rows;
      assert IsEntryOf(Entry(n, w.accepted[n]), w.log.rows, after + 1, w.log.headSeq, exclude);
    }
  }

  lemma {:induction false} DenseRows(rows: map<nat, LogRow>, lo: nat, floor: nat, head: nat)
    requires lo > 0 && forall n :: n in rows <==> floor < n <= head
    ensures var es, base := RowsFrom(rows, lo, head, ""), if lo - 1 < floor then floor else lo - 1;
            && |es| == (if base < head then head - base else 0)
            && forall i :: 0 <= i < |es| ==> es[i].seqNo == base + 1 + i
    decreases head + 1 - lo
  {
    if lo <= head {
      DenseRows(rows, lo + 1, floor, head);
    }
  }

  lemma AnswersAreConsecutive(log: Log, after: nat, exclude: string, wire: Wire)
    requires LogOk(log) && after <= log.headSeq
    ensures Consecutive(AnswerPull(log, after, exclude, wire))
  {
    if exclude == "" {
      var rows := RowsAfter(log, after, "");
      var p := AnswerPull(log, after, exclude, wire);
      DenseRows(log.rows, after + 1, log.seqFloor, log.headSeq);
      PageRows(rows, wire.texts.row);
      assert p.rows <= rows && Base(p) == if after < log.seqFloor then log.seqFloor else after;
    }
  }

  lemma AnswerKeepsPullInv(w: World, device: string, c: Client, exclude: string, wire: Wire)
    requires ServerInv(w, wire) && ClientInv(w.log, w.accepted, device, c) && (exclude == "" || exclude == device)
    ensures PullInv(w.log, w.accepted, device, c, AnswerPull(w.log, c.cursor, exclude, wire))
  {
    AnswerRowsAreOk(w, c.cursor, exclude, wire);
    AnswersAreConsecutive(w.log, c.cursor, exclude, wire);
  }

  lemma AnswerRowsAreOk(w: World, after: nat, exclude: string, wire: Wire)
    requires ServerInv(w, wire)
    ensures RowsOk(w.accepted, AnswerPull(w.log, after, exclude, wire))
  {
    PageRows(RowsAfter(w.log, after, exclude), wire.texts.row);
    ReadRowsAreAccepted(w, after, exclude, wire);
  }

  /** Facts about accepted rows survive the acceptance of a newer one. */
  lemma AcceptKeepsClientInv(w: World, w': World, device: string, c: Client, n: nat)
    requires LogOk(w.log) && ClientInv(w.log, w.accepted, device, c)
    requires n == w.log.headSeq + 1 && n !in w.accepted && n in w'.accepted
    requires w'.accepted == w.accepted[n := w'.accepted[n]] && w'.log.headSeq == n && w'.log.seqFloor == w.log.seqFloor
    requires w'.accepted[n].device == device ==> w'.accepted[n].bytes in c.doc
    ensures ClientInv(w'.log, w'.accepted, device, c)
  {
    forall m: nat | m <= w.log.headSeq ensures Knows(c.doc, w'.accepted, m) <==> Knows(c.doc, w.accepted, m) {
    }
    if c.inbox.Some? && c.inbox.value.frontier.Some? {
      var f := c.inbox.value.frontier.value;
      forall m: nat | m <= w.log.headSeq ensures Knows(f, w'.accepted, m) <==> Knows(f, w.accepted, m) {
      }
    }
    forall m | m in w'.accepted && w'.accepted[m].device == device ensures Knows(c.doc, w'.accepted, m) {
      assert m != n ==> Knows(c.doc, w.accepted, m);
    }
  }

  lemma FreshPushKeepsServerInv(w: World, device: string, batchId: string, bytes: Bytes, wire: Wire)
    requires ServerInv(w, wire) && AppendOutcomeOf(w.log, batchId, bytes) == Appended(w.log.headSeq + 1, false)
    ensures var n := w.log.headSeq + 1;
            ServerInv(w.(log := AppendLog(w.log, device, batchId, bytes),
                         accepted := w.accepted[n := LogRow(device, batchId, bytes)]), wire)
  {
    var accepted' := w.accepted[w.log.headSeq + 1 := LogRow(device, batchId, bytes)];
    AppendKeepsLogOk(w.log, device, batchId, bytes);
    forall m: nat | m <= w.log.seqFloor ensures Knows(Content(w.log, wire), accepted', m) {
      assert Knows(Content(w.log, wire), w.accepted, m);
    }
  }

  lemma AdvanceKeepsClientInv(w: World, device: string, c: Client, n: nat)
    requires ClientInv(w.log, w.accepted, device, c) && n <= w.log.headSeq && Knows(c.doc, w.accepted, n)
    ensures ClientInv(w.log, w.accepted, device, c.(cursor := Advance(c.cursor, n)))
  {
    forall m: nat | m <= Advance(c.cursor, n) ensures Knows(c.doc, w.accepted, m) {
      assert m <= c.cursor ==> Knows(c.doc, w.accepted, m);
    }
  }

  lemma FreshPushKeepsInv(w: World, device: string, batchId: string, bytes: Bytes, wire: Wire)
    requires Inv(w, wire) && Enabled(w, Push(device, batchId, bytes), wire)
    requires AppendOutcomeOf(w.log, batchId, bytes) == Appended(w.log.headSeq + 1, false)
    ensures var n, c := w.log.headSeq + 1, w.clients[device];
            Inv(World(AppendLog(w.log, device, batchId, bytes),
                      w.accepted[n := LogRow(device, batchId, bytes)],
                      w.clients[device := c.(cursor := Advance(c.cursor, n))]), wire)
  {
    var n := w.log.headSeq + 1;
    var w' := World(AppendLog(w.log, device, batchId, bytes),
        w.accepted[n := LogRow(device, batchId, bytes)], w.clients);
    FreshPushKeepsServerInv(w, device, batchId, bytes, wire);
    forall d | d in w.clients ensures ClientInv(w'.log, w'.accepted, d, w.clients[d]) {
      AcceptKeepsClientInv(w, w', d, w.clients[d], n);
    }
    AdvanceKeepsClientInv(w', device, w.clients[device], n);
  }

  lemma FreshPushStep(w: World, device: string, batchId: string, bytes: Bytes, wire: Wire)
    requires Enabled(w, Push(device, batchId, bytes), wire)
    requires AppendOutcomeOf(w.log, batchId, bytes) == Appended(w.log.headSeq + 1, false)
    ensures var n, c := w.log.headSeq + 1, w.clients[device];
            Step(w, Push(device, batchId, bytes), wire)
            == World(AppendLog(w.log, device, batchId, bytes),
                     w.accepted[n := LogRow(device, batchId, bytes)],
                     w.clients[device := c.(cursor := Advance(c.cursor, n))])
  {
  }

  lemma RepeatedPushKeepsInv(w: World, device: string, batchId: string, bytes: Bytes, wire: Wire)
    requires Inv(w, wire) && Enabled(w, Push(device, batchId, bytes), wire)
    requires AppendOutcomeOf(w.log, batchId, bytes).Appended? && AppendOutcomeOf(w.log, batchId, bytes).dup
    ensures Inv(Step(w, Push(device, batchId, bytes), wire), wire)
  {
    var n, c := AppendOutcomeOf(w.log, batchId, bytes).seqNo, w.clients[device];
    assert Stores(w.log.rows, n, batchId);
    assert w.log.rows[n] == LogRow(device, batchId, bytes) == w.accepted[n];
    AdvanceKeepsClientInv(w, device, c, n);
    var w' := w.(clients := w.clients[device := c.(cursor := Advance(c.cursor, n))]);
    assert Inv(w', wire);
    assert w.accepted[n := LogRow(device, batchId, bytes)] == w.accepted;
    assert Step(w, Push(device, batchId, bytes), wire) == w';
  }

  lemma PushKeepsInv(w: World, device: string, batchId: string, bytes: Bytes, wire: Wire)
    requires Inv(w, wire) && Enabled(w, Push(device, batchId, bytes), wire)
    ensures Inv(Step(w, Push(device, batchId, bytes), wire), wire)
  {
    var outcome := AppendOutcomeOf(w.log, batchId, bytes);
    if !outcome.Appended? {
      assert Step(w, Push(device, batchId, bytes), wire) == w;
    } else if outcome.dup {
      RepeatedPushKeepsInv(w, device, batchId, bytes, wire);
    } else {
      FreshPushKeepsInv(w, device, batchId, bytes, wire);
      FreshPushStep(w, device, batchId, bytes, wire);
    }
  }

  lemma CheckpointKeepsInv(w: World, e: Event, wire: Wire)
    requires Inv(w, wire) && e.Checkpoint? && Enabled(w, e, wire) && Understood(wire)
    ensures Inv(Step(w, e, wire), wire)
  {
    var w' := Step(w, e, wire);
    var doc := w.clients[e.device].doc;
    CommitKeepsLogOk(w.log, e.covered, wire.frontierOf(doc), wire.blobOf(doc));
    assert ClientInv(w.log, w.accepted, e.device, w.clients[e.device]);
    assert wire.docOf(wire.blobOf(doc)) == doc && wire.seenIn(wire.frontierOf(doc)) == doc;
    forall d | d in w'.clients ensures ClientInv(w'.log, w'.accepted, d, w'.clients[d]) {
      assert ClientInv(w.log, w.accepted, d, w.clients[d]);
    }
  }

  /** A step that only moves one client keeps the invariant if that client keeps its own. */
  lemma OneClientKeepsInv(w: World, device: string, c: Client, wire: Wire)
    requires Inv(w, wire) && ClientInv(w.log, w.accepted, device, c)
    ensures Inv(w.(clients := w.clients[device := c]), wire)
  {
  }

  lemma StepKeepsInv(w: World, e: Event, wire: Wire)
    requires Inv(w, wire) && Enabled(w, e, wire) && Understood(wire)
    ensures Inv(Step(w, e, wire), wire)
  {
    match e
    case Push(device, batchId, bytes) => PushKeepsInv(w, device, batchId, bytes, wire);
    case Checkpoint(_, _) => CheckpointKeepsInv(w, e, wire);
    case Receive(device) =>
      var c := w.clients[device];
      ReceiveKeepsClientInv(w, device, c, wire);
      OneClientKeepsInv(w, device, TakePull(c, c.inbox.value, Content(w.log, wire)), wire);
    case Request(device, excludeOwn) =>
      RequestKeepsInv(w, device, if excludeOwn then device else "", wire);
    case Commit(device, update) =>
      var c := w.clients[device];
      CommitKeepsClientInv(w, device, c, update);
      OneClientKeepsInv(w, device, c.(doc := c.doc + {update}), wire);
    case Join(device) =>
      assert KnowsUpTo({}, w.accepted, 0);
  }

  lemma RequestKeepsInv(w: World, device: string, exclude: string, wire: Wire)
    requires Inv(w, wire) && device in w.clients && (exclude == "" || exclude == device)
    requires Understood(wire) && Readable(w.log, wire.texts)
    ensures var c := w.clients[device];
            Inv(w.(clients := w.clients[device := c.(inbox := Asked(w.log, c.cursor, exclude, wire))]), wire)
  {
    AnswerReadsBack(w.log, w.clients[device].cursor, exclude, wire);
    var c := w.clients[device];
    AnswerKeepsPullInv(w, device, c, exclude, wire);
    OneClientKeepsInv(w, device, c.(inbox := Some(AnswerPull(w.log, c.cursor, exclude, wire))), wire);
  }

  lemma CommitKeepsClientInv(w: World, device: string, c: Client, update: Bytes)
    requires ClientInv(w.log, w.accepted, device, c)
    ensures ClientInv(w.log, w.accepted, device, c.(doc := c.doc + {update}))
  {
    var doc := c.doc + {update};
    forall n | Knows(c.doc, w.accepted, n) ensures Knows(doc, w.accepted, n) {
    }
  }

  lemma {:induction false} RunKeepsInv(w: World, events: seq<Event>, wire: Wire)
    requires Inv(w, wire) && EnabledRun(w, events, wire) && Understood(wire)
    ensures Inv(Run(w, events, wire), wire)
    decreases events
  {
    if events != [] {
      StepKeepsInv(w, events[0], wire);
      RunKeepsInv(Step(w, events[0], wire), events[1..], wire);
    }
  }

  // ---------- the theorems ----------

  /** In every run, each client's document holds every update accepted at or below its cursor. */
  lemma CursorsAreHonest(events: seq<Event>, wire: Wire, device: string, n: nat)
    requires Understood(wire) && EnabledRun(START, events, wire)
    ensures var w := Run(START, events, wire);
            device in w.clients && 1 <= n <= w.clients[device].cursor ==>
              n in w.accepted && w.accepted[n].bytes in w.clients[device].doc
  {
    RunKeepsInv(START, events, wire);
    var w := Run(START, events, wire);
    if device in w.clients && 1 <= n <= w.clients[device].cursor {
      assert ClientInv(w.log, w.accepted, device, w.clients[device]);
      assert Knows(w.clients[device].doc, w.accepted, n);
    }
  }

  /**
   * In every run, each accepted update is still a stored row or inside what the stored checkpoint blob decodes to:
   * pruning loses nothing.
   */
  lemma NothingAcceptedIsLost(events: seq<Event>, wire: Wire, n: nat)
    requires Understood(wire) && EnabledRun(START, events, wire)
    ensures var w := Run(START, events, wire);
            n in w.accepted ==>
              (n in w.log.rows && w.log.rows[n] == w.accepted[n])
              || (n <= w.log.seqFloor && w.log.checkpoint.Some?
                  && w.accepted[n].bytes in wire.docOf(w.log.checkpoint.value))
  {
    RunKeepsInv(START, events, wire);
    var w := Run(START, events, wire);
    if n in w.accepted && n <= w.log.seqFloor {
      assert Knows(Content(w.log, wire), w.accepted, n);
    }
  }

  /**
   * In every run, taking a pull marked as the last, whatever happened since it was requested and whether or not the
   * device's own rows were left out of it, leaves the client with every update accepted up to the head it reported.
   */
  lemma FinishedPullIsComplete(events: seq<Event>, wire: Wire, device: string, n: nat)
    requires Understood(wire) && EnabledRun(START, events, wire)
    ensures var w := Run(START, events, wire);
            Enabled(w, Receive(device), wire) && w.clients[device].inbox.value.done
                && 1 <= n <= w.clients[device].inbox.value.headSeq ==>
              n in w.accepted && w.accepted[n].bytes in Step(w, Receive(device), wire).clients[device].doc
  {
    RunKeepsInv(START, events, wire);
    var w := Run(START, events, wire);
    if Enabled(w, Receive(device), wire) {
      var c := w.clients[device];
      assert ClientInv(w.log, w.accepted, device, c);
      var p := c.inbox.value;
      if p.done && 1 <= n <= p.headSeq {
        FinishedPullKnowsAll(w, device, c, p, wire);
        assert Knows(TakePull(c, p, Content(w.log, wire)).doc, w.accepted, n);
      }
    }
  }

  lemma {:induction false} ConsecutiveRowsAdvance(c: Client, rows: seq<Entry>, base: nat)
    requires base <= c.cursor && forall i :: 0 <= i < |rows| ==> rows[i].seqNo == base + 1 + i
    ensures base + |rows| <= ApplyRows(c, rows).cursor
    decreases rows
  {
    if rows != [] {
      ConsecutiveRowsAdvance(ApplyRow(c, rows[0]), rows[1..], base + 1);
    }
  }

  /** Rows that all lie past a gap leave the cursor where it is. */
  lemma {:induction false} RowsPastAGapHold(c: Client, rows: seq<Entry>)
    requires forall e :: e in rows ==> e.seqNo > c.cursor + 1
    ensures ApplyRows(c, rows).cursor == c.cursor
    decreases rows
  {
    if rows != [] {
      assert rows[0] in rows && forall e :: e in rows[1..] ==> e in rows;
      RowsPastAGapHold(ApplyRow(c, rows[0]), rows[1..]);
    }
  }

  /**
   * The pull's plan starts no later than its rows do: not so when it sets a cursor back below where it had asked
   * from.
   */
  predicate ReachesItsRows(c: Client, p: Pull) {
    c.cursor <= p.headSeq || p.frontier.None? || p.frontier.value <= c.doc || p.after <= p.checkpointSeq
  }

  lemma PlanReachesItsRows(w: World, device: string, c: Client, p: Pull, wire: Wire)
    requires ClientInv(w.log, w.accepted, device, c) && c.inbox == Some(p) && p.done && p.exclude == ""
    ensures p.headSeq <= TakePull(c, p, Content(w.log, wire)).cursor <==> ReachesItsRows(c, p)
  {
    var planned := c.(doc := PlannedDoc(c, p, Content(w.log, wire)), cursor := PlannedCursor(c, p), inbox := None);
    assert TakePull(c, p, Content(w.log, wire)) == ApplyRows(planned, p.rows);
    if ReachesItsRows(c, p) {
      ConsecutiveRowsAdvance(planned, p.rows, Base(p));
    } else {
      assert planned.cursor == p.checkpointSeq < p.after == Base(p);
      forall e | e in p.rows ensures e.seqNo > planned.cursor + 1 {
        var i :| 0 <= i < |p.rows| && p.rows[i] == e;
      }
      RowsPastAGapHold(planned, p.rows);
    }
  }

  /**
   * Such a pull, when it left out no device, also brings the cursor to the reported head, except in one case: an
   * acknowledgement has moved the cursor past that head, the checkpoint is not contained, and the pull had asked from
   * beyond the checkpoint. The plan then sets the cursor back to the checkpoint, below a gap that none of the pull's
   * rows closes.
   */
  lemma FinishedPullCatchesUp(events: seq<Event>, wire: Wire, device: string)
    requires Understood(wire) && EnabledRun(START, events, wire)
    ensures var w := Run(START, events, wire);
            Enabled(w, Receive(device), wire) ==>
              var c, p := w.clients[device], w.clients[device].inbox.value;
              p.done && p.exclude == "" ==>
                (p.headSeq <= Step(w, Receive(device), wire).clients[device].cursor <==>
                 c.cursor <= p.headSeq || p.frontier.None? || p.frontier.value <= c.doc || p.after <= p.checkpointSeq)
  {
    RunKeepsInv(START, events, wire);
    var w := Run(START, events, wire);
    if Enabled(w, Receive(device), wire) {
      var c := w.clients[device];
      var p := c.inbox.value;
      assert ClientInv(w.log, w.accepted, device, c);
      if p.done && p.exclude == "" {
        PlanReachesItsRows(w, device, c, p, wire);
      }
    }
  }

  // ---------- a run in which the cursor is set back ----------

  lemma RunCons(w: World, e: Event, rest: seq<Event>, wire: Wire)
    requires Enabled(w, e, wire) && EnabledRun(Step(w, e, wire), rest, wire)
    ensures EnabledRun(w, [e] + rest, wire)
    ensures Run(w, [e] + rest, wire) == Run(Step(w, e, wire), rest, wire)
  {
    assert ([e] + rest)[1..] == rest;
  }

  const U: Bytes := [1]
  const X: Bytes := [2]
  const ROW_1 := LogRow("a", "b1", U)
  const ROW_2 := LogRow("a", "b2", U)

  /** Device "a" alone, its one update pushed. */
  function Pushed(): World {
    World(Log(map[1 := ROW_1], 1, 0, 0, None, None), map[1 := ROW_1], map["a" := Client({U}, 1, None)])
  }

  /** The log once device "b" has checkpointed an update of its own, covering no row. */
  function CheckpointedLog(rows: map<nat, LogRow>, head: nat, wire: Wire): Log {
    Log(rows, head, 0, 0, Some(wire.blobOf({X})), Some(wire.frontierOf({X})))
  }

  function Checkpointed(inbox: Option<Pull>, wire: Wire): World {
    World(CheckpointedLog(map[1 := ROW_1], 1, wire), map[1 := ROW_1],
          map["a" := Client({U}, 1, inbox), "b" := Client({X}, 0, None)])
  }

  /** "a" has asked from the head, and while the answer travels has pushed once more. */
  function PushedSince(wire: Wire): World {
    World(CheckpointedLog(map[1 := ROW_1, 2 := ROW_2], 2, wire), map[1 := ROW_1, 2 := ROW_2],
          map["a" := Client({U}, 2, Some(AskedAtHead())), "b" := Client({X}, 0, None)])
  }

  function AskedAtHead(): Pull {
    Pull(1, "", 1, 0, Some({X}), [], true)
  }

  lemma FirstPush(wire: Wire)
    ensures var events := [Join("a"), Event.Commit("a", U), Push("a", "b1", U)];
            EnabledRun(START, events, wire) && Run(START, events, wire) == Pushed()
  {
    var none: Doc := {};
    assert none + {U} == {U};
    var w1 := Step(START, Join("a"), wire);
    var w2 := Step(w1, Event.Commit("a", U), wire);
    assert w2 == World(EMPTY_LOG, map[], map["a" := Client({U}, 0, None)]);
    assert Existing(EMPTY_LOG.rows, "b1") == None;
    var w3 := Step(w2, Push("a", "b1", U), wire);
    assert w3 == Pushed();
    RunCons(w2, Push("a", "b1", U), [], wire);
    RunCons(w1, Event.Commit("a", U), [Push("a", "b1", U)], wire);
    RunCons(START, Join("a"), [Event.Commit("a", U), Push("a", "b1", U)], wire);
    assert [Push("a", "b1", U)] + [] == [Push("a", "b1", U)];
    assert [Event.Commit("a", U)] + [Push("a", "b1", U)] == [Event.Commit("a", U), Push("a", "b1", U)];
    assert [Join("a")] + [Event.Commit("a", U), Push("a", "b1", U)] ==
        [Join("a"), Event.Commit("a", U), Push("a", "b1", U)];
  }

  lemma FirstCheckpoint(wire: Wire)
    requires Understood(wire)
    ensures var events := [Join("b"), Event.Commit("b", X), Checkpoint("b", 0)];
            EnabledRun(Pushed(), events, wire) && Run(Pushed(), events, wire) == Checkpointed(None, wire)
  {
    var none: Doc := {};
    assert none + {X} == {X};
    var w1 := Step(Pushed(), Join("b"), wire);
    var w2 := Step(w1, Event.Commit("b", X), wire);
    assert w2.clients == map["a" := Client({U}, 1, None), "b" := Client({X}, 0, None)];
    var w3 := Step(w2, Checkpoint("b", 0), wire);
    assert Kept(w2.log.rows, 0) == w2.log.rows;
    assert wire.docOf(wire.blobOf({X})) == {X};
    assert w3 == Checkpointed(None, wire);
    RunCons(w2, Checkpoint("b", 0), [], wire);
    RunCons(w1, Event.Commit("b", X), [Checkpoint("b", 0)], wire);
    RunCons(Pushed(), Join("b"), [Event.Commit("b", X), Checkpoint("b", 0)], wire);
    assert [Checkpoint("b", 0)] + [] == [Checkpoint("b", 0)];
    assert [Event.Commit("b", X)] + [Checkpoint("b", 0)] == [Event.Commit("b", X), Checkpoint("b", 0)];
    assert [Join("b")] + [Event.Commit("b", X), Checkpoint("b", 0)] ==
        [Join("b"), Event.Commit("b", X), Checkpoint("b", 0)];
  }

  lemma AnswerAtHead(wire: Wire)
    requires Understood(wire) && Readable(Checkpointed(None, wire).log, wire.texts)
    ensures Asked(Checkpointed(None, wire).log, 1, "", wire) == Some(AskedAtHead())
  {
    var log := Checkpointed(None, wire).log;
    assert RowsAfter(log, 1, "") == [];
    assert wire.seenIn(wire.frontierOf({X})) == {X};
    AnswerReadsBack(log, 1, "", wire);
  }

  lemma SecondPush(wire: Wire)
    ensures var w := Checkpointed(Some(AskedAtHead()), wire);
            Enabled(w, Push("a", "b2", U), wire) && Step(w, Push("a", "b2", U), wire) == PushedSince(wire)
  {
    var w := Checkpointed(Some(AskedAtHead()), wire);
    assert Existing(w.log.rows, "b2") == None;
  }

  lemma PushAfterAsking(wire: Wire)
    requires Understood(wire) && Readable(Checkpointed(None, wire).log, wire.texts)
    ensures var events := [Request("a", false), Push("a", "b2", U)];
            EnabledRun(Checkpointed(None, wire), events, wire)
            && Run(Checkpointed(None, wire), events, wire) == PushedSince(wire)
  {
    var w0 := Checkpointed(None, wire);
    AnswerAtHead(wire);
    var w1 := Step(w0, Request("a", false), wire);
    assert w1 == Checkpointed(Some(AskedAtHead()), wire);
    SecondPush(wire);
    RunCons(w1, Push("a", "b2", U), [], wire);
    RunCons(w0, Request("a", false), [Push("a", "b2", U)], wire);
    assert [Push("a", "b2", U)] + [] == [Push("a", "b2", U)];
    assert [Request("a", false)] + [Push("a", "b2", U)] == [Request("a", false), Push("a", "b2", U)];
  }

  lemma {:induction false} RunConcat(w: World, a: seq<Event>, b: seq<Event>, wire: Wire)
    requires EnabledRun(w, a, wire) && EnabledRun(Run(w, a, wire), b, wire)
    ensures EnabledRun(w, a + b, wire) && Run(w, a + b, wire) == Run(Run(w, a, wire), b, wire)
    decreases a
  {
    if a == [] {
      assert a + b == b;
    } else {
      assert (a + b)[1..] == a[1..] + b;
      RunConcat(Step(w, a[0], wire), a[1..], b, wire);
    }
  }

  /** The excepted case does happen: a finished pull that leaves the cursor at 0, below the head of 1 it reported. */
  lemma CursorCanBeSetBack(wire: Wire) returns (events: seq<Event>)
    requires Understood(wire) && Readable(Checkpointed(None, wire).log, wire.texts)
    ensures EnabledRun(START, events, wire)
    ensures var w := Run(START, events, wire);
            && Enabled(w, Receive("a"), wire)
            && var p := w.clients["a"].inbox.value;
               p.done && p.exclude == "" && Step(w, Receive("a"), wire).clients["a"].cursor < p.headSeq
  {
    FirstPush(wire);
    FirstCheckpoint(wire);
    PushAfterAsking(wire);
    var a, b := [Join("a"), Event.Commit("a", U), Push("a", "b1", U)],
        [Join("b"), Event.Commit("b", X), Checkpoint("b", 0)];
    var c := [Request("a", false), Push("a", "b2", U)];
    RunConcat(START, a, b, wire);
    RunConcat(START, a + b, c, wire);
    events := a + b + c;
    assert Run(START, events, wire) == PushedSince(wire);
    assert U[0] != X[0] && X !in {U};
  }
}
