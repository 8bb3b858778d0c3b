/**
 * Pulling the chat log over HTTP (edge/src/chat-room.ts:176-239): one response carries the state frame, rows
 * after the cursor up to a byte cap, and a final marker only when nothing was left out.
 */
module ChatPull {
  import opened Options
  import opened Bytes
  import opened ChatFrames
  import opened ChatLog

  const ROWS_BODY_CAP: nat := 4 * 1024 * 1024

  /** The JSON text of a row frame's header. */
  type RowHeader = Entry -> Bytes

  function RowFrame(e: Entry, header: RowHeader): Bytes {
    Encode(ROW, header(e), e.row.bytes)
  }

  function RowFrames(es: seq<Entry>, header: RowHeader): (frames: seq<Bytes>)
    ensures |frames| == |es|
  {
    seq(|es|, i requires 0 <= i < |es| => RowFrame(es[i], header))
  }

  /** The rows of one response, `used` bytes of the cap being spent already. */
  function Page(rows: seq<Entry>, header: RowHeader, used: nat): seq<Entry>
    decreases rows
  {
    if rows == [] then []
    else
      var used' := used + 4 + |RowFrame(rows[0], header)|;
      if used' > ROWS_BODY_CAP then [] else [rows[0]] + Page(rows[1..], header, used')
  }

  /** The frames of a whole response. */
  function PullFrames(state: Bytes, rows: seq<Entry>, header: RowHeader, done: Bytes): seq<Bytes> {
    var page := Page(rows, header, 0);
    [state] + RowFrames(page, header) + (if |page| < |rows| then [] else [done])
  }

  /** What the row frames of a page take in the body. */
  function PageBytes(es: seq<Entry>, header: RowHeader): nat {
    BodyLength(RowFrames(es, header))
  }

  lemma PageBytesStep(es: seq<Entry>, header: RowHeader)
    requires es != []
    ensures PageBytes(es, header) == 4 + |RowFrame(es[0], header)| + PageBytes(es[1..], header)
  {
    assert RowFrames(es, header)[1..] == RowFrames(es[1..], header);
  }

  /** A page is the longest prefix of the rows whose frames fit the cap. */
  lemma {:induction false} PageIsLongestFit(rows: seq<Entry>, header: RowHeader, used: nat)
    ensures var page := Page(rows, header, used);
            && page <= rows
            && (used <= ROWS_BODY_CAP ==> used + PageBytes(page, header) <= ROWS_BODY_CAP)
            && (|page| < |rows| ==>
                  used + PageBytes(page, header) + 4 + |RowFrame(rows[|page|], header)| > ROWS_BODY_CAP)
    decreases rows
  {
    if rows != [] {
      var used' := used + 4 + |RowFrame(rows[0], header)|;
      if used' <= ROWS_BODY_CAP {
        PageIsLongestFit(rows[1..], header, used');
        var page := Page(rows, header, used);
        assert page[1..] == Page(rows[1..], header, used');
        PageBytesStep(page, header);
      }
    }
  }

  ghost predicate FramesFit(rows: seq<Entry>, header: RowHeader) {
    forall e :: e in rows ==> |header(e)| <= MAX_HEADER_BYTES && |e.row.bytes| <= MAX_ROW_BYTES
  }

  /** With headers inside their own cap, a truncated page still carries at least three rows. */
  lemma TruncatedPagesCarryThreeRows(rows: seq<Entry>, header: RowHeader)
    requires FramesFit(rows, header)
    ensures var page := Page(rows, header, 0); |page| < |rows| ==> |page| >= 3
  {
    var page := Page(rows, header, 0);
    PageIsLongestFit(rows, header, 0);
    if |page| < |rows| {
      assert rows[|page|] in rows;
      assert forall i :: 0 <= i < |page| ==> page[i] in rows;
      if |page| == 1 {
        PageBytesStep(page, header);
      } else if |page| == 2 {
        PageBytesStep(page, header);
        PageBytesStep(page[1..], header);
      }
    }
  }

  // ---------- repeated pulls ----------

  lemma DropPastHead(e: Entry, rest: seq<Entry>, k: nat)
    requires 0 < k <= |rest| + 1
    ensures ([e] + rest)[k..] == rest[k - 1..]
    ensures ([e] + rest)[k - 1] == if k == 1 then e else rest[k - 2]
  {
  }

  /** Entries read from just past entry `k - 1` are the entries from `k` on. */
  lemma {:induction false} RowsPastAnEntry(rows: map<nat, LogRow>, lo: nat, head: nat, exclude: string, k: nat)
    requires 0 < k <= |RowsFrom(rows, lo, head, exclude)|
    ensures var es := RowsFrom(rows, lo, head, exclude);
            && lo <= es[k - 1].seqNo <= head
            && RowsFrom(rows, es[k - 1].seqNo + 1, head, exclude) == es[k..]
    decreases head + 1 - lo
  {
    var es := RowsFrom(rows, lo, head, exclude);
    var rest := RowsFrom(rows, lo + 1, head, exclude);
    if lo in rows && Wanted(rows[lo], exclude) {
      DropPastHead(Entry(lo, rows[lo]), rest, k);
      if k == 1 {
        assert es[0].seqNo == lo && es[1..] == rest;
      } else {
        RowsPastAnEntry(rows, lo + 1, head, exclude, k - 1);
        assert es[k - 1] == rest[k - 2] && es[k..] == rest[k - 1..];
      }
    } else {
      assert es == rest;
      RowsPastAnEntry(rows, lo + 1, head, exclude, k);
    }
  }

  ghost predicate LogFits(log: Log, header: RowHeader) {
    forall n :: n in log.rows ==>
      |header(Entry(n, log.rows[n]))| <= MAX_HEADER_BYTES && |log.rows[n].bytes| <= MAX_ROW_BYTES
  }

  lemma FittingLogsFit(log: Log, header: RowHeader, after: nat, exclude: string)
    requires LogFits(log, header)
    ensures FramesFit(RowsAfter(log, after, exclude), header)
  {
    RowsFromIsExact(log.rows, after + 1, log.headSeq, exclude);
    forall e | e in RowsAfter(log, after, exclude)
      ensures |header(e)| <= MAX_HEADER_BYTES && |e.row.bytes| <= MAX_ROW_BYTES
    {
      assert IsEntryOf(e, log.rows, after + 1, log.headSeq, exclude);
      assert e == Entry(e.seqNo, log.rows[e.seqNo]);
    }
  }

  /** Where the next pull resumes after a truncated page. */
  function NextCursor(page: seq<Entry>): nat
    requires page != []
  {
    page[|page| - 1].seqNo
  }

  lemma PullAdvances(log: Log, header: RowHeader, after: nat, exclude: string)
    requires LogFits(log, header)
    ensures var rows := RowsAfter(log, after, exclude);
            var page := Page(rows, header, 0);
            |page| < |rows| ==>
              && page != [] && after < NextCursor(page) <= log.headSeq
              && RowsAfter(log, NextCursor(page), exclude) == rows[|page|..]
  {
    var rows := RowsAfter(log, after, exclude);
    var page := Page(rows, header, 0);
    FittingLogsFit(log, header, after, exclude);
    TruncatedPagesCarryThreeRows(rows, header);
    PageIsLongestFit(rows, header, 0);
    if |page| < |rows| {
      assert page[|page| - 1] == rows[|page| - 1];
      RowsPastAnEntry(log.rows, after + 1, log.headSeq, exclude, |page|);
    }
  }

  /** All that a client receives by pulling until the final marker, resuming each time at the last row seen. */
  ghost function PullAll(log: Log, header: RowHeader, after: nat, exclude: string): seq<Entry>
    requires LogFits(log, header)
    decreases if after <= log.headSeq then log.headSeq - after else 0
  {
    var rows := RowsAfter(log, after, exclude);
    var page := Page(rows, header, 0);
    PullAdvances(log, header, after, exclude);
    if |page| < |rows| then page + PullAll(log, header, NextCursor(page), exclude) else page
  }

  /** Pagination by truncation: repeated pulls end, and deliver exactly what one unbounded read would. */
  lemma {:induction false} PullsEqualOneRead(log: Log, header: RowHeader, after: nat, exclude: string)
    requires LogFits(log, header)
    ensures PullAll(log, header, after, exclude) == RowsAfter(log, after, exclude)
    decreases if after <= log.headSeq then log.headSeq - after else 0
  {
    var rows := RowsAfter(log, after, exclude);
    var page := Page(rows, header, 0);
    PageIsLongestFit(rows, header, 0);
    PullAdvances(log, header, after, exclude);
    assert page == rows[..|page|];
    if |page| < |rows| {
      PullsEqualOneRead(log, header, NextCursor(page), exclude);
      assert page + rows[|page|..] == rows;
    } else {
      assert page == rows;
    }
  }

  /** What `n` pulls receive, each resumed at the last row seen, whatever the sizes of the rows. */
  ghost function PullTimes(log: Log, header: RowHeader, after: nat, exclude: string, n: nat): seq<Entry>
    decreases n
  {
    if n == 0 then []
    else
      var page := Page(RowsAfter(log, after, exclude), header, 0);
      page + PullTimes(log, header, if page == [] then after else NextCursor(page), exclude, n - 1)
  }

  /** The row's frame alone fits the cap. */
  ghost predicate FitsAlone(e: Entry, header: RowHeader) {
    4 + |RowFrame(e, header)| <= ROWS_BODY_CAP
  }

  /** Resuming after a page leaves the rows behind it. */
  lemma RowsPastAPage(log: Log, header: RowHeader, after: nat, exclude: string)
    ensures var rows, page := RowsAfter(log, after, exclude), Page(RowsAfter(log, after, exclude), header, 0);
            page <= rows && RowsAfter(log, if page == [] then after else NextCursor(page), exclude) == rows[|page|..]
  {
    var rows := RowsAfter(log, after, exclude);
    var page := Page(rows, header, 0);
    PageIsLongestFit(rows, header, 0);
    if page != [] {
      assert page[|page| - 1] == rows[|page| - 1];
      RowsPastAnEntry(log.rows, after + 1, log.headSeq, exclude, |page|);
    }
  }

  lemma {:induction false} FittingRowsArrive(log: Log, header: RowHeader, after: nat, exclude: string, n: nat)
    requires forall e :: e in RowsAfter(log, after, exclude) ==> FitsAlone(e, header)
    requires |RowsAfter(log, after, exclude)| <= n
    ensures PullTimes(log, header, after, exclude, n) == RowsAfter(log, after, exclude)
    decreases n
  {
    if n > 0 {
      var rows := RowsAfter(log, after, exclude);
      var page := Page(rows, header, 0);
      PageIsLongestFit(rows, header, 0);
      RowsPastAPage(log, header, after, exclude);
      if rows != [] {
        assert rows[0] in rows;
        assert page != [];
      }
      FittingRowsArrive(log, header, if page == [] then after else NextCursor(page), exclude, n - 1);
      assert page + rows[|page|..] == rows;
    }
  }

  lemma PageStopsAt(rows: seq<Entry>, header: RowHeader, j: nat)
    requires j < |rows| && !FitsAlone(rows[j], header)
    ensures |Page(rows, header, 0)| <= j
  {
    PageIsLongestFit(rows, header, 0);
    var page := Page(rows, header, 0);
    if |page| > j {
      assert page[j] == rows[j];
      FrameWithinPage(page, header, j);
    }
  }

  lemma {:induction false} FrameWithinPage(es: seq<Entry>, header: RowHeader, j: nat)
    requires j < |es|
    ensures 4 + |RowFrame(es[j], header)| <= PageBytes(es, header)
  {
    PageBytesStep(es, header);
    if j > 0 {
      FrameWithinPage(es[1..], header, j - 1);
    }
  }

  /** No number of pulls gets past a row whose frame alone exceeds the cap. */
  lemma {:induction false} OversizedRowStops(log: Log, header: RowHeader, after: nat, exclude: string, n: nat, j: nat)
    requires j < |RowsAfter(log, after, exclude)| && !FitsAlone(RowsAfter(log, after, exclude)[j], header)
    ensures |PullTimes(log, header, after, exclude, n)| <= j
    decreases n
  {
    if n > 0 {
      var rows := RowsAfter(log, after, exclude);
      var page := Page(rows, header, 0);
      PageStopsAt(rows, header, j);
      RowsPastAPage(log, header, after, exclude);
      OversizedRowStops(log, header, if page == [] then after else NextCursor(page), exclude, n - 1, j - |page|);
    }
  }

  /**
   * Pulling again and again receives everything, sooner or later, if and only if every pending row's frame fits the
   * body cap by itself; when all do, as many pulls as there are rows are enough.
   */
  lemma PullsFinishExactly(log: Log, header: RowHeader, after: nat, exclude: string)
    ensures var rows := RowsAfter(log, after, exclude);
            (exists n :: PullTimes(log, header, after, exclude, n) == rows) <==>
            (forall e :: e in rows ==> FitsAlone(e, header))
  {
    var rows := RowsAfter(log, after, exclude);
    if forall e :: e in rows ==> FitsAlone(e, header) {
      FittingRowsArrive(log, header, after, exclude, |rows|);
    } else {
      var e :| e in rows && !FitsAlone(e, header);
      var j :| 0 <= j < |rows| && rows[j] == e;
      forall n: nat ensures PullTimes(log, header, after, exclude, n) != rows {
        OversizedRowStops(log, header, after, exclude, n, j);
      }
    }
  }

  lemma RowFrameReadsBack(e: Entry, header: RowHeader, isObject: Bytes -> bool)
    requires |header(e)| <= MAX_HEADER_BYTES && |e.row.bytes| <= MAX_ROW_BYTES && isObject(header(e))
    ensures |RowFrame(e, header)| < U32
    ensures Decode(RowFrame(e, header), isObject) == Some(Frame(ROW, header(e), e.row.bytes))
  {
    DecodeEncoded(Frame(ROW, header(e), e.row.bytes), isObject);
  }

  /** What a pull sends, the client reads back: the frames of the body, and from each row frame the row's bytes. */
  lemma PulledRowsReadBack(state: Bytes, rows: seq<Entry>, header: RowHeader, done: Bytes, isObject: Bytes -> bool)
    requires FramesFit(rows, header) && |state| < U32 && |done| < U32
    requires forall e :: e in rows ==> isObject(header(e))
    ensures var page := Page(rows, header, 0);
            && ParseBody(Body(PullFrames(state, rows, header, done))) == PullFrames(state, rows, header, done)
            && forall e :: e in page ==>
                Decode(RowFrame(e, header), isObject) == Some(Frame(ROW, header(e), e.row.bytes))
  {
    var page := Page(rows, header, 0);
    PageIsLongestFit(rows, header, 0);
    forall e | e in page
      ensures |RowFrame(e, header)| < U32
      ensures Decode(RowFrame(e, header), isObject) == Some(Frame(ROW, header(e), e.row.bytes))
    {
      assert e in rows;
      RowFrameReadsBack(e, header, isObject);
    }
    RowFramesAreShort(page, header);
    BodyParsesBack(PullFrames(state, rows, header, done));
  }

  lemma RowFramesAreShort(es: seq<Entry>, header: RowHeader)
    requires forall e :: e in es ==> |RowFrame(e, header)| < U32
    ensures forall f :: f in RowFrames(es, header) ==> |f| < U32
  {
    forall f | f in RowFrames(es, header) ensures |f| < U32 {
      var i :| 0 <= i < |es| && RowFrames(es, header)[i] == f;
      assert es[i] in es;
    }
  }

  // ---------- one whole response ----------

  /** The JSON texts of a response's headers: of the state, of each row, and of the final marker. */
  datatype Texts = Texts(state: Log -> Bytes, row: RowHeader, done: nat -> Bytes)

  /** The first frame: the log's figures, with the checkpoint's frontier as payload. */
  function StateFrame(log: Log, texts: Texts): Bytes {
    Encode(STATE, texts.state(log), if log.frontier.Some? then log.frontier.value else [])
  }

  function DoneFrame(log: Log, texts: Texts): Bytes {
    Encode(ROWS_DONE, texts.done(log.headSeq), [])
  }

  function PullBody(log: Log, after: nat, exclude: string, texts: Texts): Bytes {
    Body(PullFrames(StateFrame(log, texts), RowsAfter(log, after, exclude), texts.row, DoneFrame(log, texts)))
  }

  /** Header texts are within their cap, frames within a length prefix, and the texts of two rows differ. */
  ghost predicate Readable(log: Log, texts: Texts) {
    && |texts.state(log)| <= MAX_HEADER_BYTES && |texts.done(log.headSeq)| <= MAX_HEADER_BYTES
    && |StateFrame(log, texts)| < U32
    && LogFits(log, texts.row)
    && forall m, n :: m in log.rows && n in log.rows && m != n ==>
        texts.row(Entry(m, log.rows[m])) != texts.row(Entry(n, log.rows[n]))
  }

  /** A row to be sent: past the cursor, up to the head, and not of the excluded device. */
  predicate Pending(log: Log, after: nat, exclude: string, n: nat) {
    after < n <= log.headSeq && n in log.rows && (exclude == "" || log.rows[n].device != exclude)
  }

  function FrameOf(log: Log, texts: Texts, n: nat): Bytes
    requires n in log.rows
  {
    RowFrame(Entry(n, log.rows[n]), texts.row)
  }

  /** Every pending row's frame is among the frames. */
  ghost predicate NoneMissing(frames: seq<Bytes>, log: Log, after: nat, exclude: string, texts: Texts) {
    forall n :: Pending(log, after, exclude, n) ==> FrameOf(log, texts, n) in frames
  }

  /**
   * What a parsed response is: the state frame first; after it nothing but pending rows' frames and the final marker;
   * the marker exactly when no pending row is missing, and then as the last frame.
   */
  ghost predicate Answers(frames: seq<Bytes>, log: Log, after: nat, exclude: string, texts: Texts) {
    var done := Encode(ROWS_DONE, texts.done(log.headSeq), []);
    && frames != []
    && frames[0] == Encode(STATE, texts.state(log), if log.frontier.Some? then log.frontier.value else [])
    && (forall i :: 1 <= i < |frames| ==>
          frames[i] == done || exists n :: Pending(log, after, exclude, n) && frames[i] == FrameOf(log, texts, n))
    && (done in frames <==> NoneMissing(frames, log, after, exclude, texts))
    && (done in frames ==> frames[|frames| - 1] == done)
  }

  /** A frame's first byte is its kind, so frames of different kinds differ. */
  lemma KindsDiffer(log: Log, texts: Texts)
    ensures StateFrame(log, texts)[0] == STATE && DoneFrame(log, texts)[0] == ROWS_DONE
    ensures forall e: Entry :: RowFrame(e, texts.row)[0] == ROW
  {
  }

  lemma RowFramesDiffer(log: Log, texts: Texts, m: nat, n: nat)
    requires Readable(log, texts) && m in log.rows && n in log.rows && FrameOf(log, texts, m) == FrameOf(log, texts, n)
    ensures m == n
  {
    RowFrameReadsBack(Entry(m, log.rows[m]), texts.row, _ => true);
    RowFrameReadsBack(Entry(n, log.rows[n]), texts.row, _ => true);
  }

  lemma PendingAreTheRows(log: Log, after: nat, exclude: string)
    ensures forall e :: e in RowsAfter(log, after, exclude) ==>
              Pending(log, after, exclude, e.seqNo) && e == Entry(e.seqNo, log.rows[e.seqNo])
    ensures forall n :: Pending(log, after, exclude, n) ==> Entry(n, log.rows[n]) in RowsAfter(log, after, exclude)
  {
    RowsFromIsExact(log.rows, after + 1, log.headSeq, exclude);
    forall e | e in RowsAfter(log, after, exclude)
      ensures Pending(log, after, exclude, e.seqNo) && e == Entry(e.seqNo, log.rows[e.seqNo])
    {
      assert IsEntryOf(e, log.rows, after + 1, log.headSeq, exclude);
    }
    forall n | Pending(log, after, exclude, n) ensures Entry(n, log.rows[n]) in RowsAfter(log, after, exclude) {
      assert IsEntryOf(Entry(n, log.rows[n]), log.rows, after + 1, log.headSeq, exclude);
    }
  }

  lemma ResponseParses(log: Log, after: nat, exclude: string, texts: Texts)
    requires Readable(log, texts)
    ensures ParseBody(PullBody(log, after, exclude, texts)) ==
            PullFrames(StateFrame(log, texts), RowsAfter(log, after, exclude), texts.row, DoneFrame(log, texts))
  {
    FittingLogsFit(log, texts.row, after, exclude);
    PulledRowsReadBack(StateFrame(log, texts), RowsAfter(log, after, exclude), texts.row, DoneFrame(log, texts),
                       _ => true);
  }

  lemma RowFramesMembers(es: seq<Entry>, header: RowHeader)
    ensures forall f :: f in RowFrames(es, header) <==> exists e :: e in es && f == RowFrame(e, header)
  {
    forall e | e in es ensures RowFrame(e, header) in RowFrames(es, header) {
      var i :| 0 <= i < |es| && es[i] == e;
      assert RowFrames(es, header)[i] == RowFrame(e, header);
    }
  }

  /** The frame of a stored row is none of the frames of other stored rows. */
  lemma OtherRowsFrames(log: Log, texts: Texts, page: seq<Entry>, n: nat)
    requires Readable(log, texts) && n in log.rows
    requires forall e :: e in page ==> e.seqNo in log.rows && e == Entry(e.seqNo, log.rows[e.seqNo]) && e.seqNo != n
    ensures FrameOf(log, texts, n) !in RowFrames(page, texts.row)
  {
    RowFramesMembers(page, texts.row);
    if FrameOf(log, texts, n) in RowFrames(page, texts.row) {
      var e :| e in page && FrameOf(log, texts, n) == RowFrame(e, texts.row);
      RowFramesDiffer(log, texts, n, e.seqNo);
    }
  }

  lemma FirstLeftOut(log: Log, after: nat, exclude: string, page: seq<Entry>)
    requires var rows := RowsAfter(log, after, exclude); page <= rows && |page| < |rows|
    ensures var n := RowsAfter(log, after, exclude)[|page|].seqNo;
            && Pending(log, after, exclude, n)
            && forall e :: e in page ==>
                e.seqNo in log.rows && e == Entry(e.seqNo, log.rows[e.seqNo]) && e.seqNo != n
  {
    var rows := RowsAfter(log, after, exclude);
    PendingAreTheRows(log, after, exclude);
    RowsFromIsExact(log.rows, after + 1, log.headSeq, exclude);
    assert rows == RowsFrom(log.rows, after + 1, log.headSeq, exclude);
    assert rows[|page|] in rows;
    forall e | e in page
      ensures e.seqNo in log.rows && e == Entry(e.seqNo, log.rows[e.seqNo]) && e.seqNo != rows[|page|].seqNo
    {
      var i :| 0 <= i < |page| && page[i] == e;
      assert rows[i] == e && e in rows;
      assert rows[i].seqNo < rows[|page|].seqNo;
    }
  }

  /** A truncated page leaves out a pending row, and its frame is nowhere else. */
  lemma CutPageMisses(log: Log, after: nat, exclude: string, texts: Texts, page: seq<Entry>)
    requires Readable(log, texts)
    requires var rows := RowsAfter(log, after, exclude); page <= rows && |page| < |rows|
    ensures var frames := [StateFrame(log, texts)] + RowFrames(page, texts.row);
            !NoneMissing(frames, log, after, exclude, texts) && DoneFrame(log, texts) !in frames
  {
    var n := RowsAfter(log, after, exclude)[|page|].seqNo;
    FirstLeftOut(log, after, exclude, page);
    OtherRowsFrames(log, texts, page, n);
    KindsDiffer(log, texts);
    RowFramesMembers(page, texts.row);
    assert FrameOf(log, texts, n) != StateFrame(log, texts);
  }

  lemma WholePageMissesNone(log: Log, after: nat, exclude: string, texts: Texts, frames: seq<Bytes>)
    requires forall f :: f in RowFrames(RowsAfter(log, after, exclude), texts.row) ==> f in frames
    ensures NoneMissing(frames, log, after, exclude, texts)
  {
    var rows := RowsAfter(log, after, exclude);
    PendingAreTheRows(log, after, exclude);
    RowFramesMembers(rows, texts.row);
    forall n | Pending(log, after, exclude, n) ensures FrameOf(log, texts, n) in frames {
      assert Entry(n, log.rows[n]) in rows;
    }
  }

  /** The final marker closes a response exactly when every row asked for is in it. */
  lemma ResponseIsExact(log: Log, after: nat, exclude: string, texts: Texts)
    requires Readable(log, texts)
    ensures Answers(ParseBody(PullBody(log, after, exclude, texts)), log, after, exclude, texts)
  {
    var rows := RowsAfter(log, after, exclude);
    var page := Page(rows, texts.row, 0);
    var frames := ParseBody(PullBody(log, after, exclude, texts));
    ResponseParses(log, after, exclude, texts);
    PageIsLongestFit(rows, texts.row, 0);
    PendingAreTheRows(log, after, exclude);
    KindsDiffer(log, texts);
    var sent := RowFrames(page, texts.row);
    forall i | 0 <= i < |sent|
      ensures exists n :: Pending(log, after, exclude, n) && sent[i] == FrameOf(log, texts, n)
    {
      assert page[i] == rows[i] && rows[i] in rows;
      assert Pending(log, after, exclude, rows[i].seqNo) && sent[i] == FrameOf(log, texts, rows[i].seqNo);
    }
    if |page| < |rows| {
      assert frames == [StateFrame(log, texts)] + sent;
      CutPageMisses(log, after, exclude, texts, page);
    } else {
      assert page == rows;
      WholePageMissesNone(log, after, exclude, texts, frames);
      assert frames[|frames| - 1] == DoneFrame(log, texts);
    }
  }

  // ---------- the code ----------

  /** The paging loop: frame after frame until one would pass the cap. */
  method TakePage(rows: seq<Entry>, header: RowHeader) returns (frames: seq<Bytes>, truncated: bool)
    ensures frames == RowFrames(Page(rows, header, 0), header)
    ensures truncated <==> |Page(rows, header, 0)| < |rows|
  {
    frames := [];
    var bodyBytes: nat := 0;
    ghost var page := Page(rows, header, 0);
    for i := 0 to |rows|
      invariant page == rows[..i] + Page(rows[i..], header, bodyBytes)
      invariant frames == RowFrames(rows[..i], header)
    {
      var frame := RowFrame(rows[i], header);
      bodyBytes := bodyBytes + 4 + |frame|;
      if bodyBytes > ROWS_BODY_CAP {
        assert page == rows[..i];
        return frames, true;
      }
      PageStep(rows, header, i, bodyBytes - 4 - |frame|);
      frames := frames + [frame];
    }
    assert page == rows;
    truncated := false;
  }

  lemma PageStep(rows: seq<Entry>, header: RowHeader, i: nat, used: nat)
    requires i < |rows|
    ensures var used' := used + 4 + |RowFrame(rows[i], header)|;
            && RowFrames(rows[..i + 1], header) == RowFrames(rows[..i], header) + [RowFrame(rows[i], header)]
            && (used' <= ROWS_BODY_CAP ==>
                  rows[..i] + Page(rows[i..], header, used) == rows[..i + 1] + Page(rows[i + 1..], header, used'))
  {
    assert rows[i..][1..] == rows[i + 1..];
    assert rows[..i + 1] == rows[..i] + [rows[i]];
    var rest := Page(rows[i + 1..], header, used + 4 + |RowFrame(rows[i], header)|);
    assert rows[..i] + ([rows[i]] + rest) == rows[..i + 1] + rest;
  }

  /**
   * The `GET /rows` handler from its first frame to its body. Read back, the body is the state frame, then frames of
   * pending rows, and the final marker exactly when none of them is missing; the marker is then the last.
   */
  method GetRows(store: Store, after: nat, exclude: string, texts: Texts) returns (body: Bytes)
    ensures body == PullBody(store.View(), after, exclude, texts)
    ensures Readable(store.View(), texts) ==> Answers(ParseBody(body), store.View(), after, exclude, texts)
  {
    var frontier := if store.frontier.Some? then store.frontier.value else [];
    var state := Encode(STATE, texts.state(store.View()), frontier);
    var rows := store.ReadRowsAfter(after, exclude);
    var frames, truncated := TakePage(rows, texts.row);
    frames := [state] + frames;
    if !truncated {
      PageIsLongestFit(rows, texts.row, 0);
      frames := frames + [Encode(ROWS_DONE, texts.done(store.headSeq), [])];
    }
    assert frames == PullFrames(state, rows, texts.row, DoneFrame(store.View(), texts));
    body := BuildBody(frames);
    if Readable(store.View(), texts) {
      ResponseIsExact(store.View(), after, exclude, texts);
    }
  }
}
