/**
 * Sending and reassembling updates (edge/src/session-room.ts:806-884, 1328-1381): small updates travel in bounded
 * frames, a larger one as a header and numbered fragments that the receiver puts back together.
 */
module Fragments {
  import opened Options
  import opened Bytes

  const FRAGMENT_BYTES: nat := 200_000
  const MAX_REASSEMBLED_BYTES: nat := 32 * 1024 * 1024
  const MAX_FRAGMENT_COUNT: nat := 4096

  datatype Message =
    | DocUpdate(batchId: nat, updates: seq<Bytes>)
    | FragmentHeader(batchId: nat, fragmentCount: nat, totalSize: nat)
    | Fragment(batchId: nat, index: nat, fragment: Bytes)

  // ---------- the sender ----------

  predicate Small(u: Bytes) {
    |u| <= FRAGMENT_BYTES
  }

  /** The frames of small updates, given the batch already open. */
  function SmallBatches(us: seq<Bytes>, batch: seq<Bytes>): seq<seq<Bytes>>
    decreases us
  {
    if us == [] then (if batch == [] then [] else [batch])
    else if !Small(us[0]) then SmallBatches(us[1..], batch)
    else if TotalLength(batch) + |us[0]| > FRAGMENT_BYTES then
      (if batch == [] then [] else [batch]) + SmallBatches(us[1..], [us[0]])
    else SmallBatches(us[1..], batch + [us[0]])
  }

  function Filter(us: seq<Bytes>, small: bool): seq<Bytes> {
    if us == [] then [] else (if Small(us[0]) == small then [us[0]] else []) + Filter(us[1..], small)
  }

  /** One batch id's worth of work: a frame of small updates, or one large update. */
  datatype Job = Frame(updates: seq<Bytes>) | Large(update: Bytes)

  function FrameJobs(batches: seq<seq<Bytes>>): (jobs: seq<Job>)
    ensures |jobs| == |batches|
  {
    seq(|batches|, i requires 0 <= i < |batches| => Frame(batches[i]))
  }

  function LargeJobs(us: seq<Bytes>): (jobs: seq<Job>)
    ensures |jobs| == |us|
  {
    seq(|us|, i requires 0 <= i < |us| => Large(us[i]))
  }

  function JobsOf(us: seq<Bytes>): seq<Job> {
    FrameJobs(SmallBatches(us, [])) + LargeJobs(Filter(us, false))
  }

  function FragmentOf(u: Bytes, id: nat, i: nat): Message
    requires i < PieceCount(|u|, FRAGMENT_BYTES)
  {
    Fragment(id, i, Piece(u, FRAGMENT_BYTES, i))
  }

  function HeaderOf(u: Bytes, id: nat): Message {
    FragmentHeader(id, PieceCount(|u|, FRAGMENT_BYTES), |u|)
  }

  function FragmentsOf(u: Bytes, id: nat): (messages: seq<Message>)
    ensures |messages| == PieceCount(|u|, FRAGMENT_BYTES)
  {
    var n := PieceCount(|u|, FRAGMENT_BYTES);
    seq(n, i requires 0 <= i < n => FragmentOf(u, id, i))
  }

  /** The messages of one job under its batch id. */
  function JobMessages(job: Job, id: nat): seq<Message> {
    match job
    case Frame(updates) => [DocUpdate(id, updates)]
    case Large(u) => [HeaderOf(u, id)] + FragmentsOf(u, id)
  }

  function Flatten<T>(lists: seq<seq<T>>): seq<T> {
    if lists == [] then [] else lists[0] + Flatten(lists[1..])
  }

  lemma {:induction false} FlattenConcat<T>(a: seq<seq<T>>, b: seq<seq<T>>)
    ensures Flatten(a + b) == Flatten(a) + Flatten(b)
  {
    if a == [] {
      assert a + b == b;
    } else {
      assert (a + b)[1..] == a[1..] + b;
      FlattenConcat(a[1..], b);
    }
  }

  lemma FlattenOneMore<T>(head: seq<T>, lists: seq<seq<T>>)
    ensures Flatten([head] + lists) == head + Flatten(lists)
  {
    assert ([head] + lists)[1..] == lists;
  }

  /** The messages of each of the jobs, from batch id `id` on. */
  function Bursts(jobs: seq<Job>, id: nat): (bursts: seq<seq<Message>>)
    ensures |bursts| == |jobs|
  {
    seq(|jobs|, i requires 0 <= i < |jobs| => JobMessages(jobs[i], id + i))
  }

  /** The messages of jobs from `id` on, each job under an id of its own. */
  function Messages(jobs: seq<Job>, id: nat): seq<Message> {
    Flatten(Bursts(jobs, id))
  }

  lemma MessagesConcat(a: seq<Job>, b: seq<Job>, id: nat)
    ensures Messages(a + b, id) == Messages(a, id) + Messages(b, id + |a|)
  {
    assert Bursts(a + b, id) == Bursts(a, id) + Bursts(b, id + |a|);
    FlattenConcat(Bursts(a, id), Bursts(b, id + |a|));
  }

  lemma MessagesOneMore(jobs: seq<Job>, id: nat)
    requires jobs != []
    ensures Messages(jobs, id) == JobMessages(jobs[0], id) + Messages(jobs[1..], id + 1)
  {
    assert Bursts(jobs, id) == [JobMessages(jobs[0], id)] + Bursts(jobs[1..], id + 1);
    FlattenOneMore(JobMessages(jobs[0], id), Bursts(jobs[1..], id + 1));
  }

  /** No frame of small updates is empty or carries more than the fragment size. */
  lemma {:induction false} SmallBatchesAreBounded(us: seq<Bytes>, batch: seq<Bytes>)
    requires TotalLength(batch) <= FRAGMENT_BYTES
    ensures forall b :: b in SmallBatches(us, batch) ==> b != [] && TotalLength(b) <= FRAGMENT_BYTES
    decreases us
  {
    if us == [] {
    } else if !Small(us[0]) {
      SmallBatchesAreBounded(us[1..], batch);
    } else if TotalLength(batch) + |us[0]| > FRAGMENT_BYTES {
      JoinSnoc([], us[0]);
      assert [] + [us[0]] == [us[0]];
      SmallBatchesAreBounded(us[1..], [us[0]]);
    } else {
      JoinSnoc(batch, us[0]);
      SmallBatchesAreBounded(us[1..], batch + [us[0]]);
    }
  }

  /** The frames hold the small updates, all of them and in order. */
  lemma {:induction false} SmallBatchesKeepOrder(us: seq<Bytes>, batch: seq<Bytes>)
    ensures Flatten(SmallBatches(us, batch)) == batch + Filter(us, true)
    decreases us
  {
    if us == [] {
      FlattenOneMore(batch, []);
      assert [batch] + [] == [batch];
    } else {
      var u, tail := us[0], us[1..];
      var smalls := Filter(tail, true);
      if !Small(u) {
        SmallBatchesKeepOrder(tail, batch);
      } else if TotalLength(batch) + |u| > FRAGMENT_BYTES {
        SmallBatchesKeepOrder(tail, [u]);
        FlattenOneMore(batch, SmallBatches(tail, [u]));
        assert [] + SmallBatches(tail, [u]) == SmallBatches(tail, [u]);
      } else {
        SmallBatchesKeepOrder(tail, batch + [u]);
        assert batch + [u] + smalls == batch + ([u] + smalls);
      }
    }
  }

  /** Frame `i` has no room left for the first update of the next one. */
  ghost predicate NoRoomForNext(frames: seq<seq<Bytes>>, i: nat) {
    i + 1 < |frames| ==> frames[i + 1] != [] && TotalLength(frames[i]) + |frames[i + 1][0]| > FRAGMENT_BYTES
  }

  lemma NoRoomShifts(frame: seq<Bytes>, frames: seq<seq<Bytes>>)
    requires forall i: nat :: NoRoomForNext(frames, i)
    requires frames != [] ==> frames[0] != [] && TotalLength(frame) + |frames[0][0]| > FRAGMENT_BYTES
    ensures forall i: nat :: NoRoomForNext([frame] + frames, i)
  {
    forall i: nat ensures NoRoomForNext([frame] + frames, i) {
      if i > 0 {
        assert NoRoomForNext(frames, i - 1);
      }
    }
  }

  /** Frames are filled greedily: no two in a row could have been one. */
  lemma {:induction false} SmallBatchesAreGreedy(us: seq<Bytes>, batch: seq<Bytes>)
    ensures forall i: nat :: NoRoomForNext(SmallBatches(us, batch), i)
    ensures batch != [] ==>
              var frames := SmallBatches(us, batch);
              frames != [] && frames[0] != [] && frames[0][0] == batch[0]
    decreases us
  {
    if us != [] {
      var u, tail := us[0], us[1..];
      if !Small(u) {
        SmallBatchesAreGreedy(tail, batch);
      } else if TotalLength(batch) + |u| > FRAGMENT_BYTES {
        SmallBatchesAreGreedy(tail, [u]);
        var frames := SmallBatches(tail, [u]);
        if batch != [] {
          NoRoomShifts(batch, frames);
        }
      } else {
        SmallBatchesAreGreedy(tail, batch + [u]);
      }
    }
  }

  /** The fragments of a large update: as many as it takes, each of the fragment size but the last. */
  lemma FragmentsAreFull(u: Bytes, id: nat)
    ensures |FragmentsOf(u, id)| == (|u| + 199_999) / 200_000
    ensures forall i :: 0 <= i < |FragmentsOf(u, id)| ==>
        0 <= i * 200_000 < |u|
        && FragmentsOf(u, id)[i] == Fragment(id, i, u[i * 200_000..Min((i + 1) * 200_000, |u|)])
  {
    forall i | 0 <= i < |FragmentsOf(u, id)|
      ensures 0 <= i * 200_000 < |u|
      ensures FragmentsOf(u, id)[i] == Fragment(id, i, u[i * 200_000..Min((i + 1) * 200_000, |u|)])
    {
      PieceBounds(|u|, FRAGMENT_BYTES, i);
    }
  }

  // ---------- the receiver ----------

  datatype Batch = Batch(parts: seq<Option<Bytes>>, received: nat, totalSize: nat)

  /** One socket's open batches, and the updates delivered to the apply path so far. */
  datatype Receiver = Receiver(batches: map<nat, Batch>, delivered: seq<Bytes>)

  const IDLE := Receiver(map[], [])

  predicate Present(parts: seq<Option<Bytes>>) {
    forall i :: 0 <= i < |parts| ==> parts[i].Some?
  }

  function Values(parts: seq<Option<Bytes>>): (values: seq<Bytes>)
    requires Present(parts)
    ensures |values| == |parts|
  {
    seq(|parts|, i requires 0 <= i < |parts| => parts[i].value)
  }

  /** The reassembly buffer: parts set one after another into `totalSize` zeroes; a hole or an overrun throws. */
  function Assemble(parts: seq<Option<Bytes>>, totalSize: nat): Option<Bytes> {
    if !Present(parts) || TotalLength(Values(parts)) > totalSize then None
    else Some(Join(Values(parts)) + seq(totalSize - TotalLength(Values(parts)), _ => 0))
  }

  /** Assignment to a list element; one past the end leaves holes in between. */
  function SetPart(parts: seq<Option<Bytes>>, index: nat, fragment: Bytes): seq<Option<Bytes>> {
    if index < |parts| then parts[index := Some(fragment)]
    else parts + seq(index - |parts|, _ => None) + [Some(fragment)]
  }

  function OnHeader(r: Receiver, id: nat, count: nat, totalSize: nat): Receiver {
    if totalSize > MAX_REASSEMBLED_BYTES || count > MAX_FRAGMENT_COUNT then r
    else r.(batches := r.batches[id := Batch(seq(count, _ => Some([])), 0, totalSize)])
  }

  function OnFragment(r: Receiver, id: nat, index: nat, fragment: Bytes): Receiver {
    if id !in r.batches then r
    else
      var b := r.batches[id];
      var b' := b.(parts := SetPart(b.parts, index, fragment), received := b.received + 1);
      if b'.received < |b'.parts| then r.(batches := r.batches[id := b'])
      else
        var total := Assemble(b'.parts, b'.totalSize);
        Receiver(r.batches - {id}, r.delivered + if total.Some? then [total.value] else [])
  }

  function OnMessage(r: Receiver, m: Message): Receiver {
    match m
    case DocUpdate(_, updates) => r.(delivered := r.delivered + updates)
    case FragmentHeader(id, count, totalSize) => OnHeader(r, id, count, totalSize)
    case Fragment(id, index, fragment) => OnFragment(r, id, index, fragment)
  }

  function OnMessages(r: Receiver, ms: seq<Message>): Receiver
    decreases ms
  {
    if ms == [] then r else OnMessages(OnMessage(r, ms[0]), ms[1..])
  }

  lemma {:induction false} OnMessagesSnoc(r: Receiver, ms: seq<Message>, m: Message)
    ensures OnMessages(r, ms + [m]) == OnMessage(OnMessages(r, ms), m)
    decreases ms
  {
    if ms == [] {
      assert [m][1..] == [];
    } else {
      assert (ms + [m])[1..] == ms[1..] + [m];
      OnMessagesSnoc(OnMessage(r, ms[0]), ms[1..], m);
    }
  }

  // ---------- what a genuine message is ----------

  ghost predicate Genuine(jobs: seq<Job>, m: Message) {
    && m.batchId < |jobs|
    && match jobs[m.batchId]
       case Frame(updates) => m == DocUpdate(m.batchId, updates)
       case Large(u) => m == HeaderOf(u, m.batchId)
                        || (m.Fragment? && m.index < PieceCount(|u|, FRAGMENT_BYTES)
                            && m == FragmentOf(u, m.batchId, m.index))
  }

  /** Only an update above the fragment size is sent as a large one, so none of these is empty. */
  ghost predicate Sendable(jobs: seq<Job>) {
    forall id :: 0 <= id < |jobs| && jobs[id].Large? ==> !Small(jobs[id].update)
  }

  ghost predicate NoRepeats<T>(s: seq<T>) {
    forall i, j :: 0 <= i < j < |s| ==> s[i] != s[j]
  }

  /** Every message of the jobs arrives exactly once, each header before its own fragments. */
  ghost predicate ArrivesOnce(p: seq<Message>, jobs: seq<Job>) {
    && NoRepeats(p)
    && (forall m :: m in p <==> Genuine(jobs, m))
    && HeadersFirst(p)
  }

  predicate HeaderOfFragment(h: Message, m: Message) {
    m.Fragment? && h.FragmentHeader? && m.batchId == h.batchId
  }

  ghost predicate HeadersFirst(p: seq<Message>) {
    forall i, j :: 0 <= i < |p| && 0 <= j < |p| && HeaderOfFragment(p[j], p[i]) ==> j < i
  }

  // ---------- the receiver's invariant ----------

  function Fits(u: Bytes): bool {
    |u| <= MAX_REASSEMBLED_BYTES
  }

  ghost function SeenPieces(u: Bytes, id: nat, seen: set<Message>): set<nat> {
    set i | 0 <= i < PieceCount(|u|, FRAGMENT_BYTES) && FragmentOf(u, id, i) in seen
  }

  ghost predicate BatchOk(u: Bytes, id: nat, b: Batch, seen: set<Message>) {
    && |b.parts| == PieceCount(|u|, FRAGMENT_BYTES)
    && b.totalSize == |u|
    && b.received == |SeenPieces(u, id, seen)|
    && forall i :: 0 <= i < |b.parts| ==>
        b.parts[i] == Some(if i in SeenPieces(u, id, seen) then Piece(u, FRAGMENT_BYTES, i) else [])
  }

  /** Where job `id` stands once the messages `seen` have arrived; `done` lists the finished jobs. */
  ghost predicate JobInv(job: Job, id: nat, batches: map<nat, Batch>, seen: set<Message>, done: seq<nat>) {
    match job
    case Frame(updates) => id !in batches && (id in done <==> DocUpdate(id, updates) in seen)
    case Large(u) =>
      if !Fits(u) then id !in batches && id !in done
      else if HeaderOf(u, id) !in seen then id !in batches && id !in done && SeenPieces(u, id, seen) == {}
      else if |SeenPieces(u, id, seen)| < PieceCount(|u|, FRAGMENT_BYTES) then
        id in batches && id !in done && BatchOk(u, id, batches[id], seen)
      else id !in batches && id in done
  }

  function Yield(job: Job): seq<Bytes> {
    match job
    case Frame(updates) => updates
    case Large(u) => [u]
  }

  function YieldAt(jobs: seq<Job>, id: nat): seq<Bytes> {
    if id < |jobs| then Yield(jobs[id]) else []
  }

  /** What the jobs in `done` deliver, in that order. */
  function Yields(jobs: seq<Job>, done: seq<nat>): seq<Bytes> {
    if done == [] then [] else YieldAt(jobs, done[0]) + Yields(jobs, done[1..])
  }

  lemma {:induction false} YieldsConcat(jobs: seq<Job>, a: seq<nat>, b: seq<nat>)
    ensures Yields(jobs, a + b) == Yields(jobs, a) + Yields(jobs, b)
  {
    if a == [] {
      assert a + b == b;
    } else {
      assert (a + b)[1..] == a[1..] + b;
      YieldsConcat(jobs, a[1..], b);
    }
  }

  ghost predicate Inv(jobs: seq<Job>, r: Receiver, seen: set<Message>, done: seq<nat>) {
    && Sendable(jobs)
    && NoRepeats(done)
    && (forall id :: id in done ==> id < |jobs|)
    && (forall id :: 0 <= id < |jobs| ==> JobInv(jobs[id], id, r.batches, seen, done))
    && r.delivered == Yields(jobs, done)
  }

  lemma OtherJobsUnmoved(jobs: seq<Job>, r: Receiver, r': Receiver, seen: set<Message>, m: Message, done: seq<nat>,
      done': seq<nat>, id: nat)
    requires id < |jobs| && id != m.batchId && JobInv(jobs[id], id, r.batches, seen, done)
    requires id in done <==> id in done'
    requires id in r.batches <==> id in r'.batches
    requires id in r.batches ==> r'.batches[id] == r.batches[id]
    ensures JobInv(jobs[id], id, r'.batches, seen + {m}, done')
  {
    if jobs[id].Large? {
      assert SeenPieces(jobs[id].update, id, seen + {m}) == SeenPieces(jobs[id].update, id, seen);
    }
  }

  lemma FinishKeepsInv(jobs: seq<Job>, r: Receiver, r': Receiver, seen: set<Message>, m: Message, done: seq<nat>)
    requires Inv(jobs, r, seen, done) && m.batchId < |jobs| && m.batchId !in done
    requires r' == Receiver(r.batches - {m.batchId}, r.delivered + Yield(jobs[m.batchId]))
    requires JobInv(jobs[m.batchId], m.batchId, r'.batches, seen + {m}, done + [m.batchId])
    ensures Inv(jobs, r', seen + {m}, done + [m.batchId])
  {
    var id := m.batchId;
    YieldsConcat(jobs, done, [id]);
    forall j | 0 <= j < |jobs| ensures JobInv(jobs[j], j, r'.batches, seen + {m}, done + [id]) {
      if j != id {
        OtherJobsUnmoved(jobs, r, r', seen, m, done, done + [id], j);
      }
    }
  }

  lemma ContinueKeepsInv(jobs: seq<Job>, r: Receiver, r': Receiver, seen: set<Message>, m: Message, done: seq<nat>)
    requires Inv(jobs, r, seen, done) && m.batchId < |jobs|
    requires r'.delivered == r.delivered && r'.batches - {m.batchId} == r.batches - {m.batchId}
    requires JobInv(jobs[m.batchId], m.batchId, r'.batches, seen + {m}, done)
    ensures Inv(jobs, r', seen + {m}, done)
  {
    forall j | 0 <= j < |jobs| ensures JobInv(jobs[j], j, r'.batches, seen + {m}, done) {
      if j != m.batchId {
        assert j in r.batches <==> j in r.batches - {m.batchId};
        assert j in r'.batches <==> j in r'.batches - {m.batchId};
        assert j in r.batches ==> (r.batches - {m.batchId})[j] == (r'.batches - {m.batchId})[j];
        OtherJobsUnmoved(jobs, r, r', seen, m, done, done, j);
      }
    }
  }

  lemma FrameStep(jobs: seq<Job>, r: Receiver, seen: set<Message>, m: Message, done: seq<nat>)
    requires Inv(jobs, r, seen, done) && Genuine(jobs, m) && m !in seen && m.DocUpdate?
    ensures Inv(jobs, OnMessage(r, m), seen + {m}, done + [m.batchId])
  {
    assert JobInv(jobs[m.batchId], m.batchId, r.batches, seen, done);
    assert r.batches - {m.batchId} == r.batches;
    FinishKeepsInv(jobs, r, OnMessage(r, m), seen, m, done);
  }

  lemma HeaderStep(jobs: seq<Job>, r: Receiver, seen: set<Message>, m: Message, done: seq<nat>)
    requires Inv(jobs, r, seen, done) && Genuine(jobs, m) && m !in seen && m.FragmentHeader?
    ensures Inv(jobs, OnMessage(r, m), seen + {m}, done)
  {
    var id, u := m.batchId, jobs[m.batchId].update;
    var r' := OnMessage(r, m);
    assert JobInv(jobs[id], id, r.batches, seen, done);
    assert SeenPieces(u, id, seen + {m}) == SeenPieces(u, id, seen);
    PieceCountBounds(u);
    ContinueKeepsInv(jobs, r, r', seen, m, done);
  }

  lemma PieceCountBounds(u: Bytes)
    ensures Fits(u) ==> PieceCount(|u|, FRAGMENT_BYTES) <= MAX_FRAGMENT_COUNT
    ensures u != [] ==> PieceCount(|u|, FRAGMENT_BYTES) > 0
  {
  }

  lemma {:induction false} FullSetSize(s: set<nat>, n: nat)
    requires forall i :: i in s ==> i < n
    ensures |s| <= n && (|s| == n <==> forall i :: 0 <= i < n ==> i in s)
    decreases n
  {
    if n == 0 {
      assert s == {};
    } else {
      var t := s - {n - 1};
      FullSetSize(t, n - 1);
      assert n - 1 in s ==> s == t + {n - 1};
      assert n - 1 !in s ==> s == t;
      assert forall i :: i in t <==> i in s && i != n - 1;
    }
  }

  lemma CompletePartsAssemble(u: Bytes, parts: seq<Option<Bytes>>)
    requires |parts| == PieceCount(|u|, FRAGMENT_BYTES)
    requires forall i :: 0 <= i < |parts| ==> parts[i] == Some(Piece(u, FRAGMENT_BYTES, i))
    ensures Assemble(parts, |u|) == Some(u)
  {
    assert Values(parts) == Pieces(u, FRAGMENT_BYTES);
    PiecesJoin(u, FRAGMENT_BYTES);
    JoinLength(Values(parts));
    assert TotalLength(Values(parts)) == |u|;
    assert u + seq(|u| - TotalLength(Values(parts)), _ => 0) == u;
  }

  lemma SeenOneMore(u: Bytes, id: nat, seen: set<Message>, i: nat)
    requires i < PieceCount(|u|, FRAGMENT_BYTES) && FragmentOf(u, id, i) !in seen
    ensures i !in SeenPieces(u, id, seen)
    ensures SeenPieces(u, id, seen + {FragmentOf(u, id, i)}) == SeenPieces(u, id, seen) + {i}
    ensures |SeenPieces(u, id, seen + {FragmentOf(u, id, i)})| == |SeenPieces(u, id, seen)| + 1
  {
    assert SeenPieces(u, id, seen + {FragmentOf(u, id, i)}) == SeenPieces(u, id, seen) + {i};
  }

  lemma FragmentUpdatesBatch(u: Bytes, id: nat, b: Batch, seen: set<Message>, i: nat, b': Batch)
    requires i < PieceCount(|u|, FRAGMENT_BYTES) && FragmentOf(u, id, i) !in seen && BatchOk(u, id, b, seen)
    requires b' == b.(parts := b.parts[i := Some(Piece(u, FRAGMENT_BYTES, i))], received := b.received + 1)
    ensures BatchOk(u, id, b', seen + {FragmentOf(u, id, i)})
  {
    var before, after := SeenPieces(u, id, seen), SeenPieces(u, id, seen + {FragmentOf(u, id, i)});
    SeenOneMore(u, id, seen, i);
    forall j | 0 <= j < |b'.parts| ensures b'.parts[j] == Some(if j in after then Piece(u, FRAGMENT_BYTES, j) else []) {
      assert j in after <==> j in before || j == i;
    }
  }

  /** A fragment of a batch in progress: it lands in its slot, and the last one delivers the update byte for byte. */
  lemma FragmentStep(jobs: seq<Job>, r: Receiver, seen: set<Message>, m: Message, done: seq<nat>)
    requires Inv(jobs, r, seen, done) && Genuine(jobs, m) && m !in seen && m.Fragment?
    requires Fits(jobs[m.batchId].update) ==> HeaderOf(jobs[m.batchId].update, m.batchId) in seen
    ensures Inv(jobs, OnMessage(r, m), seen + {m}, done) || Inv(jobs, OnMessage(r, m), seen + {m}, done + [m.batchId])
  {
    var id, u := m.batchId, jobs[m.batchId].update;
    var n := PieceCount(|u|, FRAGMENT_BYTES);
    var r' := OnMessage(r, m);
    assert JobInv(jobs[id], id, r.batches, seen, done);
    if !Fits(u) {
      ContinueKeepsInv(jobs, r, r', seen, m, done);
    } else {
      FullSetSize(SeenPieces(u, id, seen), n);
      assert m.index !in SeenPieces(u, id, seen);
      var b := r.batches[id];
      var b' := b.(parts := SetPart(b.parts, m.index, m.fragment), received := b.received + 1);
      FragmentUpdatesBatch(u, id, b, seen, m.index, b');
      SeenOneMore(u, id, seen, m.index);
      FullSetSize(SeenPieces(u, id, seen + {m}), n);
      if b'.received < n {
        ContinueKeepsInv(jobs, r, r', seen, m, done);
      } else {
        CompletePartsAssemble(u, b'.parts);
        FinishKeepsInv(jobs, r, r', seen, m, done);
      }
    }
  }

  // ---------- the whole trace ----------

  ghost function SeenAfter(p: seq<Message>, k: nat): set<Message>
    requires k <= |p|
  {
    set m | m in p[..k]
  }

  lemma {:induction false} TraceKeepsInv(jobs: seq<Job>, p: seq<Message>, k: nat) returns (done: seq<nat>)
    requires Sendable(jobs) && ArrivesOnce(p, jobs) && k <= |p|
    ensures Inv(jobs, OnMessages(IDLE, p[..k]), SeenAfter(p, k), done)
    decreases k
  {
    if k == 0 {
      done := [];
      StartInv(jobs);
      assert SeenAfter(p, 0) == {};
    } else {
      done := TraceKeepsInv(jobs, p, k - 1);
      var m, r, seen := p[k - 1], OnMessages(IDLE, p[..k - 1]), SeenAfter(p, k - 1);
      assert p[..k] == p[..k - 1] + [m];
      OnMessagesSnoc(IDLE, p[..k - 1], m);
      assert SeenAfter(p, k) == seen + {m};
      assert m !in seen && m in p;
      match m
      case DocUpdate(id, _) =>
        FrameStep(jobs, r, seen, m, done);
        done := done + [id];
      case FragmentHeader(_, _, _) =>
        HeaderStep(jobs, r, seen, m, done);
      case Fragment(id, _, _) =>
        var h := HeaderOf(jobs[id].update, id);
        assert Genuine(jobs, h) && h in p;
        var j :| 0 <= j < |p| && p[j] == h;
        assert j < k - 1 && p[..k - 1][j] == h;
        FragmentStep(jobs, r, seen, m, done);
        if !Inv(jobs, OnMessage(r, m), seen + {m}, done) {
          done := done + [id];
        }
    }
  }

  lemma StartInv(jobs: seq<Job>)
    requires Sendable(jobs)
    ensures Inv(jobs, IDLE, {}, [])
  {
    forall id | 0 <= id < |jobs| ensures JobInv(jobs[id], id, map[], {}, []) {
      if jobs[id].Large? {
        assert SeenPieces(jobs[id].update, id, {}) == {};
      }
    }
  }

  // ---------- what the finished jobs deliver ----------

  predicate Finishes(job: Job) {
    job.Frame? || Fits(job.update)
  }

  /** What the first jobs deliver when each runs to its end in turn. */
  function Expected(jobs: seq<Job>): seq<Bytes> {
    if jobs == [] then [] else (if Finishes(jobs[0]) then Yield(jobs[0]) else []) + Expected(jobs[1..])
  }

  lemma {:induction false} ExpectedConcat(a: seq<Job>, b: seq<Job>)
    ensures Expected(a + b) == Expected(a) + Expected(b)
  {
    if a == [] {
      assert a + b == b;
    } else {
      assert (a + b)[1..] == a[1..] + b;
      ExpectedConcat(a[1..], b);
    }
  }

  function CopiesIn(us: seq<Bytes>, u: Bytes): nat {
    multiset(us)[u]
  }

  lemma CopiesConcat(a: seq<Bytes>, b: seq<Bytes>, u: Bytes)
    ensures CopiesIn(a + b, u) == CopiesIn(a, u) + CopiesIn(b, u)
  {
  }

  /** How many copies of `u` the jobs numbered `ids`, of the first `n`, deliver. */
  ghost function Copies(jobs: seq<Job>, ids: set<nat>, n: nat, u: Bytes): nat
    requires n <= |jobs|
  {
    if n == 0 then 0 else Copies(jobs, ids, n - 1, u) + if n - 1 in ids then CopiesIn(Yield(jobs[n - 1]), u) else 0
  }

  lemma {:induction false} CopiesOneMore(jobs: seq<Job>, ids: set<nat>, id: nat, n: nat, u: Bytes)
    requires n <= |jobs| && id !in ids
    ensures Copies(jobs, ids + {id}, n, u) ==
            Copies(jobs, ids, n, u) + if id < n then CopiesIn(Yield(jobs[id]), u) else 0
    decreases n
  {
    if n > 0 {
      CopiesOneMore(jobs, ids, id, n - 1, u);
    }
  }

  lemma {:induction false} NoCopies(jobs: seq<Job>, n: nat, u: Bytes)
    requires n <= |jobs|
    ensures Copies(jobs, {}, n, u) == 0
    decreases n
  {
    if n > 0 {
      NoCopies(jobs, n - 1, u);
    }
  }

  ghost function Ids(done: seq<nat>): set<nat> {
    set id | id in done
  }

  /** Whatever order jobs finish in, together they deliver the same updates. */
  lemma {:induction false} FinishOrderIsImmaterial(jobs: seq<Job>, done: seq<nat>, u: Bytes)
    requires NoRepeats(done) && forall id :: id in done ==> id < |jobs|
    ensures CopiesIn(Yields(jobs, done), u) == Copies(jobs, Ids(done), |jobs|, u)
    decreases done
  {
    if done == [] {
      NoCopies(jobs, |jobs|, u);
      assert Ids(done) == {};
    } else {
      var id, rest := done[0], done[1..];
      assert forall k :: 0 <= k < |rest| ==> rest[k] == done[k + 1];
      assert forall d :: d in rest ==> d in done;
      assert Ids(done) == Ids(rest) + {id};
      FinishOrderIsImmaterial(jobs, rest, u);
      CopiesOneMore(jobs, Ids(rest), id, |jobs|, u);
      CopiesConcat(YieldAt(jobs, id), Yields(jobs, rest), u);
    }
  }

  ghost predicate AllFinished(jobs: seq<Job>, ids: set<nat>) {
    forall id: nat :: id < |jobs| ==> (id in ids <==> Finishes(jobs[id]))
  }

  lemma {:induction false} AllFinishedDeliver(jobs: seq<Job>, ids: set<nat>, n: nat, u: Bytes)
    requires n <= |jobs| && AllFinished(jobs, ids)
    ensures Copies(jobs, ids, n, u) == CopiesIn(Expected(jobs[..n]), u)
    decreases n
  {
    if n > 0 {
      AllFinishedDeliver(jobs, ids, n - 1, u);
      ExpectedOneMore(jobs, n - 1, u);
    }
  }

  lemma ExpectedOneMore(jobs: seq<Job>, k: nat, u: Bytes)
    requires k < |jobs|
    ensures CopiesIn(Expected(jobs[..k + 1]), u) ==
            CopiesIn(Expected(jobs[..k]), u) + if Finishes(jobs[k]) then CopiesIn(Yield(jobs[k]), u) else 0
  {
    var last := [jobs[k]];
    assert jobs[..k + 1] == jobs[..k] + last && last[1..] == [];
    ExpectedConcat(jobs[..k], last);
    CopiesConcat(Expected(jobs[..k]), Expected(last), u);
    assert Expected(last) == if Finishes(jobs[k]) then Yield(jobs[k]) else [];
  }

  /** Once every message has arrived, the finished jobs are those that fit the reassembly limit. */
  lemma AllArrivedFinishes(jobs: seq<Job>, p: seq<Message>, done: seq<nat>)
    requires Sendable(jobs) && ArrivesOnce(p, jobs)
    requires Inv(jobs, OnMessages(IDLE, p), SeenAfter(p, |p|), done)
    ensures AllFinished(jobs, Ids(done))
  {
    var seen := SeenAfter(p, |p|);
    assert p[..|p|] == p;
    forall id | 0 <= id < |jobs| ensures id in done <==> Finishes(jobs[id]) {
      assert JobInv(jobs[id], id, OnMessages(IDLE, p).batches, seen, done);
      match jobs[id]
      case Frame(updates) =>
        assert Genuine(jobs, DocUpdate(id, updates));
      case Large(u) =>
        assert Genuine(jobs, HeaderOf(u, id));
        forall i | 0 <= i < PieceCount(|u|, FRAGMENT_BYTES) ensures i in SeenPieces(u, id, seen) {
          assert Genuine(jobs, FragmentOf(u, id, i));
        }
        FullSetSize(SeenPieces(u, id, seen), PieceCount(|u|, FRAGMENT_BYTES));
    }
  }

  lemma ArrivalDelivers(jobs: seq<Job>, p: seq<Message>)
    requires Sendable(jobs) && ArrivesOnce(p, jobs)
    ensures multiset(OnMessages(IDLE, p).delivered) == multiset(Expected(jobs))
  {
    var done := TraceKeepsInv(jobs, p, |p|);
    assert p[..|p|] == p && jobs[..|jobs|] == jobs;
    AllArrivedFinishes(jobs, p, done);
    var delivered, expected := OnMessages(IDLE, p).delivered, Expected(jobs);
    forall u ensures multiset(delivered)[u] == multiset(expected)[u] {
      FinishOrderIsImmaterial(jobs, done, u);
      AllFinishedDeliver(jobs, Ids(done), |jobs|, u);
      assert CopiesIn(delivered, u) == CopiesIn(expected, u);
    }
  }

  // ---------- the sender's jobs carry the updates ----------

  function FittingOnly(us: seq<Bytes>): seq<Bytes> {
    if us == [] then [] else (if Fits(us[0]) then [us[0]] else []) + FittingOnly(us[1..])
  }

  lemma {:induction false} FrameJobsDeliver(batches: seq<seq<Bytes>>)
    ensures Expected(FrameJobs(batches)) == Flatten(batches)
  {
    if batches != [] {
      assert FrameJobs(batches)[1..] == FrameJobs(batches[1..]);
      FrameJobsDeliver(batches[1..]);
    }
  }

  lemma {:induction false} LargeJobsDeliver(us: seq<Bytes>)
    ensures Expected(LargeJobs(us)) == FittingOnly(us)
  {
    if us != [] {
      assert LargeJobs(us)[1..] == LargeJobs(us[1..]);
      LargeJobsDeliver(us[1..]);
    }
  }

  lemma AddToBoth(x: seq<Bytes>, a: seq<Bytes>, b: seq<Bytes>, c: seq<Bytes>)
    requires multiset(a) + multiset(b) == multiset(c)
    ensures multiset(x + a) + multiset(b) == multiset(x + c) == multiset(a) + multiset(x + b)
  {
  }

  lemma FittingOneMore(u: Bytes, us: seq<Bytes>)
    ensures FittingOnly([u] + us) == (if Fits(u) then [u] else []) + FittingOnly(us)
  {
    assert ([u] + us)[1..] == us;
  }

  lemma {:induction false} SplitKeepsUpdates(us: seq<Bytes>)
    ensures multiset(Filter(us, true)) + multiset(FittingOnly(Filter(us, false))) == multiset(FittingOnly(us))
  {
    if us != [] {
      var u, tail := us[0], us[1..];
      var smalls, larges := Filter(tail, true), Filter(tail, false);
      var kept := if Fits(u) then [u] else [];
      SplitKeepsUpdates(tail);
      AddToBoth(kept, smalls, FittingOnly(larges), FittingOnly(tail));
      if Small(u) {
        assert Filter(us, true) == kept + smalls && Filter(us, false) == larges;
      } else {
        FittingOneMore(u, larges);
        assert Filter(us, true) == smalls && Filter(us, false) == [u] + larges;
      }
    }
  }

  /** The jobs of `us` deliver every update within the reassembly limit: the small ones first and in order. */
  lemma JobsCarryTheUpdates(us: seq<Bytes>)
    ensures Expected(JobsOf(us)) == Filter(us, true) + FittingOnly(Filter(us, false))
    ensures multiset(Expected(JobsOf(us))) == multiset(FittingOnly(us))
  {
    var frames, larges := FrameJobs(SmallBatches(us, [])), LargeJobs(Filter(us, false));
    calc {
      Expected(JobsOf(us));
      { ExpectedConcat(frames, larges); }
      Expected(frames) + Expected(larges);
      { FrameJobsDeliver(SmallBatches(us, [])); LargeJobsDeliver(Filter(us, false)); }
      Flatten(SmallBatches(us, [])) + FittingOnly(Filter(us, false));
      { SmallBatchesKeepOrder(us, []); assert [] + Filter(us, true) == Filter(us, true); }
      Filter(us, true) + FittingOnly(Filter(us, false));
    }
    SplitKeepsUpdates(us);
  }

  lemma JobsAreSendable(us: seq<Bytes>)
    ensures Sendable(JobsOf(us))
  {
    var n, larges := |SmallBatches(us, [])|, Filter(us, false);
    FilterKeepsLarge(us);
    forall k | 0 <= k < |JobsOf(us)| && JobsOf(us)[k].Large? ensures !Small(JobsOf(us)[k].update) {
      assert k >= n && JobsOf(us)[k] == Large(larges[k - n]) && larges[k - n] in larges;
    }
  }

  lemma {:induction false} FilterKeepsLarge(us: seq<Bytes>)
    ensures forall u :: u in Filter(us, false) ==> !Small(u)
  {
    if us != [] {
      FilterKeepsLarge(us[1..]);
    }
  }

  lemma {:induction false} AllFitExactly(us: seq<Bytes>)
    ensures |FittingOnly(us)| <= |us|
    ensures |FittingOnly(us)| == |us| <==> forall u :: u in us ==> Fits(u)
    ensures |FittingOnly(us)| == |us| ==> FittingOnly(us) == us
  {
    if us != [] {
      AllFitExactly(us[1..]);
      assert us == [us[0]] + us[1..];
    }
  }

  // ---------- the messages sent are the genuine ones, each once ----------

  /** `m` belongs to one of the jobs from `id` on. */
  ghost predicate GenuineFrom(jobs: seq<Job>, id: nat, m: Message) {
    id <= m.batchId < id + |jobs| && m in JobMessages(jobs[m.batchId - id], m.batchId)
  }

  lemma JobMessagesAreDistinct(job: Job, id: nat)
    ensures NoRepeats(JobMessages(job, id))
    ensures forall m :: m in JobMessages(job, id) ==> m.batchId == id
    ensures HeadersFirst(JobMessages(job, id))
  {
    var all := JobMessages(job, id);
    if job.Large? {
      assert all[0] == HeaderOf(job.update, id);
      assert forall i :: 1 <= i < |all| ==> all[i] == FragmentOf(job.update, id, i - 1);
    }
  }

  lemma {:induction false} MessagesAreDistinct(jobs: seq<Job>, id: nat)
    ensures NoRepeats(Messages(jobs, id)) && HeadersFirst(Messages(jobs, id))
    ensures forall m :: m in Messages(jobs, id) <==> GenuineFrom(jobs, id, m)
    decreases jobs
  {
    if jobs != [] {
      var head, tail := JobMessages(jobs[0], id), Messages(jobs[1..], id + 1);
      MessagesOneMore(jobs, id);
      JobMessagesAreDistinct(jobs[0], id);
      MessagesAreDistinct(jobs[1..], id + 1);
      forall m ensures m in tail ==> m.batchId > id {
        assert m in tail <==> GenuineFrom(jobs[1..], id + 1, m);
      }
      JoinedApart(head, tail);
      forall m ensures m in head + tail <==> GenuineFrom(jobs, id, m) {
        SentFromHeadOrTail(jobs, id, m);
        assert m in tail <==> GenuineFrom(jobs[1..], id + 1, m);
      }
    }
  }

  lemma SentFromHeadOrTail(jobs: seq<Job>, id: nat, m: Message)
    requires jobs != []
    ensures GenuineFrom(jobs, id, m) <==> m in JobMessages(jobs[0], id) || GenuineFrom(jobs[1..], id + 1, m)
  {
    JobMessagesAreDistinct(jobs[0], id);
    if id < m.batchId < id + |jobs| {
      assert jobs[m.batchId - id] == jobs[1..][m.batchId - (id + 1)];
    }
  }

  lemma JoinedApart(a: seq<Message>, b: seq<Message>)
    requires NoRepeats(a) && NoRepeats(b) && HeadersFirst(a) && HeadersFirst(b)
    requires forall m, m' :: m in a && m' in b ==> m.batchId != m'.batchId
    ensures NoRepeats(a + b) && HeadersFirst(a + b)
  {
    var s := a + b;
    forall i, j | 0 <= i < j < |s| ensures s[i] != s[j] {
      if i < |a| <= j { assert s[i] in a && s[j] in b; }
    }
    forall i, j | 0 <= i < |s| && 0 <= j < |s| && HeaderOfFragment(s[j], s[i]) ensures j < i {
      assert s[i] in if i < |a| then a else b;
      assert s[j] in if j < |a| then a else b;
    }
  }

  lemma GenuineIsSent(jobs: seq<Job>, m: Message)
    ensures GenuineFrom(jobs, 0, m) <==> Genuine(jobs, m)
  {
    if m.batchId < |jobs| && jobs[m.batchId].Large? {
      var u := jobs[m.batchId].update;
      var all := JobMessages(jobs[m.batchId], m.batchId);
      if Genuine(jobs, m) {
        if m.Fragment? {
          assert all[m.index + 1] == m;
        } else {
          assert all[0] == m;
        }
      }
    }
  }

  lemma {:induction false} CountsShowRepeats(s: seq<Message>)
    ensures NoRepeats(s) <==> forall m :: multiset(s)[m] <= 1
  {
    if s != [] {
      var m, rest := s[0], s[1..];
      CountsShowRepeats(rest);
      assert s == [m] + rest;
      assert multiset(s)[m] == 1 + multiset(rest)[m];
      assert m in rest <==> m in multiset(rest);
      RepeatInHeadOrTail(s);
      if !NoRepeats(rest) {
        var x :| multiset(rest)[x] > 1;
        assert multiset(s)[x] > 1;
      }
    }
  }

  lemma RepeatInHeadOrTail(s: seq<Message>)
    requires s != []
    ensures NoRepeats(s) <==> NoRepeats(s[1..]) && s[0] !in s[1..]
  {
    var rest := s[1..];
    if NoRepeats(rest) && s[0] !in rest {
      forall i, j | 0 <= i < j < |s| ensures s[i] != s[j] {
        assert s[j] == rest[j - 1] && s[j] in rest;
        assert i > 0 ==> s[i] == rest[i - 1];
      }
    }
    if NoRepeats(s) {
      assert forall j :: 0 <= j < |rest| ==> rest[j] == s[j + 1];
    }
  }

  /** Any shuffle of what the sender sent delivers each message once. */
  lemma ShuffleArrivesOnce(us: seq<Bytes>, p: seq<Message>)
    requires multiset(p) == multiset(Messages(JobsOf(us), 0)) && HeadersFirst(p)
    ensures ArrivesOnce(p, JobsOf(us))
  {
    var ms := Messages(JobsOf(us), 0);
    MessagesAreDistinct(JobsOf(us), 0);
    CountsShowRepeats(ms);
    CountsShowRepeats(p);
    forall m ensures m in p <==> Genuine(JobsOf(us), m) {
      GenuineIsSent(JobsOf(us), m);
      assert m in p <==> m in multiset(p);
      assert m in ms <==> m in multiset(ms);
    }
  }

  /**
   * Conservation. However the messages are shuffled and interleaved, as long as each header precedes its own
   * fragments, the receiver delivers the updates within the reassembly limit, byte for byte and each once; so
   * everything sent is delivered exactly when no update exceeds that limit.
   */
  lemma ShuffledUpdatesAreConserved(us: seq<Bytes>, p: seq<Message>)
    requires multiset(p) == multiset(Messages(JobsOf(us), 0)) && HeadersFirst(p)
    ensures multiset(OnMessages(IDLE, p).delivered) == multiset(FittingOnly(us))
    ensures multiset(OnMessages(IDLE, p).delivered) == multiset(us) <==>
            (forall u :: u in us ==> |u| <= MAX_REASSEMBLED_BYTES)
  {
    ShuffleArrivesOnce(us, p);
    JobsAreSendable(us);
    JobsCarryTheUpdates(us);
    ArrivalDelivers(JobsOf(us), p);
    AllFitExactly(us);
    assert |multiset(us)| == |us| && |multiset(FittingOnly(us))| == |FittingOnly(us)|;
  }
}
