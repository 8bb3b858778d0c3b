/**
 * Session persistence (edge/src/session-room.ts): a document cached in memory, an update log and a snapshot in
 * storage, and a buffer of accepted updates not yet flushed. A document is the set of updates it has imported;
 * whether an import succeeds is a function of the document and the update, and importing again always succeeds.
 */
module SessionStore {
  import opened Options
  import opened Bytes
  import opened UpdateLog

  type Doc = set<Bytes>

  /** Whether importing an update into a document succeeds. */
  type Imports = (Doc, Bytes) -> bool

  const COMPACT_LOG_BYTES: nat := 2 * 1024 * 1024
  const COMPACT_LOG_ROWS: nat := 400
  const IMPORT_PENALTY_STRIKES: nat := 3
  const IMPORT_PENALTY_MS: nat := 10 * 60 * 1000
  const PENALTY_PROBE_MAX_BYTES: nat := 4096
  const DOC_IDLE_RELEASE_MS: nat := 60_000

  datatype Penalty = Penalty(strikes: nat, until: nat)

  datatype Session = Session(
    snapshot: Option<Doc>, log: seq<LogRow>, updateBytes: nat,
    pending: seq<Bytes>, pendingBytes: nat, doc: Option<Doc>, penalties: map<string, Penalty>)

  const EMPTY_SESSION := Session(None, [], 0, [], 0, None, map[])

  ghost predicate Idempotent(imports: Imports) {
    forall d: Doc, u: Bytes :: u in d ==> imports(d, u)
  }

  function Members(us: seq<Bytes>): Doc {
    set u | u in us
  }

  lemma MembersConcat(a: seq<Bytes>, b: seq<Bytes>)
    ensures Members(a + b) == Members(a) + Members(b)
  {
  }

  // ---------- importing ----------

  /** The updates a pass that skips each failing one would import, in order; empty updates are passed over. */
  function Importable(imports: Imports, d: Doc, us: seq<Bytes>): seq<Bytes>
    decreases us
  {
    if us == [] then []
    else if us[0] == [] || !imports(d, us[0]) then Importable(imports, d, us[1..])
    else [us[0]] + Importable(imports, d + {us[0]}, us[1..])
  }

  /** Every non-empty update imports. */
  predicate AllImport(imports: Imports, d: Doc, us: seq<Bytes>)
    decreases us
  {
    us != [] ==>
      if us[0] == [] then AllImport(imports, d, us[1..])
      else imports(d, us[0]) && AllImport(imports, d + {us[0]}, us[1..])
  }

  function NonEmpty(us: seq<Bytes>): seq<Bytes> {
    if us == [] then [] else (if us[0] == [] then [] else [us[0]]) + NonEmpty(us[1..])
  }

  lemma {:induction false} AllImportMeansImportable(imports: Imports, d: Doc, us: seq<Bytes>)
    ensures AllImport(imports, d, us) ==> Importable(imports, d, us) == NonEmpty(us)
    decreases us
  {
    if us != [] {
      AllImportMeansImportable(imports, d, us[1..]);
      AllImportMeansImportable(imports, d + {us[0]}, us[1..]);
    }
  }

  /** What was imported replays cleanly from the same document. */
  lemma {:induction false} ImportableReplays(imports: Imports, d: Doc, us: seq<Bytes>)
    ensures AllImport(imports, d, Importable(imports, d, us))
    ensures forall u :: u in Importable(imports, d, us) ==> u != []
    decreases us
  {
    if us != [] {
      ImportableReplays(imports, d, us[1..]);
      ImportableReplays(imports, d + {us[0]}, us[1..]);
      if us[0] != [] && imports(d, us[0]) {
        var rest := Importable(imports, d + {us[0]}, us[1..]);
        assert ([us[0]] + rest)[1..] == rest;
      }
    }
  }

  /** The import of `u` fails at some document from `before` to `after`. */
  ghost predicate FailsBetween(imports: Imports, before: Doc, after: Doc, u: Bytes) {
    exists d: Doc :: before <= d <= after && !imports(d, u)
  }

  /**
   * From `before` to `after` each of the updates had its turn: it is empty, or held, or failed when it was tried; and
   * nothing else came in.
   */
  ghost predicate AllTried(imports: Imports, before: Doc, after: Doc, us: seq<Bytes>) {
    && before <= after <= before + Members(us)
    && forall u :: u in us ==> u == [] || u in after || FailsBetween(imports, before, after, u)
  }

  /** `kept` are the updates that were not empty and did not fail. */
  ghost predicate KeptOf(imports: Imports, before: Doc, after: Doc, us: seq<Bytes>, kept: seq<Bytes>) {
    && (forall u :: u in kept ==> u in us && u != [])
    && (forall u :: u in us ==> u == [] || u in kept || FailsBetween(imports, before, after, u))
  }

  /** One failing update costs no other: a pass tries each update, whatever became of those before it. */
  lemma {:induction false} EveryUpdateIsTried(imports: Imports, d: Doc, us: seq<Bytes>)
    ensures var kept := Importable(imports, d, us);
            && AllTried(imports, d, d + Members(kept), us)
            && KeptOf(imports, d, d + Members(kept), us, kept)
    decreases us
  {
    if us != [] {
      var u, rest := us[0], us[1..];
      assert us == [u] + rest;
      var kept := Importable(imports, d, us);
      var after := d + Members(kept);
      if u == [] || !imports(d, u) {
        EveryUpdateIsTried(imports, d, rest);
        assert u != [] ==> FailsBetween(imports, d, after, u);
      } else {
        EveryUpdateIsTried(imports, d + {u}, rest);
        MembersConcat([u], Importable(imports, d + {u}, rest));
        assert after == d + {u} + Members(Importable(imports, d + {u}, rest));
        assert forall v :: FailsBetween(imports, d + {u}, after, v) ==> FailsBetween(imports, d, after, v);
      }
    }
  }

  /** A batch imports throughout when each non-empty update imports after those before it. */
  ghost predicate ImportsInTurn(imports: Imports, d: Doc, us: seq<Bytes>) {
    forall k :: 0 <= k < |us| && us[k] != [] ==> imports(d + (Members(us[..k]) - {[]}), us[k])
  }

  lemma TurnStep(d: Doc, us: seq<Bytes>, k: nat)
    requires 0 < k <= |us|
    ensures Members(us[..k]) == {us[0]} + Members(us[1..][..k - 1])
  {
    assert us[..k] == [us[0]] + us[1..][..k - 1];
  }

  lemma {:induction false} AllImportExactly(imports: Imports, d: Doc, us: seq<Bytes>)
    ensures AllImport(imports, d, us) <==> ImportsInTurn(imports, d, us)
    decreases us
  {
    if us != [] {
      var d' := if us[0] == [] then d else d + {us[0]};
      AllImportExactly(imports, d', us[1..]);
      assert d + (Members(us[..0]) - {[]}) == d;
      forall k | 0 < k < |us|
        ensures us[k] == us[1..][k - 1] && d + (Members(us[..k]) - {[]}) == d' + (Members(us[1..][..k - 1]) - {[]})
      {
        TurnStep(d, us, k);
      }
      if ImportsInTurn(imports, d, us) {
        forall k | 0 <= k < |us[1..]| && us[1..][k] != []
          ensures imports(d' + (Members(us[1..][..k]) - {[]}), us[1..][k])
        {
          assert us[k + 1] == us[1..][k] && us[k + 1] != [];
        }
      }
    }
  }

  lemma {:induction false} AllImportConcat(imports: Imports, d: Doc, a: seq<Bytes>, b: seq<Bytes>)
    requires forall u :: u in a ==> u != []
    ensures AllImport(imports, d, a + b) <==> AllImport(imports, d, a) && AllImport(imports, d + Members(a), b)
    decreases a
  {
    if a == [] {
      assert a + b == b && d + Members(a) == d;
    } else {
      assert (a + b)[1..] == a[1..] + b && a[0] in a && forall u :: u in a[1..] ==> u in a;
      AllImportConcat(imports, d + {a[0]}, a[1..], b);
      assert d + {a[0]} + Members(a[1..]) == d + Members(a);
    }
  }

  lemma {:induction false} HeldUpdatesImport(imports: Imports, d: Doc, us: seq<Bytes>)
    requires Idempotent(imports) && Members(us) <= d
    ensures AllImport(imports, d, us)
    decreases us
  {
    if us != [] {
      assert us[0] in Members(us) && Members(us[1..]) <= Members(us);
      assert d + {us[0]} == d;
      HeldUpdatesImport(imports, d, us[1..]);
    }
  }

  /**
   * The salvage pass restarts from the top on a document that already holds the first pass's imports; it imports
   * exactly what a single pass skipping each failing update would have.
   */
  lemma {:induction false} SalvageEqualsOnePass(imports: Imports, d: Doc, us: seq<Bytes>, k: nat)
    requires Idempotent(imports) && k <= |us| && AllImport(imports, d, us[..k])
    ensures var e := d + Members(NonEmpty(us[..k]));
            Importable(imports, e, us) == Importable(imports, d, us)
    decreases us
  {
    var e := d + Members(NonEmpty(us[..k]));
    if k == 0 {
      assert e == d;
    } else {
      assert us[..k][1..] == us[1..][..k - 1];
      if us[0] == [] {
        assert NonEmpty(us[..k]) == NonEmpty(us[1..][..k - 1]);
        SalvageEqualsOnePass(imports, d, us[1..], k - 1);
      } else {
        var rest := NonEmpty(us[1..][..k - 1]);
        assert NonEmpty(us[..k]) == [us[0]] + rest;
        SalvageEqualsOnePass(imports, d + {us[0]}, us[1..], k - 1);
        assert e == d + {us[0]} + Members(rest) == e + {us[0]};
      }
    }
  }

  // ---------- the stored state ----------

  function SnapshotDoc(s: Session): Doc {
    if s.snapshot.Some? then s.snapshot.value else {}
  }

  /** Everything the room can rebuild its document from: snapshot, log and buffer. */
  function Held(s: Session): Doc {
    SnapshotDoc(s) + Members(ReadUpdates(s.log)) + Members(s.pending)
  }

  /** What survives the loss of memory. */
  function Persisted(s: Session): Doc {
    SnapshotDoc(s) + Members(ReadUpdates(s.log))
  }

  ghost predicate WithinBudget(s: Session) {
    s.updateBytes <= COMPACT_LOG_BYTES && |s.log| <= COMPACT_LOG_ROWS
  }

  /** Counters are true, no stored update is empty, and replaying log and buffer over the snapshot skips nothing. */
  ghost predicate StoreOk(imports: Imports, s: Session) {
    && s.updateBytes == RowBytes(s.log)
    && s.pendingBytes == TotalLength(s.pending)
    && (forall u :: u in s.pending ==> u != [])
    && (forall u :: u in ReadUpdates(s.log) ==> u != [])
    && AllImport(imports, SnapshotDoc(s), ReadUpdates(s.log) + s.pending)
  }

  ghost predicate SessionOk(imports: Imports, s: Session) {
    && StoreOk(imports, s)
    && WithinBudget(s)
    && (s.doc.Some? ==> s.doc.value == Held(s))
  }

  // ---------- the steps ----------

  /** The cold replay of `ensureDoc`: snapshot, then log, then buffer, skipping what fails. */
  function Replay(imports: Imports, s: Session): Doc {
    var logged := Importable(imports, SnapshotDoc(s), ReadUpdates(s.log));
    var base := SnapshotDoc(s) + Members(logged);
    base + Members(Importable(imports, base, s.pending))
  }

  /** A trim or a fold: the document becomes the snapshot and the log is cleared. */
  function Compacted(s: Session, doc: Doc): Session {
    s.(snapshot := Some(doc), log := [], updateBytes := 0, doc := Some(doc))
  }

  /** `ensureDoc`; `trim` says whether a history trim is due after a cold replay. */
  function EnsureDoc(imports: Imports, s: Session, trim: bool): Session {
    if s.doc.Some? then s
    else
      var doc := Replay(imports, s);
      if trim then Compacted(s, doc) else s.(doc := Some(doc))
  }

  predicate Penalized(penalties: map<string, Penalty>, device: Option<string>, now: nat) {
    && device.Some? && device.value in penalties
    && penalties[device.value].strikes >= IMPORT_PENALTY_STRIKES && penalties[device.value].until > now
  }

  predicate Shut(s: Session, device: Option<string>, now: nat, updates: seq<Bytes>) {
    Penalized(s.penalties, device, now) && TotalLength(updates) > PENALTY_PROBE_MAX_BYTES
  }

  function Strike(penalties: map<string, Penalty>, device: Option<string>, now: nat): map<string, Penalty> {
    if device.None? then penalties
    else
      var strikes := if device.value in penalties then penalties[device.value].strikes else 0;
      penalties[device.value := Penalty(strikes + 1, now + IMPORT_PENALTY_MS)]
  }

  function Pardon(penalties: map<string, Penalty>, device: Option<string>): map<string, Penalty> {
    if device.None? then penalties else penalties - {device.value}
  }

  /** What `applyUpdates` imports of a batch. */
  function Taken(imports: Imports, s: Session, device: Option<string>, now: nat, updates: seq<Bytes>): seq<Bytes> {
    if Shut(s, device, now, updates) then []
    else Importable(imports, Replayed(imports, s), updates)
  }

  function Replayed(imports: Imports, s: Session): Doc {
    if s.doc.Some? then s.doc.value else Replay(imports, s)
  }

  /** `applyUpdates` for a document batch: import what can be imported, buffer it, and strike or pardon the device. */
  function ApplyUpdates(
    imports: Imports, s: Session, device: Option<string>, now: nat, updates: seq<Bytes>, trim: bool): Session
  {
    if Shut(s, device, now, updates) then s
    else
      var s' := EnsureDoc(imports, s, trim);
      var doc := Replayed(imports, s);
      var taken := Importable(imports, doc, updates);
      s'.(doc := Some(doc + Members(taken)),
          pending := s'.pending + taken,
          pendingBytes := s'.pendingBytes + TotalLength(taken),
          penalties := if AllImport(imports, doc, updates) then Pardon(s'.penalties, device)
              else Strike(s'.penalties, device, now))
  }

  function AppendRows(log: seq<LogRow>, updates: seq<Bytes>): seq<LogRow>
    decreases updates
  {
    if updates == [] then log else AppendRows(log + ChunkRows(updates[0]), updates[1..])
  }

  /** `foldLog`. Whether it trims or re-exports in full, the snapshot becomes the whole document. */
  function FoldLog(imports: Imports, s: Session, trim: bool): Session {
    var s' := EnsureDoc(imports, s, trim);
    Compacted(s', Replayed(imports, s))
  }

  function Flushed(s: Session): Session {
    s.(log := AppendRows(s.log, s.pending), updateBytes := s.updateBytes + s.pendingBytes,
       pending := [], pendingBytes := 0)
  }

  function Flush(imports: Imports, s: Session, trim: bool): Session {
    if s.pending == [] then s
    else
      var s' := Flushed(s);
      if s'.updateBytes > COMPACT_LOG_BYTES || |s'.log| > COMPACT_LOG_ROWS then FoldLog(imports, s', trim) else s'
  }

  function Release(s: Session): Session {
    s.(doc := None)
  }

  /** The object is evicted or killed: memory is gone. */
  function Crash(s: Session): Session {
    s.(pending := [], pendingBytes := 0, doc := None, penalties := map[])
  }

  // ---------- each step keeps the invariant ----------

  lemma ReplayRebuilds(imports: Imports, s: Session)
    requires StoreOk(imports, s)
    ensures Replay(imports, s) == Held(s)
  {
    var base, us := SnapshotDoc(s), ReadUpdates(s.log);
    AllImportConcat(imports, base, us, s.pending);
    AllImportMeansImportable(imports, base, us);
    NonEmptyOfNonEmpty(us);
    AllImportMeansImportable(imports, base + Members(us), s.pending);
    NonEmptyOfNonEmpty(s.pending);
  }

  lemma {:induction false} NonEmptyOfNonEmpty(us: seq<Bytes>)
    requires forall u :: u in us ==> u != []
    ensures NonEmpty(us) == us
  {
    if us != [] {
      assert us[0] in us && forall u :: u in us[1..] ==> u in us;
      NonEmptyOfNonEmpty(us[1..]);
    }
  }

  lemma CompactKeepsOk(imports: Imports, s: Session)
    requires Idempotent(imports) && StoreOk(imports, s)
    ensures SessionOk(imports, Compacted(s, Held(s))) && Held(Compacted(s, Held(s))) == Held(s)
  {
    var s' := Compacted(s, Held(s));
    assert ReadUpdates([]) == [];
    assert [] + s.pending == s.pending;
    HeldUpdatesImport(imports, Held(s), s.pending);
  }

  lemma EnsureKeepsOk(imports: Imports, s: Session, trim: bool)
    requires Idempotent(imports) && SessionOk(imports, s)
    ensures var s' := EnsureDoc(imports, s, trim);
            SessionOk(imports, s') && s'.doc == Some(Held(s)) && Held(s') == Held(s) && Replayed(imports, s) == Held(s)
    ensures var s' := EnsureDoc(imports, s, trim);
            if trim && s.doc.None? then s'.snapshot == Some(Held(s)) && s'.log == []
            else s'.snapshot == s.snapshot && s'.log == s.log
  {
    ReplayRebuilds(imports, s);
    if trim {
      CompactKeepsOk(imports, s);
    }
  }

  lemma BufferHolds(s: Session, s': Session, taken: seq<Bytes>)
    requires s'.snapshot == s.snapshot && s'.log == s.log && s'.pending == s.pending + taken
    ensures Held(s') == Held(s) + Members(taken)
    ensures ReadUpdates(s'.log) + s'.pending == (ReadUpdates(s.log) + s.pending) + taken
  {
    var us := ReadUpdates(s.log);
    MembersConcat(s.pending, taken);
    assert us + (s.pending + taken) == us + s.pending + taken;
  }

  lemma BufferImports(imports: Imports, s: Session, s': Session, taken: seq<Bytes>)
    requires s'.snapshot == s.snapshot && s'.log == s.log && s'.pending == s.pending + taken
    requires AllImport(imports, SnapshotDoc(s), ReadUpdates(s.log) + s.pending) && AllImport(imports, Held(s), taken)
    requires (forall u :: u in s.pending ==> u != []) && forall u :: u in ReadUpdates(s.log) ==> u != []
    ensures AllImport(imports, SnapshotDoc(s'), ReadUpdates(s'.log) + s'.pending)
  {
    var before := ReadUpdates(s.log) + s.pending;
    BufferHolds(s, s', taken);
    MembersConcat(ReadUpdates(s.log), s.pending);
    assert SnapshotDoc(s) + Members(before) == Held(s);
    AllImportConcat(imports, SnapshotDoc(s), before, taken);
  }

  lemma BufferIsCounted(s: Session, s': Session, taken: seq<Bytes>)
    requires s.pendingBytes == TotalLength(s.pending) && forall u :: u in s.pending + taken ==> u != []
    requires s'.pending == s.pending + taken && s'.pendingBytes == s.pendingBytes + TotalLength(taken)
    ensures s'.pendingBytes == TotalLength(s'.pending) && forall u :: u in s'.pending ==> u != []
  {
    JoinConcat(s.pending, taken);
  }

  lemma BufferKeepsOk(imports: Imports, s: Session, taken: seq<Bytes>, penalties: map<string, Penalty>)
    requires SessionOk(imports, s) && s.doc == Some(Held(s))
    requires AllImport(imports, Held(s), taken) && forall u :: u in taken ==> u != []
    ensures var s' := s.(doc := Some(Held(s) + Members(taken)), pending := s.pending + taken,
                         pendingBytes := s.pendingBytes + TotalLength(taken), penalties := penalties);
            SessionOk(imports, s') && Held(s') == Held(s) + Members(taken)
  {
    var s' := s.(doc := Some(Held(s) + Members(taken)), pending := s.pending + taken,
                 pendingBytes := s.pendingBytes + TotalLength(taken), penalties := penalties);
    BufferIsCounted(s, s', taken);
    BufferHolds(s, s', taken);
    BufferImports(imports, s, s', taken);
  }

  /** Accepting a batch, salvage included, adds to the cached document and to the buffer exactly the same updates. */
  lemma ApplyKeepsOk(
    imports: Imports, s: Session, device: Option<string>, now: nat, updates: seq<Bytes>, trim: bool)
    requires Idempotent(imports) && SessionOk(imports, s)
    ensures var s' := ApplyUpdates(imports, s, device, now, updates, trim);
            SessionOk(imports, s') && Held(s') == Held(s) + Members(Taken(imports, s, device, now, updates))
  {
    if !Shut(s, device, now, updates) {
      EnsureKeepsOk(imports, s, trim);
      var s1, taken := EnsureDoc(imports, s, trim), Importable(imports, Held(s), updates);
      ImportableReplays(imports, Held(s), updates);
      BufferKeepsOk(imports, s1, taken, ApplyUpdates(imports, s, device, now, updates, trim).penalties);
    }
  }

  lemma {:induction false} AppendRowsReadBack(log: seq<LogRow>, updates: seq<Bytes>)
    requires forall u :: u in updates ==> u != []
    ensures ReadUpdates(AppendRows(log, updates)) == ReadUpdates(log) + updates
    ensures RowBytes(AppendRows(log, updates)) == RowBytes(log) + TotalLength(updates)
    decreases updates
  {
    if updates == [] {
      assert ReadUpdates(log) + updates == ReadUpdates(log);
    } else {
      assert updates[0] in updates && forall u :: u in updates[1..] ==> u in updates;
      AppendedUpdateReadsBack(log, updates[0]);
      RowBytesConcat(log, ChunkRows(updates[0]));
      ChunkRowsFit(updates[0]);
      AppendRowsReadBack(log + ChunkRows(updates[0]), updates[1..]);
      assert ReadUpdates(log) + [updates[0]] + updates[1..] == ReadUpdates(log) + updates;
    }
  }

  lemma FlushedKeepsStoreOk(imports: Imports, s: Session)
    requires SessionOk(imports, s)
    ensures StoreOk(imports, Flushed(s)) && Held(Flushed(s)) == Held(s)
  {
    AppendRowsReadBack(s.log, s.pending);
    MembersConcat(ReadUpdates(s.log), s.pending);
    assert ReadUpdates(s.log) + s.pending + [] == ReadUpdates(s.log) + s.pending;
  }

  /** A flush moves the buffer into the log, or all of it into the snapshot, and leaves the log within both budgets. */
  lemma FlushKeepsOk(imports: Imports, s: Session, trim: bool)
    requires Idempotent(imports) && SessionOk(imports, s)
    ensures var s' := Flush(imports, s, trim);
            SessionOk(imports, s') && Held(s') == Held(s) && s'.pending == [] && Persisted(s') == Held(s)
  {
    if s.pending != [] {
      FlushedKeepsStoreOk(imports, s);
      var s' := Flushed(s);
      ReplayRebuilds(imports, s');
      CompactKeepsOk(imports, s');
    }
  }

  /** The rows that updates take in the log. */
  function RowsFor(updates: seq<Bytes>): nat {
    if updates == [] then 0 else PieceCount(|updates[0]|, CHUNK_BYTES) + RowsFor(updates[1..])
  }

  lemma {:induction false} AppendRowsCount(log: seq<LogRow>, updates: seq<Bytes>)
    ensures |AppendRows(log, updates)| == |log| + RowsFor(updates)
    decreases updates
  {
    if updates != [] {
      AppendRowsCount(log + ChunkRows(updates[0]), updates[1..]);
    }
  }

  /** The log with the buffer on it would pass a budget. */
  predicate OverBudget(s: Session) {
    || RowBytes(s.log) + TotalLength(s.pending) > COMPACT_LOG_BYTES
    || |s.log| + RowsFor(s.pending) > COMPACT_LOG_ROWS
  }

  /**
   * A flush folds everything into the snapshot exactly when the log would pass a budget; otherwise it appends the
   * buffer, in order, and leaves the snapshot alone.
   */
  lemma FlushFoldsExactly(imports: Imports, s: Session, trim: bool)
    requires Idempotent(imports) && SessionOk(imports, s) && s.pending != []
    ensures var s' := Flush(imports, s, trim);
            if OverBudget(s) then s'.snapshot == Some(Held(s)) && s'.log == []
            else s'.snapshot == s.snapshot && ReadUpdates(s'.log) == ReadUpdates(s.log) + s.pending
                 && |s'.log| == |s.log| + RowsFor(s.pending)
  {
    FlushedKeepsStoreOk(imports, s);
    ReplayRebuilds(imports, Flushed(s));
    AppendRowsReadBack(s.log, s.pending);
    AppendRowsCount(s.log, s.pending);
  }

  /** Losing memory loses at most what was still buffered. */
  lemma CrashLosesOnlyTheBuffer(imports: Imports, s: Session)
    requires SessionOk(imports, s)
    ensures var s' := Crash(s);
            && SessionOk(imports, s') && Held(s') == Persisted(s)
            && Held(s) - Members(s.pending) <= Held(s') <= Held(s)
            && Replay(imports, s') == Persisted(s)
  {
    var us := ReadUpdates(s.log);
    AllImportConcat(imports, SnapshotDoc(s), us, s.pending);
    assert us + [] == us;
    ReplayRebuilds(imports, Crash(s));
  }

  // ---------- runs ----------

  datatype Event =
    | Updates(device: Option<string>, now: nat, updates: seq<Bytes>, trim: bool)
    | FlushDue(trim: bool)
    | Materialize(trim: bool)
    | Idle
    | Killed

  /** A room, and every update it has accepted and not lost to a kill. */
  datatype World = World(s: Session, accepted: Doc)

  function Step(imports: Imports, w: World, e: Event): World {
    match e
    case Updates(device, now, updates, trim) =>
      World(ApplyUpdates(imports, w.s, device, now, updates, trim),
            w.accepted + Members(Taken(imports, w.s, device, now, updates)))
    case FlushDue(trim) => w.(s := Flush(imports, w.s, trim))
    case Materialize(trim) => w.(s := EnsureDoc(imports, w.s, trim))
    case Idle => w.(s := Release(w.s))
    case Killed => World(Crash(w.s), Persisted(w.s))
  }

  function Run(imports: Imports, w: World, events: seq<Event>): World
    decreases events
  {
    if events == [] then w else Run(imports, Step(imports, w, events[0]), events[1..])
  }

  ghost predicate Inv(imports: Imports, w: World) {
    SessionOk(imports, w.s) && Held(w.s) == w.accepted
  }

  lemma StepKeepsInv(imports: Imports, w: World, e: Event)
    requires Idempotent(imports) && Inv(imports, w)
    ensures Inv(imports, Step(imports, w, e))
  {
    match e
    case Updates(device, now, updates, trim) => ApplyKeepsOk(imports, w.s, device, now, updates, trim);
    case FlushDue(trim) => FlushKeepsOk(imports, w.s, trim);
    case Materialize(trim) => EnsureKeepsOk(imports, w.s, trim);
    case Idle =>
    case Killed => CrashLosesOnlyTheBuffer(imports, w.s);
  }

  lemma {:induction false} RunKeepsInv(imports: Imports, w: World, events: seq<Event>)
    requires Idempotent(imports) && Inv(imports, w)
    ensures Inv(imports, Run(imports, w, events))
    decreases events
  {
    if events != [] {
      StepKeepsInv(imports, w, events[0]);
      RunKeepsInv(imports, Step(imports, w, events[0]), events[1..]);
    }
  }

  /**
   * After any run of accepts, flushes, folds, trims, idle releases and kills: the cached document, if there is one,
   * and what a cold replay would rebuild, both equal the accepted updates; and the log is within its budgets with
   * its byte counter true.
   */
  lemma DocumentIsAlwaysRebuildable(imports: Imports, events: seq<Event>)
    requires Idempotent(imports)
    ensures var w := Run(imports, World(EMPTY_SESSION, {}), events);
            && Replay(imports, w.s) == w.accepted == Held(w.s)
            && (w.s.doc.Some? ==> w.s.doc.value == w.accepted)
            && w.s.updateBytes == RowBytes(w.s.log) <= COMPACT_LOG_BYTES && |w.s.log| <= COMPACT_LOG_ROWS
  {
    assert Inv(imports, World(EMPTY_SESSION, {}));
    RunKeepsInv(imports, World(EMPTY_SESSION, {}), events);
    ReplayRebuilds(imports, Run(imports, World(EMPTY_SESSION, {}), events).s);
  }

  ghost predicate CrashFree(events: seq<Event>) {
    forall e :: e in events ==> !e.Killed?
  }

  /** Without a kill nothing accepted is ever forgotten. */
  lemma {:induction false} AcceptedOnlyGrows(imports: Imports, w: World, events: seq<Event>)
    requires CrashFree(events)
    ensures w.accepted <= Run(imports, w, events).accepted
    decreases events
  {
    if events != [] {
      assert events[0] in events;
      AcceptedOnlyGrows(imports, Step(imports, w, events[0]), events[1..]);
    }
  }

  /** So what the room holds, and what a cold replay rebuilds, only grows. */
  lemma NothingHeldIsForgotten(imports: Imports, w: World, events: seq<Event>)
    requires Idempotent(imports) && Inv(imports, w) && CrashFree(events)
    ensures var s' := Run(imports, w, events).s;
            Held(w.s) <= Held(s') && Replay(imports, w.s) <= Replay(imports, s')
  {
    AcceptedOnlyGrows(imports, w, events);
    RunKeepsInv(imports, w, events);
    ReplayRebuilds(imports, w.s);
    ReplayRebuilds(imports, Run(imports, w, events).s);
  }

  /**
   * Every non-empty update of a batch that is let in is still in the document, however long the room goes on without a
   * kill, unless its own import failed when the batch came; a bad update costs no other.
   */
  lemma AcceptedBatchIsKept(
    imports: Imports, w: World, device: Option<string>, now: nat, updates: seq<Bytes>, trim: bool, later: seq<Event>)
    requires Idempotent(imports) && Inv(imports, w) && CrashFree(later) && !Shut(w.s, device, now, updates)
    ensures var next := Step(imports, w, Updates(device, now, updates, trim));
            var s' := Run(imports, next, later).s;
            && AllTried(imports, Held(w.s), Held(next.s), updates)
            && forall u :: u in updates && u != [] && !FailsBetween(imports, Held(w.s), Held(next.s), u) ==>
                u in Held(next.s) && u in Replay(imports, s')
  {
    var e := Updates(device, now, updates, trim);
    StepKeepsInv(imports, w, e);
    ApplyKeepsOk(imports, w.s, device, now, updates, trim);
    EnsureKeepsOk(imports, w.s, trim);
    EveryUpdateIsTried(imports, Held(w.s), updates);
    var next := Step(imports, w, e);
    NothingHeldIsForgotten(imports, next, later);
    ReplayRebuilds(imports, next.s);
  }
}
