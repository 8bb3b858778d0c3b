/**
 * The session room as the object it is (edge/src/session-room.ts): handlers that update the cached document, the
 * buffer, the log and the snapshot in place, each proved against what SessionStore says of the state.
 */
module SessionRoom {
  import opened Options
  import opened Bytes
  import opened UpdateLog
  import Spec = SessionStore

  type Doc = Spec.Doc

  datatype Ack = Accepted | InvalidUpdate

  class Room {
    /** The document library's import, as a test of whether it succeeds. */
    const imports: Spec.Imports

    var snapshot: Option<Doc>
    var log: seq<LogRow>
    var updateBytes: nat
    var pending: seq<Bytes>
    var pendingBytes: nat
    var doc: Option<Doc>
    var penalties: map<string, Spec.Penalty>

    ghost function View(): Spec.Session
      reads this
    {
      Spec.Session(snapshot, log, updateBytes, pending, pendingBytes, doc, penalties)
    }

    ghost predicate Valid()
      reads this
    {
      Spec.Idempotent(imports) && Spec.SessionOk(imports, View())
    }

    constructor (imports: Spec.Imports)
      requires Spec.Idempotent(imports)
      ensures this.imports == imports && View() == Spec.EMPTY_SESSION && Valid()
    {
      this.imports := imports;
      snapshot, log, updateBytes, pending, pendingBytes, doc, penalties := None, [], 0, [], 0, None, map[];
    }

    /** One loop of the cold replay: import each update, skipping a poisoned one rather than fail. */
    method ReplayInto(base: Doc, us: seq<Bytes>) returns (d: Doc)
      ensures d == base + Spec.Members(Spec.Importable(imports, base, us))
      ensures Spec.AllTried(imports, base, d, us)
    {
      Spec.EveryUpdateIsTried(imports, base, us);
      d := base;
      ghost var goal := base + Spec.Members(Spec.Importable(imports, base, us));
      for i := 0 to |us|
        invariant d + Spec.Members(Spec.Importable(imports, d, us[i..])) == goal
      {
        assert us[i..][0] == us[i] && us[i..][1..] == us[i + 1..];
        if us[i] != [] && imports(d, us[i]) {
          Spec.MembersConcat([us[i]], Spec.Importable(imports, d + {us[i]}, us[i + 1..]));
          d := d + {us[i]};
        }
      }
    }

    /** `ensureDoc`: the cached document, or a replay of snapshot, log and buffer; then a history trim if one is due. */
    method EnsureDoc(trim: bool) returns (d: Doc)
      modifies this
      ensures View() == Spec.EnsureDoc(imports, old(View()), trim)
      ensures d == Spec.Replayed(imports, old(View())) && doc == Some(d)
    {
      if doc.Some? {
        return doc.value;
      }
      d := if snapshot.Some? then snapshot.value else {};
      d := ReplayInto(d, ReadUpdates(log));
      d := ReplayInto(d, pending);
      doc := Some(d);
      if trim {
        snapshot, log, updateBytes := Some(d), [], 0;
      }
    }

    /** The first import loop of `applyUpdates`: it stops at the first failure. */
    method ImportUntilFailure(start: Doc, updates: seq<Bytes>) returns (d: Doc, k: nat)
      ensures k <= |updates| && Spec.AllImport(imports, start, updates[..k])
      ensures d == start + Spec.Members(Spec.NonEmpty(updates[..k]))
      ensures k == |updates| <==> Spec.AllImport(imports, start, updates)
    {
      d, k := start, 0;
      assert updates[0..] == updates;
      while k < |updates|
        invariant k <= |updates|
        invariant Spec.AllImport(imports, start, updates[..k])
        invariant d == start + Spec.Members(Spec.NonEmpty(updates[..k]))
        invariant Spec.AllImport(imports, start, updates) <==> Spec.AllImport(imports, d, updates[k..])
      {
        assert updates[k..][0] == updates[k] && updates[k..][1..] == updates[k + 1..];
        PrefixStep(start, updates, k);
        if updates[k] != [] {
          if !imports(d, updates[k]) {
            return;
          }
          d := d + {updates[k]};
        }
        k := k + 1;
      }
      assert updates[..k] == updates;
    }

    lemma PrefixStep(start: Doc, updates: seq<Bytes>, k: nat)
      requires k < |updates| && Spec.AllImport(imports, start, updates[..k])
      ensures var d := start + Spec.Members(Spec.NonEmpty(updates[..k]));
              && (updates[k] == [] ==> Spec.NonEmpty(updates[..k + 1]) == Spec.NonEmpty(updates[..k]))
              && (updates[k] != [] ==> Spec.NonEmpty(updates[..k + 1]) == Spec.NonEmpty(updates[..k]) + [updates[k]])
              && (updates[k] == [] || imports(d, updates[k]) ==> Spec.AllImport(imports, start, updates[..k + 1]))
    {
      assert updates[..k + 1] == updates[..k] + [updates[k]];
      SnocStep(start, updates[..k], updates[k]);
    }

    lemma {:induction false} SnocStep(start: Doc, us: seq<Bytes>, u: Bytes)
      requires Spec.AllImport(imports, start, us)
      ensures Spec.NonEmpty(us + [u]) == Spec.NonEmpty(us) + (if u == [] then [] else [u])
      ensures var d := start + Spec.Members(Spec.NonEmpty(us));
              u == [] || imports(d, u) ==> Spec.AllImport(imports, start, us + [u])
      decreases us
    {
      if us == [] {
        assert [u][1..] == [] && [] + [u] == [u];
        assert start + Spec.Members([]) == start;
      } else {
        assert (us + [u])[1..] == us[1..] + [u];
        if us[0] == [] {
          assert Spec.NonEmpty(us) == Spec.NonEmpty(us[1..]);
          SnocStep(start, us[1..], u);
        } else {
          SnocStep(start + {us[0]}, us[1..], u);
          Spec.MembersConcat([us[0]], Spec.NonEmpty(us[1..]));
          assert start + {us[0]} + Spec.Members(Spec.NonEmpty(us[1..])) == start + Spec.Members(Spec.NonEmpty(us));
        }
      }
    }

    /** The salvage loop: each update on its own, keeping those that import. */
    method Salvage(start: Doc, updates: seq<Bytes>) returns (d: Doc, imported: seq<Bytes>)
      ensures imported == Spec.Importable(imports, start, updates) && d == start + Spec.Members(imported)
      ensures Spec.AllTried(imports, start, d, updates) && Spec.KeptOf(imports, start, d, updates, imported)
    {
      Spec.EveryUpdateIsTried(imports, start, updates);
      d, imported := start, [];
      for i := 0 to |updates|
        invariant imported + Spec.Importable(imports, d, updates[i..]) == Spec.Importable(imports, start, updates)
        invariant d == start + Spec.Members(imported)
      {
        assert updates[i..][0] == updates[i] && updates[i..][1..] == updates[i + 1..];
        if updates[i] != [] && imports(d, updates[i]) {
          Spec.MembersConcat(imported, [updates[i]]);
          d, imported := d + {updates[i]}, imported + [updates[i]];
        }
      }
    }

    lemma NonEmptyStep(updates: seq<Bytes>, i: nat)
      requires i < |updates|
      ensures var rest := Spec.NonEmpty(updates[i + 1..]);
              && Spec.NonEmpty(updates[i..]) == (if updates[i] == [] then [] else [updates[i]]) + rest
              && TotalLength(Spec.NonEmpty(updates[i..])) == |updates[i]| + TotalLength(rest)
    {
      assert updates[i..][0] == updates[i] && updates[i..][1..] == updates[i + 1..];
      var rest := Spec.NonEmpty(updates[i + 1..]);
      if updates[i] == [] {
        assert [] + rest == rest;
      } else {
        assert ([updates[i]] + rest)[1..] == rest;
      }
    }

    lemma RecordOne(p: seq<Bytes>, updates: seq<Bytes>, i: nat)
      requires i < |updates|
      ensures var rest := Spec.NonEmpty(updates[i + 1..]);
              && p + Spec.NonEmpty(updates[i..]) == (if updates[i] == [] then p else p + [updates[i]]) + rest
              && TotalLength(Spec.NonEmpty(updates[i..])) == |updates[i]| + TotalLength(rest)
    {
      NonEmptyStep(updates, i);
    }

    /** `recordLoroUpdates`: buffer the non-empty updates and count their bytes. */
    method Record(updates: seq<Bytes>)
      modifies this`pending, this`pendingBytes
      ensures pending == old(pending) + Spec.NonEmpty(updates)
      ensures pendingBytes == old(pendingBytes) + TotalLength(Spec.NonEmpty(updates))
    {
      ghost var goal := pending + Spec.NonEmpty(updates);
      ghost var goalBytes := pendingBytes + TotalLength(Spec.NonEmpty(updates));
      assert updates[0..] == updates;
      for i := 0 to |updates|
        invariant pending + Spec.NonEmpty(updates[i..]) == goal
        invariant pendingBytes + TotalLength(Spec.NonEmpty(updates[i..])) == goalBytes
      {
        RecordOne(pending, updates, i);
        if updates[i] != [] {
          pending, pendingBytes := pending + [updates[i]], pendingBytes + |updates[i]|;
        }
      }
    }

    /** The two import passes of `applyUpdates`; `kept` is what it goes on to record and relay. */
    method ImportBatch(before: Doc, updates: seq<Bytes>) returns (ok: bool, d: Doc, kept: seq<Bytes>)
      requires Spec.Idempotent(imports)
      ensures ok <==> Spec.AllImport(imports, before, updates)
      ensures Spec.NonEmpty(kept) == Spec.Importable(imports, before, updates)
      ensures d == before + Spec.Members(Spec.Importable(imports, before, updates))
      ensures ok <==> Spec.ImportsInTurn(imports, before, updates)
      ensures Spec.AllTried(imports, before, d, updates)
      ensures Spec.KeptOf(imports, before, d, updates, Spec.NonEmpty(kept))
    {
      Spec.EveryUpdateIsTried(imports, before, updates);
      Spec.AllImportExactly(imports, before, updates);
      var k;
      d, k := ImportUntilFailure(before, updates);
      ok := k == |updates|;
      if ok {
        assert updates[..k] == updates;
        Spec.AllImportMeansImportable(imports, before, updates);
        kept := updates;
      } else {
        d, kept := Salvage(d, updates);
        Spec.SalvageEqualsOnePass(imports, before, updates, k);
        SalvagedDoc(before, updates, k);
        Spec.ImportableReplays(imports, before, updates);
        Spec.NonEmptyOfNonEmpty(kept);
      }
    }

    /** `applyUpdates` for a document batch. `relayed` is what the other members are sent. */
    method ApplyUpdates(device: Option<string>, now: nat, updates: seq<Bytes>, trim: bool)
      returns (ack: Ack, relayed: seq<Bytes>)
      requires Valid()
      modifies this
      ensures Valid()
      ensures View() == Spec.ApplyUpdates(imports, old(View()), device, now, updates, trim)
      ensures ack == Accepted <==>
                !Spec.Shut(old(View()), device, now, updates)
                && Spec.ImportsInTurn(imports, Spec.Held(old(View())), updates)
      ensures Spec.Shut(old(View()), device, now, updates) ==> relayed == [] && View() == old(View())
      ensures !Spec.Shut(old(View()), device, now, updates) ==>
                && Spec.AllTried(imports, Spec.Held(old(View())), Spec.Held(View()), updates)
                && Spec.KeptOf(imports, Spec.Held(old(View())), Spec.Held(View()), updates, Spec.NonEmpty(relayed))
    {
      Spec.ApplyKeepsOk(imports, View(), device, now, updates, trim);
      Spec.EnsureKeepsOk(imports, View(), trim);
      Spec.AllImportExactly(imports, Spec.Held(View()), updates);
      Spec.EveryUpdateIsTried(imports, Spec.Held(View()), updates);
      ack, relayed := ApplyBatch(device, now, updates, trim);
    }

    /** Its body, which needs no more than that importing again succeeds. */
    method ApplyBatch(device: Option<string>, now: nat, updates: seq<Bytes>, trim: bool)
      returns (ack: Ack, relayed: seq<Bytes>)
      requires Spec.Idempotent(imports)
      modifies this
      ensures View() == Spec.ApplyUpdates(imports, old(View()), device, now, updates, trim)
      ensures ack == Accepted <==>
                !Spec.Shut(old(View()), device, now, updates)
                && Spec.AllImport(imports, Spec.Replayed(imports, old(View())), updates)
      ensures Spec.NonEmpty(relayed) == Spec.Taken(imports, old(View()), device, now, updates)
      ensures Spec.Shut(old(View()), device, now, updates) ==> relayed == []
    {
      if Spec.Penalized(penalties, device, now) && TotalLength(updates) > Spec.PENALTY_PROBE_MAX_BYTES {
        return InvalidUpdate, [];
      }
      var before := EnsureDoc(trim);
      var ok, d;
      ok, d, relayed := ImportBatch(before, updates);
      doc := Some(d);
      penalties := if ok then Spec.Pardon(penalties, device) else Spec.Strike(penalties, device, now);
      Record(relayed);
      ack := if ok then Accepted else InvalidUpdate;
    }

    lemma SalvagedDoc(start: Doc, updates: seq<Bytes>, k: nat)
      requires Spec.Idempotent(imports) && k <= |updates| && Spec.AllImport(imports, start, updates[..k])
      ensures Spec.Members(Spec.NonEmpty(updates[..k])) <= Spec.Members(Spec.Importable(imports, start, updates))
      decreases updates
    {
      if k > 0 {
        assert updates[..k][1..] == updates[1..][..k - 1];
        if updates[0] == [] {
          SalvagedDoc(start, updates[1..], k - 1);
        } else {
          SalvagedDoc(start + {updates[0]}, updates[1..], k - 1);
          Spec.MembersConcat([updates[0]], Spec.NonEmpty(updates[1..][..k - 1]));
          Spec.MembersConcat([updates[0]], Spec.Importable(imports, start + {updates[0]}, updates[1..]));
        }
      }
    }

    /** `foldLog`: re-export the document as the snapshot and clear the log. */
    method FoldLog(trim: bool)
      modifies this
      ensures View() == Spec.FoldLog(imports, old(View()), trim)
    {
      var d := EnsureDoc(trim);
      snapshot := Some(d);
      log, updateBytes := [], 0;
    }

    /** `flush`: append the buffer to the log, then fold if either budget is passed. */
    method Flush(trim: bool)
      requires Valid()
      modifies this
      ensures Valid() && View() == Spec.Flush(imports, old(View()), trim)
    {
      Spec.FlushKeepsOk(imports, View(), trim);
      if pending == [] {
        return;
      }
      for i := 0 to |pending|
        invariant pending == old(pending) && snapshot == old(snapshot) && doc == old(doc) && penalties == old(penalties)
        invariant updateBytes == old(updateBytes) && pendingBytes == old(pendingBytes)
        invariant Spec.AppendRows(log, pending[i..]) == Spec.AppendRows(old(log), pending)
      {
        assert pending[i..][0] == pending[i] && pending[i..][1..] == pending[i + 1..];
        log := log + ChunkRows(pending[i]);
      }
      updateBytes := updateBytes + pendingBytes;
      pending, pendingBytes := [], 0;
      assert View() == Spec.Flushed(old(View()));
      if updateBytes > Spec.COMPACT_LOG_BYTES || |log| > Spec.COMPACT_LOG_ROWS {
        FoldLog(trim);
      }
    }

    /** `releaseIdleDoc`: a document quiet for long enough is freed; buffered updates stay. */
    method ReleaseIdleDoc(idle: nat)
      requires Valid()
      modifies this`doc
      ensures Valid()
      ensures doc == if idle < Spec.DOC_IDLE_RELEASE_MS then old(doc) else None
      ensures View() == if idle < Spec.DOC_IDLE_RELEASE_MS then old(View()) else Spec.Release(old(View()))
    {
      if doc.None? || idle < Spec.DOC_IDLE_RELEASE_MS {
        return;
      }
      doc := None;
    }
  }
}
