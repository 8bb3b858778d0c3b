/**
 * The import penalty of the session room (edge/src/session-room.ts:668-765): a device whose batches keep failing is
 * kept from pushing large ones. Over every run, who is shut out follows from the device's own record of batches.
 */
module SessionPenalty {
  import opened Options
  import opened Bytes
  import opened SessionStore

  /** The failures of a device since its last clean batch, and when the last of them came. */
  datatype Record = Record(failures: nat, lastAt: nat)

  const CLEAN := Record(0, 0)

  /** Three failures in a row, the last within ten minutes, and a batch above 4 KB. */
  predicate Barred(r: Record, now: nat, size: nat) {
    r.failures >= 3 && r.lastAt + 10 * 60 * 1000 > now && size > 4096
  }

  ghost function After(imports: Imports, events: seq<Event>): World {
    Run(imports, World(EMPTY_SESSION, {}), events)
  }

  /** A batch that is not turned away clears the record if all of it imports, and adds a failure if not. */
  ghost function RecordOf(imports: Imports, events: seq<Event>, device: string): Record {
    if events == [] then CLEAN
    else
      var pre, e := events[..|events| - 1], events[|events| - 1];
      var r := RecordOf(imports, pre, device);
      match e
      case Killed => CLEAN
      case Updates(from, now, updates, _) =>
        if from != Some(device) || Barred(r, now, TotalLength(updates)) then r
        else if ImportsInTurn(imports, Held(After(imports, pre).s), updates) then CLEAN
        else Record(r.failures + 1, now)
      case _ => r
  }

  /** The stored penalties are the records. */
  ghost predicate Noted(penalties: map<string, Penalty>, device: string, r: Record) {
    && (device in penalties <==> r.failures > 0)
    && (device in penalties ==> penalties[device] == Penalty(r.failures, r.lastAt + 10 * 60 * 1000))
  }

  lemma {:induction false} RunSnoc(imports: Imports, w: World, events: seq<Event>, e: Event)
    ensures Run(imports, w, events + [e]) == Step(imports, Run(imports, w, events), e)
    decreases events
  {
    if events == [] {
      assert [e][1..] == [];
    } else {
      assert (events + [e])[1..] == events[1..] + [e];
      RunSnoc(imports, Step(imports, w, events[0]), events[1..], e);
    }
  }

  lemma NotedMeansShut(s: Session, device: string, r: Record, now: nat, updates: seq<Bytes>)
    requires Noted(s.penalties, device, r)
    ensures Shut(s, Some(device), now, updates) <==> Barred(r, now, TotalLength(updates))
  {
  }

  lemma BatchIsNoted(
    imports: Imports, s: Session, device: string, r: Record, from: Option<string>, now: nat, updates: seq<Bytes>,
    trim: bool)
    requires Idempotent(imports) && SessionOk(imports, s) && Noted(s.penalties, device, r)
    ensures var r' := if from != Some(device) || Barred(r, now, TotalLength(updates)) then r
                      else if ImportsInTurn(imports, Held(s), updates) then CLEAN
                      else Record(r.failures + 1, now);
            Noted(ApplyUpdates(imports, s, from, now, updates, trim).penalties, device, r')
  {
    NotedMeansShut(s, device, r, now, updates);
    EnsureKeepsOk(imports, s, trim);
    AllImportExactly(imports, Held(s), updates);
  }

  lemma {:induction false} PenaltiesAreTheRecords(imports: Imports, events: seq<Event>, device: string)
    requires Idempotent(imports)
    ensures SessionOk(imports, After(imports, events).s)
    ensures Noted(After(imports, events).s.penalties, device, RecordOf(imports, events, device))
    decreases |events|
  {
    assert Inv(imports, World(EMPTY_SESSION, {}));
    RunKeepsInv(imports, World(EMPTY_SESSION, {}), events);
    if events != [] {
      var pre, e := events[..|events| - 1], events[|events| - 1];
      PenaltiesAreTheRecords(imports, pre, device);
      assert pre + [e] == events;
      RunSnoc(imports, World(EMPTY_SESSION, {}), pre, e);
      if e.Updates? {
        BatchIsNoted(imports, After(imports, pre).s, device, RecordOf(imports, pre, device), e.device, e.now, e.updates,
                     e.trim);
      }
    }
  }

  /**
   * In every run a batch is turned away unread exactly when its device's last three batches failed, the last of them
   * within ten minutes, and it is above 4 KB; a batch without a device never is.
   */
  lemma ShutOutExactly(imports: Imports, events: seq<Event>, device: Option<string>, now: nat, updates: seq<Bytes>)
    requires Idempotent(imports)
    ensures Shut(After(imports, events).s, device, now, updates) <==>
            device.Some? && Barred(RecordOf(imports, events, device.value), now, TotalLength(updates))
  {
    if device.Some? {
      PenaltiesAreTheRecords(imports, events, device.value);
      NotedMeansShut(After(imports, events).s, device.value, RecordOf(imports, events, device.value), now, updates);
    }
  }
}
