/**
 * The device room's nudge handlers over their own tables (edge/src/device-nudges.ts:16-39,
 * edge/src/device-room.ts:151-287, 336-353). Each handler is one step of NudgeRuns.
 */
module DeviceRoom {
  import opened Options
  import opened Nudges
  import Runs = NudgeRuns

  const HOST_LIVENESS_MS: int := 75_000

  /** A host socket and when it last proved itself alive. */
  datatype Candidate = Candidate(ws: nat, lastSeenAt: int)

  /** Candidate `i` may be picked: it is not the socket whose close is being handled. */
  predicate Eligible(hosts: seq<Candidate>, exclude: Option<nat>, i: nat)
    requires i < |hosts|
  {
    exclude != Some(hosts[i].ws)
  }

  /**
   * `i` is the freshest eligible one of the first `n` candidates, the earliest of them if several are equally fresh.
   */
  ghost predicate Freshest(hosts: seq<Candidate>, n: nat, exclude: Option<nat>, i: nat)
    requires n <= |hosts|
  {
    && i < n && Eligible(hosts, exclude, i)
    && (forall j :: 0 <= j < n && Eligible(hosts, exclude, j) ==> hosts[j].lastSeenAt <= hosts[i].lastSeenAt)
    && (forall j :: 0 <= j < i && Eligible(hosts, exclude, j) ==> hosts[j].lastSeenAt < hosts[i].lastSeenAt)
  }

  predicate IsLive(host: Candidate, now: int) {
    now - host.lastSeenAt <= HOST_LIVENESS_MS
  }

  /** A host is picked exactly when some eligible socket is live, and then it is the freshest of all of them. */
  ghost predicate Picked(hosts: seq<Candidate>, now: int, exclude: Option<nat>, live: Option<nat>) {
    && (live.Some? <==> exists i :: 0 <= i < |hosts| && Eligible(hosts, exclude, i) && IsLive(hosts[i], now))
    && (live.Some? ==> exists i: nat :: Freshest(hosts, |hosts|, exclude, i) && hosts[i].ws == live.value)
  }

  method PickLiveHost(hosts: seq<Candidate>, now: int, exclude: Option<nat>) returns (live: Option<nat>)
    ensures Picked(hosts, now, exclude, live)
  {
    var best: Option<Candidate> := None;
    ghost var at: nat := 0;
    var n: nat := 0;
    while n < |hosts|
      invariant n <= |hosts|
      invariant best.None? ==> forall j :: 0 <= j < n ==> !Eligible(hosts, exclude, j)
      invariant best.Some? ==> at < n && hosts[at] == best.value && Freshest(hosts, n, exclude, at)
    {
      var host := hosts[n];
      if exclude != Some(host.ws) && (best.None? || host.lastSeenAt > best.value.lastSeenAt) {
        best, at := Some(host), n;
      }
      n := n + 1;
    }
    if best.Some? && now - best.value.lastSeenAt <= HOST_LIVENESS_MS {
      assert Eligible(hosts, exclude, at);
      return Some(best.value.ws);
    }
    return None;
  }

  /** `SELECT … ORDER BY queued_at, chat_id LIMIT ?`. */
  method SelectOldest(pending: map<string, Row>, limit: nat) returns (rows: seq<Nudge>)
    ensures rows == FirstRows(pending, limit)
  {
    rows := [];
    var rest, n := pending, limit;
    while n > 0 && |rest| > 0
      invariant rows + FirstRows(rest, n) == FirstRows(pending, limit)
    {
      var c := OldestChat(rest);
      EarliestIsUnique(rest, c, Earliest(rest));
      assert rows + FirstRows(rest, n) == (rows + [Nudge(c, rest[c].token)]) + FirstRows(rest - {c}, n - 1);
      rows := rows + [Nudge(c, rest[c].token)];
      rest, n := rest - {c}, n - 1;
    }
    assert FirstRows(rest, n) == [];
  }

  method OldestChat(pending: map<string, Row>) returns (c: string)
    requires |pending| > 0
    ensures IsEarliest(pending, c)
  {
    c :| c in pending;
    var left := pending.Keys - {c};
    while left != {}
      invariant left <= pending.Keys && c in pending && c !in left
      invariant forall d :: d in pending && d !in left && d != c ==> Precedes(pending, c, d)
    {
      var d :| d in left;
      PrecedesIsTotal(pending, c, d);
      if Precedes(pending, d, c) {
        forall e | e in pending && e !in left && e != c ensures Precedes(pending, d, e) {
          PrecedesIsTransitive(pending, d, c, e);
        }
        left, c := left - {d}, d;
      } else {
        left := left - {d};
      }
    }
  }

  datatype Answer = BadChatId | QueueFull | Queued(delivered: bool)

  class Room {
    var pending: map<string, Row>
    var reconcile: Option<Token>
    var hosts: map<nat, Host>

    ghost function State(): Runs.Room
      reads this
    {
      Runs.Room(Queue(pending, reconcile), hosts)
    }

    constructor ()
      ensures State() == Runs.EMPTY
    {
      pending, reconcile, hosts := map[], None, map[];
    }

    method EnqueueNudge(chatId: string, now: int, token: Token) returns (queued: bool)
      modifies this`pending, this`reconcile
      ensures queued == Accepts(old(Queue(pending, reconcile)), chatId)
      ensures queued <==> chatId in old(pending) || |old(pending)| < 4096
      ensures pending == if queued then old(pending)[chatId := Row(now, token)] else old(pending)
      ensures reconcile == if queued then old(reconcile) else Some(token)
      ensures Queue(pending, reconcile) == Enqueue(old(Queue(pending, reconcile)), chatId, now, token)
    {
      if chatId !in pending && |pending| >= NUDGE_CAP {
        reconcile := Some(token);
        return false;
      }
      pending := pending[chatId := Row(now, token)];
      return true;
    }

    method PendingNudges() returns (rows: seq<Nudge>)
      ensures rows == Window(Queue(pending, reconcile))
    {
      rows := SelectOldest(pending, NUDGE_PAGE * 2);
      if reconcile.Some? {
        rows := [Nudge(EVERYTHING, reconcile.value)] + rows;
      }
    }

    method AcknowledgeNudge(chatId: string, token: Token)
      modifies this`pending, this`reconcile
      ensures Queue(pending, reconcile) == Acknowledge(old(Queue(pending, reconcile)), chatId, token)
    {
      if chatId == EVERYTHING {
        if reconcile == Some(token) {
          reconcile := None;
        }
      } else if chatId in pending && pending[chatId].token == token {
        pending := pending - {chatId};
      }
    }

    /** The delivery loop over `rows`; gives back the tokens now in flight and the frames sent. */
    method DeliverRows(ack: bool, before: set<Token>, rows: seq<Nudge>)
        returns (inflight: set<Token>, frames: seq<Nudge>)
      modifies this`pending, this`reconcile
      ensures Replayed(Queue(pending, reconcile), Host(ack, inflight), frames) ==
          ReplayRows(old(Queue(pending, reconcile)), Host(ack, before), rows, 0)
    {
      inflight, frames := before, [];
      ghost var goal := ReplayRows(Queue(pending, reconcile), Host(ack, before), rows, 0);
      var i := 0;
      while i < |rows|
        invariant 0 <= i <= |rows|
        invariant goal == Behind(frames,
            ReplayRows(Queue(pending, reconcile), Host(ack, inflight), rows[i..], |frames|))
      {
        var row := rows[i];
        assert rows[i..][1..] == rows[i + 1..];
        i := i + 1;
        if ack && row.token in inflight {
          continue;
        }
        if (if ack then |inflight| >= NUDGE_PAGE else |frames| >= NUDGE_PAGE) {
          break;
        }
        if row.chatId == EVERYTHING && !ack {
          continue;
        }
        ghost var sofar := frames;
        frames := frames + [row];
        if ack {
          inflight := inflight + {row.token};
        } else {
          AcknowledgeNudge(row.chatId, row.token);
        }
        BehindOneMore(sofar, row, ReplayRows(Queue(pending, reconcile), Host(ack, inflight), rows[i..], |frames|));
      }
    }

    /** Sends queued wakes to `host` until its page is full; the result is the frames sent. */
    method ReplayNudges(host: nat) returns (frames: seq<Nudge>)
      requires host in hosts
      modifies this
      ensures var after := old(Runs.ReplayTo(State(), host));
              frames == after.sent && State() == Runs.Room(after.queue, old(hosts)[host := after.host])
    {
      var rows := PendingNudges();
      var inflight: set<Token>;
      inflight, frames := DeliverRows(hosts[host].ack, hosts[host].inflight, rows);
      hosts := hosts[host := Host(hosts[host].ack, inflight)];
    }

    /** The POST /nudge handler. */
    method PostNudge(chatId: string, now: int, token: Token, sockets: seq<Candidate>)
        returns (answer: Answer, frames: seq<Nudge>, ghost live: Option<nat>)
      requires forall s :: s in sockets ==> s.ws in hosts
      modifies this
      ensures Picked(sockets, now, None, live)
      ensures var e := Runs.Wake(chatId, now, token, live);
              && State() == Runs.Step(old(State()), e) && frames == Runs.Sent(old(State()), e)
              && answer == if !ValidChatId(chatId) then BadChatId
                           else if chatId !in old(pending) && |old(pending)| >= 4096 then QueueFull
                           else Queued(live.Some?)
    {
      var host := PickLiveHost(sockets, now, None);
      live, frames := host, [];
      if !ValidChatId(chatId) {
        return BadChatId, [], live;
      }
      var queued := EnqueueNudge(chatId, now, token);
      if host.Some? {
        frames := ReplayNudges(host.value);
      }
      answer := if queued then Queued(host.Some?) else QueueFull;
    }

    /** A host socket joins. */
    method JoinHost(host: nat, ack: bool) returns (frames: seq<Nudge>)
      modifies this
      ensures State() == Runs.Step(old(State()), Runs.Joins(host, ack))
          && frames == Runs.Sent(old(State()), Runs.Joins(host, ack))
    {
      hosts := hosts[host := Host(ack, {})];
      frames := ReplayNudges(host);
    }

    /** The acknowledgement branch of the message handler. */
    method HandleNudgeAck(host: nat, chatId: string, token: Token) returns (frames: seq<Nudge>)
      requires host in hosts
      modifies this
      ensures var e := Runs.Acks(host, chatId, token);
              State() == Runs.Step(old(State()), e) && frames == Runs.Sent(old(State()), e)
    {
      if !hosts[host].ack {
        return [];
      }
      AcknowledgeNudge(chatId, token);
      hosts := hosts[host := Host(true, hosts[host].inflight - {token})];
      frames := ReplayNudges(host);
    }

    /** The alarm: whatever is still queued is sent again to the live host. */
    method HandleAlarm(now: int, sockets: seq<Candidate>) returns (frames: seq<Nudge>, ghost live: Option<nat>)
      requires forall s :: s in sockets ==> s.ws in hosts
      modifies this
      ensures Picked(sockets, now, None, live)
      ensures State() == Runs.Step(old(State()), Runs.Alarm(live))
          && frames == Runs.Sent(old(State()), Runs.Alarm(live))
    {
      var host := PickLiveHost(sockets, now, None);
      live := host;
      if host.None? {
        return [], live;
      }
      hosts := hosts[host.value := hosts[host.value].(inflight := {})];
      frames := ReplayNudges(host.value);
    }
  }

  lemma BehindOneMore(frames: seq<Nudge>, row: Nudge, after: Replayed)
    ensures Behind(frames + [row], after) == Behind(frames, after.(sent := [row] + after.sent))
  {
    assert frames + [row] + after.sent == frames + ([row] + after.sent);
  }

  /** A replay that already sent `frames`, seen from its start. */
  function Behind(frames: seq<Nudge>, after: Replayed): Replayed {
    after.(sent := frames + after.sent)
  }
}
