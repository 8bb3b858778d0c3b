/**
 * Durable wakes (edge/src/device-nudges.ts, edge/src/device-room.ts:227-287): a bounded queue of chats to wake,
 * fenced by tokens, replayed to the device's host through a bounded in-flight window.
 */
module Nudges {
  import opened Options
  import opened Hlc

  const NUDGE_PAGE: nat := 64
  const NUDGE_CAP: nat := 4096

  type Token = string

  /** The chat id under which a refused wake asks the host to reconcile everything. */
  const EVERYTHING := "*"

  datatype Row = Row(queuedAt: int, token: Token)
  datatype Queue = Queue(pending: map<string, Row>, reconcile: Option<Token>)
  datatype Nudge = Nudge(chatId: string, token: Token)

  /** What a host socket's attachment keeps: whether it acknowledges, and the tokens sent and not yet acknowledged. */
  datatype Host = Host(ack: bool, inflight: set<Token>)

  predicate ChatIdChar(c: char) {
    'A' <= c <= 'Z' || 'a' <= c <= 'z' || '0' <= c <= '9' || c == '_' || c == '-'
  }

  predicate ValidChatId(id: string) {
    1 <= |id| <= 64 && forall i :: 0 <= i < |id| ==> ChatIdChar(id[i])
  }

  // ---------- the queue ----------

  predicate Accepts(q: Queue, chatId: string) {
    chatId in q.pending || |q.pending| < NUDGE_CAP
  }

  function Enqueue(q: Queue, chatId: string, now: int, token: Token): Queue {
    if Accepts(q, chatId) then q.(pending := q.pending[chatId := Row(now, token)])
    else q.(reconcile := Some(token))
  }

  function Acknowledge(q: Queue, chatId: string, token: Token): Queue {
    if chatId == EVERYTHING then (if q.reconcile == Some(token) then q.(reconcile := None) else q)
    else if chatId in q.pending && q.pending[chatId].token == token then q.(pending := q.pending - {chatId})
    else q
  }

  /** `ORDER BY queued_at, chat_id`. */
  predicate Precedes(pending: map<string, Row>, c: string, d: string)
    requires c in pending && d in pending
  {
    pending[c].queuedAt < pending[d].queuedAt || (pending[c].queuedAt == pending[d].queuedAt && Less(c, d))
  }

  predicate IsEarliest(pending: map<string, Row>, c: string) {
    c in pending && forall d :: d in pending && d != c ==> Precedes(pending, c, d)
  }

  lemma PrecedesIsTotal(pending: map<string, Row>, c: string, d: string)
    requires c in pending && d in pending && c != d
    ensures Precedes(pending, c, d) <==> !Precedes(pending, d, c)
  {
    LessTrichotomy(c, d);
  }

  lemma PrecedesIsTransitive(pending: map<string, Row>, a: string, b: string, c: string)
    requires a in pending && b in pending && c in pending && Precedes(pending, a, b) && Precedes(pending, b, c)
    ensures Precedes(pending, a, c)
  {
    if pending[a].queuedAt == pending[c].queuedAt {
      LessTransitive(a, b, c);
    }
  }

  lemma {:induction false} EarliestExists(pending: map<string, Row>)
    requires pending != map[]
    ensures exists c :: IsEarliest(pending, c)
    decreases |pending|
  {
    var x :| x in pending;
    var rest := pending - {x};
    if rest == map[] {
      assert forall d :: d in pending ==> d == x || d in rest;
      assert IsEarliest(pending, x);
    } else {
      EarliestExists(rest);
      var c :| IsEarliest(rest, c);
      PrecedesIsTotal(pending, c, x);
      if Precedes(pending, c, x) {
        EarlierThanRest(pending, c, x, c);
      } else {
        EarlierThanRest(pending, c, x, x);
      }
    }
  }

  lemma EarlierThanRest(pending: map<string, Row>, c: string, x: string, winner: string)
    requires x in pending && IsEarliest(pending - {x}, c)
    requires c in pending && c != x && (winner == c || winner == x)
    requires Precedes(pending, winner, if winner == c then x else c)
    ensures IsEarliest(pending, winner)
  {
    forall d | d in pending && d != winner ensures Precedes(pending, winner, d) {
      if d != x && d != c {
        assert d in pending - {x};
        assert Precedes(pending - {x}, c, d);
        if winner == x {
          PrecedesIsTransitive(pending, x, c, d);
        }
      }
    }
  }

  lemma EarliestIsUnique(pending: map<string, Row>, c: string, d: string)
    requires IsEarliest(pending, c) && IsEarliest(pending, d)
    ensures c == d
  {
    if c != d {
      PrecedesIsTotal(pending, c, d);
    }
  }

  ghost function Earliest(pending: map<string, Row>): (c: string)
    requires pending != map[]
    ensures IsEarliest(pending, c)
  {
    EarliestExists(pending);
    var c :| IsEarliest(pending, c);
    c
  }

  /** The first `limit` rows in queue order. */
  ghost function FirstRows(pending: map<string, Row>, limit: nat): seq<Nudge> {
    if limit == 0 || pending == map[] then []
    else
      var c := Earliest(pending);
      [Nudge(c, pending[c].token)] + FirstRows(pending - {c}, limit - 1)
  }

  /** What a replay looks at: the reconciliation, then two pages of the oldest wakes. */
  ghost function Window(q: Queue): seq<Nudge> {
    (if q.reconcile.Some? then [Nudge(EVERYTHING, q.reconcile.value)] else []) + FirstRows(q.pending, NUDGE_PAGE * 2)
  }

  ghost predicate DistinctChats(rows: seq<Nudge>) {
    forall i, j :: 0 <= i < j < |rows| ==> rows[i].chatId != rows[j].chatId
  }

  /** The rows of the window: current, one per chat, and no more of them left out than must be. */
  lemma {:induction false} FirstRowsAreCurrent(pending: map<string, Row>, limit: nat)
    ensures forall r :: r in FirstRows(pending, limit) ==> r.chatId in pending && r.token == pending[r.chatId].token
    ensures |FirstRows(pending, limit)| == if limit <= |pending| then limit else |pending|
    ensures DistinctChats(FirstRows(pending, limit))
    decreases limit
  {
    if limit > 0 && pending != map[] {
      var c := Earliest(pending);
      FirstRowsAreCurrent(pending - {c}, limit - 1);
      assert pending.Keys == (pending - {c}).Keys + {c};
    }
  }

  /** The rows come in queue order: by time, then by chat. */
  lemma {:induction false} FirstRowsAreInOrder(pending: map<string, Row>, limit: nat)
    ensures var rows := FirstRows(pending, limit);
            forall i, j :: 0 <= i < j < |rows| ==>
                rows[i].chatId in pending && rows[j].chatId in pending
                && Precedes(pending, rows[i].chatId, rows[j].chatId)
    decreases limit
  {
    if limit > 0 && pending != map[] {
      var c := Earliest(pending);
      var rest := pending - {c};
      var tail := FirstRows(rest, limit - 1);
      FirstRowsAreInOrder(rest, limit - 1);
      FirstRowsAreCurrent(rest, limit - 1);
      forall i, j | 0 <= i < j < |tail| + 1
        ensures var rows := [Nudge(c, pending[c].token)] + tail;
                rows[i].chatId in pending && rows[j].chatId in pending
                && Precedes(pending, rows[i].chatId, rows[j].chatId)
      {
        assert tail[j - 1] in tail;
        if i > 0 {
          assert Precedes(rest, tail[i - 1].chatId, tail[j - 1].chatId);
        }
      }
    }
  }

  /** First come, first served: a wake left out of the window was queued after every wake inside it. */
  lemma {:induction false} WindowHoldsTheOldest(pending: map<string, Row>, limit: nat, r: Nudge, d: string)
    requires r in FirstRows(pending, limit) && r.chatId in pending && d in pending
    requires forall s :: s in FirstRows(pending, limit) ==> s.chatId != d
    ensures Precedes(pending, r.chatId, d)
    decreases limit
  {
    var c := Earliest(pending);
    var rest := pending - {c};
    var rows := FirstRows(rest, limit - 1);
    assert FirstRows(pending, limit) == [Nudge(c, pending[c].token)] + rows;
    assert forall s :: s in rows ==> s in FirstRows(pending, limit);
    assert FirstRows(pending, limit)[0].chatId != d;
    if r.chatId != c {
      assert r in rows;
      WindowHoldsTheOldest(rest, limit - 1, r, d);
      assert Precedes(rest, r.chatId, d);
    }
  }

  lemma {:induction false} EveryRowIsFirst(pending: map<string, Row>, limit: nat)
    requires |pending| <= limit
    ensures forall c :: c in pending ==> Nudge(c, pending[c].token) in FirstRows(pending, limit)
    decreases limit
  {
    if pending != map[] {
      var e := Earliest(pending);
      assert pending.Keys == (pending - {e}).Keys + {e};
      EveryRowIsFirst(pending - {e}, limit - 1);
      forall c | c in pending ensures Nudge(c, pending[c].token) in FirstRows(pending, limit) {
        if c != e {
          assert c in pending - {e};
        }
      }
    } else {
      assert forall c :: c !in pending;
    }
  }

  // ---------- one replay ----------

  datatype Replayed = Replayed(queue: Queue, host: Host, sent: seq<Nudge>)

  /** The replay loop over `rows`, `count` frames already sent by it. */
  function ReplayRows(q: Queue, host: Host, rows: seq<Nudge>, count: nat): Replayed
    decreases rows
  {
    if rows == [] then Replayed(q, host, [])
    else
      var r := rows[0];
      if host.ack && r.token in host.inflight then ReplayRows(q, host, rows[1..], count)
      else if (if host.ack then |host.inflight| >= NUDGE_PAGE else count >= NUDGE_PAGE) then Replayed(q, host, [])
      else if r.chatId == EVERYTHING && !host.ack then ReplayRows(q, host, rows[1..], count)
      else
        var host' := if host.ack then host.(inflight := host.inflight + {r.token}) else host;
        var q' := if host.ack then q else Acknowledge(q, r.chatId, r.token);
        var after := ReplayRows(q', host', rows[1..], count + 1);
        after.(sent := [r] + after.sent)
  }

  ghost function Replay(q: Queue, host: Host): Replayed {
    ReplayRows(q, host, Window(q), 0)
  }

  /** Exactly what a replay retires: nothing for a host that acknowledges, else just what it was sent. */
  lemma {:induction false} ReplayRetires(q: Queue, host: Host, rows: seq<Nudge>, count: nat, c: string)
    requires c != EVERYTHING
    ensures var q' := ReplayRows(q, host, rows, count).queue;
            && (c in q'.pending <==>
                c in q.pending && (host.ack || Nudge(c, q.pending[c].token) !in ReplayRows(q, host, rows, count).sent))
            && (c in q'.pending ==> q'.pending[c] == q.pending[c])
            && q'.reconcile == q.reconcile
    decreases rows
  {
    if rows != [] {
      var r := rows[0];
      if host.ack && r.token in host.inflight {
        ReplayRetires(q, host, rows[1..], count, c);
      } else if if host.ack then |host.inflight| >= NUDGE_PAGE else count >= NUDGE_PAGE {
      } else if r.chatId == EVERYTHING && !host.ack {
        ReplayRetires(q, host, rows[1..], count, c);
      } else {
        var host' := if host.ack then host.(inflight := host.inflight + {r.token}) else host;
        var q' := if host.ack then q else Acknowledge(q, r.chatId, r.token);
        ReplayRetires(q', host', rows[1..], count + 1, c);
        assert ReplayRows(q, host, rows, count).sent == [r] + ReplayRows(q', host', rows[1..], count + 1).sent;
      }
    }
  }

  lemma ReplayShrinksQueue(q: Queue, host: Host)
    requires EVERYTHING !in q.pending
    ensures Replay(q, host).queue.pending.Keys <= q.pending.Keys
    ensures |Replay(q, host).queue.pending| <= |q.pending|
    ensures host.ack ==> Replay(q, host).queue == q
  {
    var q' := Replay(q, host).queue;
    forall c | c in q'.pending ensures c in q.pending {
      if c != EVERYTHING { ReplayRetires(q, host, Window(q), 0, c); }
      else { NothingAdded(q, host, Window(q), 0); }
    }
    SmallerKeys(q'.pending, q.pending);
    if host.ack {
      AckReplayKeepsQueue(q, host, Window(q), 0);
    }
  }

  lemma SmallerKeys<K, V>(m: map<K, V>, n: map<K, V>)
    requires m.Keys <= n.Keys
    ensures |m| <= |n|
  {
    SubsetSize(m.Keys, n.Keys);
  }

  lemma {:induction false} SubsetSize<T>(a: set<T>, b: set<T>)
    requires a <= b
    ensures |a| <= |b| && (|a| == |b| ==> a == b)
  {
    assert b == a + (b - a);
  }

  lemma {:induction false} NothingAdded(q: Queue, host: Host, rows: seq<Nudge>, count: nat)
    requires EVERYTHING !in q.pending
    ensures EVERYTHING !in ReplayRows(q, host, rows, count).queue.pending
    decreases rows
  {
    if rows != [] {
      var r := rows[0];
      var host' := if host.ack then host.(inflight := host.inflight + {r.token}) else host;
      var q' := if host.ack then q else Acknowledge(q, r.chatId, r.token);
      NothingAdded(q, host, rows[1..], count);
      NothingAdded(q', host', rows[1..], count + 1);
    }
  }

  lemma {:induction false} AckReplayKeepsQueue(q: Queue, host: Host, rows: seq<Nudge>, count: nat)
    requires host.ack
    ensures ReplayRows(q, host, rows, count).queue == q
    decreases rows
  {
    if rows != [] {
      AckReplayKeepsQueue(q, host, rows[1..], count);
      AckReplayKeepsQueue(q, host.(inflight := host.inflight + {rows[0].token}), rows[1..], count + 1);
    }
  }

  function Tokens(rows: seq<Nudge>): set<Token> {
    set r | r in rows :: r.token
  }

  /** A receipt is in flight after a replay exactly when it was before or the replay sent it. */
  lemma {:induction false} ReceiptInFlight(q: Queue, host: Host, rows: seq<Nudge>, count: nat, t: Token)
    ensures var after := ReplayRows(q, host, rows, count);
            && after.host.ack == host.ack
            && (t in after.host.inflight <==> t in host.inflight || (host.ack && t in Tokens(after.sent)))
            && (host.ack && t in Tokens(after.sent) ==> t !in host.inflight)
    decreases rows
  {
    if rows != [] {
      var r := rows[0];
      if host.ack && r.token in host.inflight {
        ReceiptInFlight(q, host, rows[1..], count, t);
      } else if if host.ack then |host.inflight| >= NUDGE_PAGE else count >= NUDGE_PAGE {
      } else if r.chatId == EVERYTHING && !host.ack {
        ReceiptInFlight(q, host, rows[1..], count, t);
      } else {
        var host' := if host.ack then host.(inflight := host.inflight + {r.token}) else host;
        var q' := if host.ack then q else Acknowledge(q, r.chatId, r.token);
        var rest := ReplayRows(q', host', rows[1..], count + 1);
        ReceiptInFlight(q', host', rows[1..], count + 1, t);
        SentTokens(r, rest.sent, t);
      }
    }
  }

  lemma SentTokens(r: Nudge, sent: seq<Nudge>, t: Token)
    ensures t in Tokens([r] + sent) <==> t == r.token || t in Tokens(sent)
  {
    if t in Tokens(sent) {
      var s :| s in sent && s.token == t;
      assert s in [r] + sent;
    }
    if t == r.token {
      assert ([r] + sent)[0] == r;
    }
  }

  /** What goes out to a host that acknowledges is what comes into flight, none of it twice. */
  lemma SentIsInFlight(q: Queue, host: Host, rows: seq<Nudge>, count: nat)
    ensures var after := ReplayRows(q, host, rows, count);
            && after.host.ack == host.ack
            && after.host.inflight == host.inflight + (if host.ack then Tokens(after.sent) else {})
            && (host.ack ==> Tokens(after.sent) !! host.inflight)
  {
    var after := ReplayRows(q, host, rows, count);
    ReceiptInFlight(q, host, rows, count, "");
    forall t ensures t in after.host.inflight <==> t in host.inflight || (host.ack && t in Tokens(after.sent))
             ensures host.ack && t in Tokens(after.sent) ==> t !in host.inflight {
      ReceiptInFlight(q, host, rows, count, t);
    }
  }

  /** At most a page goes out, and at most a page is ever in flight. */
  lemma {:induction false} WindowIsBounded(q: Queue, host: Host, rows: seq<Nudge>, count: nat)
    requires |host.inflight| <= NUDGE_PAGE && count <= NUDGE_PAGE
    ensures var after := ReplayRows(q, host, rows, count);
            && |after.host.inflight| <= NUDGE_PAGE
            && |after.sent| + (if host.ack then |host.inflight| else count) <= NUDGE_PAGE
    decreases rows
  {
    if rows != [] {
      var r := rows[0];
      WindowIsBounded(q, host, rows[1..], count);
      if (if host.ack then |host.inflight| else count) < NUDGE_PAGE {
        var host' := if host.ack then host.(inflight := host.inflight + {r.token}) else host;
        var q' := if host.ack then q else Acknowledge(q, r.chatId, r.token);
        WindowIsBounded(q', host', rows[1..], if host.ack then 0 else count + 1);
        if host.ack {
          CountUnusedByAckHosts(q', host', rows[1..], 0, count + 1);
        }
      }
    }
  }

  lemma {:induction false} CountUnusedByAckHosts(q: Queue, host: Host, rows: seq<Nudge>, count: nat, count': nat)
    requires host.ack
    ensures ReplayRows(q, host, rows, count) == ReplayRows(q, host, rows, count')
    decreases rows
  {
    if rows != [] {
      CountUnusedByAckHosts(q, host, rows[1..], count, count');
      CountUnusedByAckHosts(q, host.(inflight := host.inflight + {rows[0].token}), rows[1..], count + 1, count' + 1);
    }
  }

  /** A replay that stops short of a full page has put every row it was given in flight. */
  lemma {:induction false} ReplaySendsAll(q: Queue, host: Host, rows: seq<Nudge>, count: nat)
    requires host.ack && |ReplayRows(q, host, rows, count).host.inflight| < NUDGE_PAGE
    ensures host.inflight <= ReplayRows(q, host, rows, count).host.inflight
    ensures forall r :: r in rows ==> r.token in ReplayRows(q, host, rows, count).host.inflight
    decreases rows
  {
    if rows != [] {
      var r := rows[0];
      if r.token in host.inflight {
        ReplaySendsAll(q, host, rows[1..], count);
      } else {
        ReplaySendsAll(q, host.(inflight := host.inflight + {r.token}), rows[1..], count + 1);
      }
    }
  }

  ghost predicate DistinctTokens(q: Queue) {
    && (forall c, d :: c in q.pending && d in q.pending && c != d ==> q.pending[c].token != q.pending[d].token)
    && (q.reconcile.Some? ==> forall c :: c in q.pending ==> q.pending[c].token != q.reconcile.value)
  }

  lemma {:induction false} DistinctRowsManyTokens(rows: seq<Nudge>)
    requires forall i, j :: 0 <= i < j < |rows| ==> rows[i].token != rows[j].token
    ensures |Tokens(rows)| == |rows|
  {
    if rows != [] {
      DistinctRowsManyTokens(rows[1..]);
      assert rows == [rows[0]] + rows[1..];
      assert Tokens(rows) == {rows[0].token} + Tokens(rows[1..]);
    }
  }

  /** Rows of distinct tokens, all in flight in less than a page, are themselves less than a page. */
  lemma FewRowsInFlight(q: Queue, inflight: set<Token>)
    requires DistinctTokens(q) && |inflight| < NUDGE_PAGE
    requires forall r :: r in FirstRows(q.pending, NUDGE_PAGE * 2) ==> r.token in inflight
    ensures forall c :: c in q.pending ==> q.pending[c].token in inflight
  {
    var rows := FirstRows(q.pending, NUDGE_PAGE * 2);
    FirstRowsAreCurrent(q.pending, NUDGE_PAGE * 2);
    forall i, j | 0 <= i < j < |rows| ensures rows[i].token != rows[j].token {
      assert rows[i] in rows && rows[j] in rows;
    }
    DistinctRowsManyTokens(rows);
    SubsetSize(Tokens(rows), inflight);
    EveryRowIsFirst(q.pending, NUDGE_PAGE * 2);
  }

  /** After a replay to a host that acknowledges, either its page is full or everything queued is in flight. */
  lemma ReplayFillsTheWindow(q: Queue, host: Host)
    requires host.ack && |host.inflight| <= NUDGE_PAGE && DistinctTokens(q)
    ensures var inflight := Replay(q, host).host.inflight;
            || |inflight| == NUDGE_PAGE
            || ((forall c :: c in q.pending ==> q.pending[c].token in inflight)
                && (q.reconcile.Some? ==> q.reconcile.value in inflight))
  {
    var rows := Window(q);
    var inflight := ReplayRows(q, host, rows, 0).host.inflight;
    WindowIsBounded(q, host, rows, 0);
    if |inflight| < NUDGE_PAGE {
      ReplaySendsAll(q, host, rows, 0);
      assert forall r :: r in FirstRows(q.pending, NUDGE_PAGE * 2) ==> r in rows;
      assert q.reconcile.Some? ==> rows[0].token == q.reconcile.value;
      FewRowsInFlight(q, inflight);
    }
  }

  /** Two pages are enough: with room in flight and a wake that is not, a replay always sends something. */
  lemma ReplayMakesProgress(q: Queue, host: Host, c: string)
    requires host.ack && |host.inflight| < NUDGE_PAGE && DistinctTokens(q)
    requires c in q.pending && q.pending[c].token !in host.inflight
    ensures Replay(q, host).sent != []
  {
    ReplayFillsTheWindow(q, host);
    SentIsInFlight(q, host, Window(q), 0);
  }

  // ---------- exactly what a replay from nothing in flight sends ----------

  ghost predicate DistinctRowTokens(rows: seq<Nudge>) {
    forall i, j :: 0 <= i < j < |rows| ==> rows[i].token != rows[j].token
  }

  function Lesser(a: nat, b: nat): nat {
    if a < b then a else b
  }

  /** The rows still to be sent to a host: not those in flight to it, and no reconciliation it could not acknowledge. */
  function Due(rows: seq<Nudge>, host: Host): seq<Nudge> {
    if rows == [] then []
    else
      var skip := if host.ack then rows[0].token in host.inflight else rows[0].chatId == EVERYTHING;
      (if skip then [] else [rows[0]]) + Due(rows[1..], host)
  }

  lemma {:induction false} OtherReceiptsStayDue(rows: seq<Nudge>, host: Host, t: Token)
    requires host.ack && forall r :: r in rows ==> r.token != t
    ensures Due(rows, host.(inflight := host.inflight + {t})) == Due(rows, host)
  {
    if rows != [] {
      assert rows[0] in rows && forall r :: r in rows[1..] ==> r in rows;
      OtherReceiptsStayDue(rows[1..], host, t);
    }
  }

  /**
   * Exactly what a replay sends: what is due, oldest first, until the page is full. A page counts what is in flight for
   * a host that acknowledges, and what this replay has sent for one that does not.
   */
  lemma {:induction false} ReplaySendsExactly(q: Queue, host: Host, rows: seq<Nudge>, count: nat)
    requires if host.ack then |host.inflight| <= NUDGE_PAGE && DistinctRowTokens(rows) else count <= NUDGE_PAGE
    ensures var room := NUDGE_PAGE - if host.ack then |host.inflight| else count;
            ReplayRows(q, host, rows, count).sent == Due(rows, host)[..Lesser(|Due(rows, host)|, room)]
    decreases rows
  {
    if rows != [] {
      var r, tail := rows[0], rows[1..];
      if host.ack && r.token in host.inflight {
        ReplaySendsExactly(q, host, tail, count);
      } else if if host.ack then |host.inflight| >= NUDGE_PAGE else count >= NUDGE_PAGE {
      } else if r.chatId == EVERYTHING && !host.ack {
        ReplaySendsExactly(q, host, tail, count);
      } else {
        var host' := if host.ack then host.(inflight := host.inflight + {r.token}) else host;
        var q' := if host.ack then q else Acknowledge(q, r.chatId, r.token);
        if host.ack {
          forall x | x in tail ensures x.token != r.token {
            var i :| 0 <= i < |tail| && tail[i] == x;
            assert rows[i + 1] == x;
          }
          OtherReceiptsStayDue(tail, host, r.token);
        }
        ReplaySendsExactly(q', host', tail, count + 1);
        var due := Due(tail, host);
        assert Due(rows, host) == [r] + due;
        assert Due(tail, host') == due;
        var n := Lesser(|due|, NUDGE_PAGE - if host.ack then |host'.inflight| else count + 1);
        assert [r] + due[..n] == ([r] + due)[..n + 1];
      }
    }
  }

  lemma {:induction false} AllDue(rows: seq<Nudge>, host: Host)
    requires host.ack && forall r :: r in rows ==> r.token !in host.inflight
    ensures Due(rows, host) == rows
  {
    if rows != [] {
      assert rows[0] in rows && forall r :: r in rows[1..] ==> r in rows;
      AllDue(rows[1..], host);
    }
  }

  /** Rows under receipts of their own, none in flight, go out in order until the page is full. */
  lemma FirstPageGoesOut(q: Queue, host: Host, rows: seq<Nudge>, count: nat)
    requires host.ack && |host.inflight| <= NUDGE_PAGE
    requires DistinctRowTokens(rows) && forall r :: r in rows ==> r.token !in host.inflight
    ensures ReplayRows(q, host, rows, count).sent == rows[..Lesser(|rows|, NUDGE_PAGE - |host.inflight|)]
  {
    AllDue(rows, host);
    ReplaySendsExactly(q, host, rows, count);
  }

  /** A host that does not acknowledge is sent a full page, or else everything queued, which is then retired. */
  lemma PlainReplayEmptiesOrFills(q: Queue, host: Host)
    requires !host.ack && EVERYTHING !in q.pending
    ensures |Replay(q, host).sent| == NUDGE_PAGE || Replay(q, host).queue.pending == map[]
  {
    var rows, after := Window(q), Replay(q, host);
    var first := FirstRows(q.pending, NUDGE_PAGE * 2);
    ReplaySendsExactly(q, host, rows, 0);
    FirstRowsAreCurrent(q.pending, NUDGE_PAGE * 2);
    if |after.sent| < NUDGE_PAGE {
      assert after.sent == Due(rows, host);
      NothingAdded(q, host, rows, 0);
      forall c ensures c !in after.queue.pending {
        if c != EVERYTHING {
          ReplayRetires(q, host, rows, 0, c);
          if c in q.pending {
            SmallQueueIsInWindow(q, host, c);
          }
        }
      }
    }
  }

  /** With less than a page due, the window is the whole queue. */
  lemma SmallQueueIsInWindow(q: Queue, host: Host, c: string)
    requires !host.ack && EVERYTHING !in q.pending && |Due(Window(q), host)| < NUDGE_PAGE && c in q.pending
    ensures Nudge(c, q.pending[c].token) in Due(Window(q), host)
  {
    var rows, first := Window(q), FirstRows(q.pending, NUDGE_PAGE * 2);
    FirstRowsAreCurrent(q.pending, NUDGE_PAGE * 2);
    WindowIsDue(q, host);
    EveryRowIsFirst(q.pending, NUDGE_PAGE * 2);
  }

  lemma {:induction false} OrdinaryRowsAreDue(rows: seq<Nudge>, host: Host)
    requires !host.ack && forall r :: r in rows ==> r.chatId != EVERYTHING
    ensures Due(rows, host) == rows
  {
    if rows != [] {
      assert rows[0] in rows && forall r :: r in rows[1..] ==> r in rows;
      OrdinaryRowsAreDue(rows[1..], host);
    }
  }

  lemma WindowIsDue(q: Queue, host: Host)
    requires !host.ack && EVERYTHING !in q.pending
    ensures Due(Window(q), host) == FirstRows(q.pending, NUDGE_PAGE * 2)
  {
    var rows, first := Window(q), FirstRows(q.pending, NUDGE_PAGE * 2);
    FirstRowsAreCurrent(q.pending, NUDGE_PAGE * 2);
    OrdinaryRowsAreDue(first, host);
    if q.reconcile.Some? {
      assert rows[1..] == first;
    } else {
      assert rows == first;
    }
  }

  lemma WindowTokensAreDistinct(q: Queue)
    requires DistinctTokens(q)
    ensures DistinctRowTokens(Window(q))
  {
    var first, rows := FirstRows(q.pending, NUDGE_PAGE * 2), Window(q);
    FirstRowsAreCurrent(q.pending, NUDGE_PAGE * 2);
    var k := |rows| - |first|;
    forall i, j | 0 <= i < j < |rows| ensures rows[i].token != rows[j].token {
      assert rows[j] == first[j - k] && first[j - k] in first;
      if i >= k {
        assert rows[i] == first[i - k] && first[i - k] in first;
      }
    }
  }

  ghost function Chats(rows: seq<Nudge>): set<string> {
    set r | r in rows :: r.chatId
  }

  lemma {:induction false} ChatsAreCounted(rows: seq<Nudge>)
    requires DistinctChats(rows)
    ensures |Chats(rows)| == |rows|
  {
    if rows != [] {
      ChatsAreCounted(rows[1..]);
      assert rows == [rows[0]] + rows[1..];
      assert Chats(rows) == {rows[0].chatId} + Chats(rows[1..]);
    }
  }
}
