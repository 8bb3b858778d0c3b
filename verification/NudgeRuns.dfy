/**
 * Runs of a device room (edge/src/device-room.ts:151-287): wakes, joining and closing hosts, acknowledgements and
 * alarms in any order. No wake is lost: one leaves the queue only when its own latest receipt is acknowledged.
 */
module NudgeRuns {
  import opened Options
  import opened Nudges

  datatype Room = Room(queue: Queue, hosts: map<nat, Host>)

  const EMPTY := Room(Queue(map[], None), map[])

  /** One handler call; `live` is the host the room routes to at that moment, if any. */
  datatype Event =
    | Wake(chatId: string, now: int, token: Token, live: Option<nat>)
    | Joins(host: nat, ack: bool)
    | Acks(host: nat, chatId: string, token: Token)
    | Alarm(live: Option<nat>)
    | Closes(host: nat)

  predicate AckHost(room: Room, host: nat) {
    host in room.hosts && room.hosts[host].ack
  }

  /** What the handler does before it replays. */
  function Before(room: Room, e: Event): Room {
    match e
    case Wake(chatId, now, token, _) =>
      if ValidChatId(chatId) then room.(queue := Enqueue(room.queue, chatId, now, token)) else room
    case Joins(host, ack) => room.(hosts := room.hosts[host := Host(ack, {})])
    case Acks(host, chatId, token) =>
      if !AckHost(room, host) then room
      else Room(Acknowledge(room.queue, chatId, token),
          room.hosts[host := Host(true, room.hosts[host].inflight - {token})])
    case Alarm(live) =>
      if live.Some? && live.value in room.hosts then
        room.(hosts := room.hosts[live.value := room.hosts[live.value].(inflight := {})])
      else room
    case Closes(host) => room.(hosts := room.hosts - {host})
  }

  /** The host the handler replays to. */
  function Target(room: Room, e: Event): Option<nat> {
    match e
    case Wake(chatId, _, _, live) =>
      if ValidChatId(chatId) && live.Some? && live.value in room.hosts then live else None
    case Joins(host, _) => Some(host)
    case Acks(host, _, _) => if AckHost(room, host) then Some(host) else None
    case Alarm(live) => if live.Some? && live.value in room.hosts then live else None
    case Closes(_) => None
  }

  ghost function ReplayTo(room: Room, host: nat): Replayed
    requires host in room.hosts
  {
    Replay(room.queue, room.hosts[host])
  }

  ghost function Step(room: Room, e: Event): Room {
    var mid := Before(room, e);
    match Target(room, e)
    case None => mid
    case Some(host) => var after := ReplayTo(mid, host); Room(after.queue, mid.hosts[host := after.host])
  }

  /** The frames the handler sends its target. */
  ghost function Sent(room: Room, e: Event): seq<Nudge> {
    match Target(room, e)
    case None => []
    case Some(host) => ReplayTo(Before(room, e), host).sent
  }

  predicate Accepted(room: Room, e: Event, c: string) {
    e.Wake? && e.chatId == c && ValidChatId(c) && Accepts(room.queue, c)
  }

  predicate Refused(room: Room, e: Event) {
    e.Wake? && ValidChatId(e.chatId) && !Accepts(room.queue, e.chatId)
  }

  /** Receipt `t` of chat `c` is settled: acknowledged, or sent to a host that does not acknowledge. */
  ghost predicate Settles(room: Room, e: Event, c: string, t: Token) {
    || (e.Acks? && AckHost(room, e.host) && e.chatId == c && e.token == t)
    || (Target(room, e).Some? && !AckHost(Before(room, e), Target(room, e).value) && Nudge(c, t) in Sent(room, e))
  }

  // ---------- what every run keeps ----------

  ghost predicate HostOk(host: Host) {
    |host.inflight| <= NUDGE_PAGE && (!host.ack ==> host.inflight == {})
  }

  ghost predicate Inv(room: Room) {
    && |room.queue.pending| <= NUDGE_CAP
    && (forall c :: c in room.queue.pending ==> ValidChatId(c))
    && (forall h :: h in room.hosts ==> HostOk(room.hosts[h]))
  }

  lemma BeforeKeepsInv(room: Room, e: Event)
    requires Inv(room)
    ensures Inv(Before(room, e))
  {
    match e
    case Wake(c, _, _, _) =>
      if ValidChatId(c) && Accepts(room.queue, c) {
        assert Before(room, e).queue.pending.Keys == room.queue.pending.Keys + {c};
      }
    case Acks(h, c, t) =>
      if AckHost(room, h) {
        SmallerKeys(Before(room, e).queue.pending, room.queue.pending);
        SubsetSize(room.hosts[h].inflight - {t}, room.hosts[h].inflight);
      }
    case _ =>
  }

  lemma ReplayedHostIsOk(q: Queue, host: Host)
    requires HostOk(host)
    ensures HostOk(Replay(q, host).host) && |Replay(q, host).sent| <= NUDGE_PAGE
  {
    WindowIsBounded(q, host, Window(q), 0);
    SentIsInFlight(q, host, Window(q), 0);
  }

  lemma ReplayToKeepsInv(mid: Room, h: nat, after: Replayed)
    requires Inv(mid) && h in mid.hosts && after == ReplayTo(mid, h)
    ensures Inv(Room(after.queue, mid.hosts[h := after.host])) && |after.sent| <= NUDGE_PAGE
  {
    assert !ValidChatId(EVERYTHING) by { assert !ChatIdChar(EVERYTHING[0]); }
    ReplayShrinksQueue(mid.queue, mid.hosts[h]);
    ReplayedHostIsOk(mid.queue, mid.hosts[h]);
  }

  /** The queue never passes its cap and no host ever has more than a page in flight. */
  lemma StepKeepsInv(room: Room, e: Event)
    requires Inv(room)
    ensures Inv(Step(room, e)) && |Sent(room, e)| <= NUDGE_PAGE
  {
    BeforeKeepsInv(room, e);
    var mid, target := Before(room, e), Target(room, e);
    if target.Some? {
      var after := ReplayTo(mid, target.value);
      ReplayToKeepsInv(mid, target.value, after);
    }
  }

  /** The state after a run. */
  ghost function After(events: seq<Event>): Room {
    if events == [] then EMPTY else Step(After(events[..|events| - 1]), events[|events| - 1])
  }

  lemma {:induction false} RunKeepsInv(events: seq<Event>)
    ensures Inv(After(events))
    decreases |events|
  {
    if events != [] {
      RunKeepsInv(events[..|events| - 1]);
      StepKeepsInv(After(events[..|events| - 1]), events[|events| - 1]);
    }
  }

  // ---------- which hosts are there ----------

  /** Event `i` is the last join or close of host `h` among the first `n`, and it is a join. */
  ghost predicate LastJoin(events: seq<Event>, h: nat, i: nat, n: nat) {
    && i < n <= |events| && events[i].Joins? && events[i].host == h
    && forall j :: i < j < n ==> !(events[j].Joins? && events[j].host == h) && events[j] != Closes(h)
  }

  lemma StepHosts(room: Room, e: Event, h: nat)
    requires Inv(room)
    ensures var hosts := Step(room, e).hosts;
            if e.Joins? && e.host == h then h in hosts && hosts[h].ack == e.ack
            else if e == Closes(h) then h !in hosts
            else (h in hosts <==> h in room.hosts) && (h in hosts ==> hosts[h].ack == room.hosts[h].ack)
  {
    var mid, target := Before(room, e), Target(room, e);
    if target.Some? {
      SentIsInFlight(mid.queue, mid.hosts[target.value], Window(mid.queue), 0);
    }
  }

  lemma LastJoinStep(events: seq<Event>, h: nat, i: nat)
    requires events != []
    ensures var n, e := |events| - 1, events[|events| - 1];
            LastJoin(events, h, i, n + 1) <==>
            if i == n then e.Joins? && e.host == h
            else LastJoin(events[..n], h, i, n) && !(e.Joins? && e.host == h) && e != Closes(h)
  {
    var n := |events| - 1;
    assert forall j :: 0 <= j < n ==> events[..n][j] == events[j];
  }

  /**
   * After any run the hosts are those that have joined and not closed since, each acknowledging or not as it joined.
   */
  lemma {:induction false} HostsAreTheJoined(events: seq<Event>, h: nat)
    ensures h in After(events).hosts <==> exists i: nat :: LastJoin(events, h, i, |events|)
    ensures forall i: nat :: LastJoin(events, h, i, |events|) ==>
              h in After(events).hosts && After(events).hosts[h].ack == events[i].ack
    decreases |events|
  {
    if events != [] {
      var n := |events| - 1;
      var pre, e := events[..n], events[n];
      RunKeepsInv(pre);
      HostsAreTheJoined(pre, h);
      StepHosts(After(pre), e, h);
      forall i: nat ensures LastJoin(events, h, i, |events|) <==>
          if i == n then e.Joins? && e.host == h
          else LastJoin(pre, h, i, n) && !(e.Joins? && e.host == h) && e != Closes(h) {
        LastJoinStep(events, h, i);
      }
      if e.Joins? && e.host == h {
        assert LastJoin(events, h, n, |events|);
      } else if h in After(events).hosts {
        var i: nat :| LastJoin(pre, h, i, n);
        assert LastJoin(events, h, i, |events|);
      }
    }
  }

  // ---------- one step, one chat ----------

  ghost predicate Holds(room: Room, c: string, row: Row) {
    c in room.queue.pending && room.queue.pending[c] == row
  }

  lemma StepOnAChat(room: Room, e: Event, c: string, row: Row)
    requires Inv(room) && c != EVERYTHING
    ensures Holds(Step(room, e), c, row) <==>
            !Settles(room, e, c, row.token)
            && (if Accepted(room, e, c) then Row(e.now, e.token) == row else Holds(room, c, row))
  {
    var mid := Before(room, e);
    if Target(room, e).Some? {
      ReplayRetires(mid.queue, mid.hosts[Target(room, e).value], Window(mid.queue), 0, c);
    }
  }

  // ---------- no wake is lost ----------

  /** What one step of a run means to a receipt: a newer wake took its place, that wake carries it, it was settled. */
  datatype Mark = Mark(accepted: bool, own: bool, settled: bool)

  /** The latest acceptance was the receipt's own, and nothing has settled it since. */
  ghost predicate Outstanding(marks: seq<Mark>) {
    exists i: nat :: LatestIsOwn(marks, i)
  }

  ghost predicate LatestIsOwn(marks: seq<Mark>, i: nat) {
    && i < |marks| && marks[i].accepted && marks[i].own
    && (forall j :: i < j < |marks| ==> !marks[j].accepted)
    && (forall k :: i <= k < |marks| ==> !marks[k].settled)
  }

  lemma OutstandingSnoc(marks: seq<Mark>, m: Mark)
    ensures Outstanding(marks + [m]) <==> !m.settled && if m.accepted then m.own else Outstanding(marks)
  {
    var n := |marks|;
    if m.accepted && m.own && !m.settled {
      assert LatestIsOwn(marks + [m], n);
    }
    forall i: nat ensures LatestIsOwn(marks + [m], i) <==>
        !m.settled && if i == n then m.accepted && m.own else !m.accepted && LatestIsOwn(marks, i) {
      if i < n {
        assert (marks + [m])[n] == m;
        assert forall j :: 0 <= j < n ==> (marks + [m])[j] == marks[j];
      }
    }
  }

  ghost function MarkOf(room: Room, e: Event, c: string, row: Row): Mark {
    Mark(Accepted(room, e, c), e.Wake? && Row(e.now, e.token) == row, Settles(room, e, c, row.token))
  }

  /** The marks of a run for the queue row `row` of chat `c`, one per event. */
  ghost function Marks(events: seq<Event>, c: string, row: Row): (marks: seq<Mark>)
    ensures |marks| == |events|
  {
    if events == [] then []
    else
      var pre, e := events[..|events| - 1], events[|events| - 1];
      Marks(pre, c, row) + [MarkOf(After(pre), e, c, row)]
  }

  /**
   * No lost wake. After any run, a chat is queued with a given time and receipt exactly when its latest accepted wake
   * came at that time with that receipt, and that very receipt has not been settled since; an acknowledgement of older
   * work retires nothing.
   */
  lemma {:induction false} NoWakeIsLost(events: seq<Event>, c: string, row: Row)
    ensures Holds(After(events), c, row) <==> Outstanding(Marks(events, c, row))
    decreases |events|
  {
    if events == [] {
    } else {
      var pre, e := events[..|events| - 1], events[|events| - 1];
      RunKeepsInv(pre);
      RunKeepsInv(events);
      NoWakeIsLost(pre, c, row);
      OutstandingSnoc(Marks(pre, c, row), MarkOf(After(pre), e, c, row));
      if c == EVERYTHING {
        assert !ChatIdChar(c[0]) && !ValidChatId(c);
      } else {
        StepOnAChat(After(pre), e, c, row);
      }
    }
  }

  lemma {:induction false} MarkAt(events: seq<Event>, c: string, row: Row, k: nat)
    requires k < |events|
    ensures Marks(events, c, row)[k] == MarkOf(After(events[..k]), events[k], c, row)
    decreases |events|
  {
    var pre := events[..|events| - 1];
    if k < |pre| {
      MarkAt(pre, c, row, k);
      assert pre[..k] == events[..k];
    }
  }

  ghost predicate AllAck(room: Room) {
    forall h :: h in room.hosts ==> room.hosts[h].ack
  }

  lemma StepKeepsAllAck(room: Room, e: Event)
    requires AllAck(room) && (e.Joins? ==> e.ack)
    ensures AllAck(Step(room, e)) && AllAck(Before(room, e))
  {
    var mid, target := Before(room, e), Target(room, e);
    assert AllAck(mid);
    if target.Some? {
      ReceiptInFlight(mid.queue, mid.hosts[target.value], Window(mid.queue), 0, "");
      assert ReplayTo(mid, target.value).host.ack;
    }
  }

  lemma {:induction false} AllHostsAck(events: seq<Event>)
    requires forall e :: e in events && e.Joins? ==> e.ack
    ensures AllAck(After(events))
    decreases |events|
  {
    if events != [] {
      var pre, e := events[..|events| - 1], events[|events| - 1];
      assert forall x :: x in pre ==> x in events;
      AllHostsAck(pre);
      StepKeepsAllAck(After(pre), e);
    }
  }

  /** When every host acknowledges, a receipt is settled by nothing but an acknowledgement naming that receipt. */
  lemma OnlyItsOwnAckSettles(events: seq<Event>, c: string, row: Row, k: nat)
    requires (forall e :: e in events && e.Joins? ==> e.ack) && k < |events|
    ensures Marks(events, c, row)[k].settled <==>
            && events[k].Acks? && events[k].host in After(events[..k]).hosts
            && events[k].chatId == c && events[k].token == row.token
  {
    MarkAt(events, c, row, k);
    var pre, e := events[..k], events[k];
    assert e in events && forall x :: x in pre ==> x in events;
    AllHostsAck(pre);
    StepKeepsAllAck(After(pre), e);
  }

  // ---------- a refused wake is remembered ----------

  ghost function ReconcileMark(room: Room, e: Event, t: Token): Mark {
    Mark(Refused(room, e), e.Wake? && e.token == t, e.Acks? && AckHost(room, e.host) && e.chatId == EVERYTHING
        && e.token == t)
  }

  /** The marks of a run for the reconciliation receipt `t`. */
  ghost function ReconcileMarks(events: seq<Event>, t: Token): (marks: seq<Mark>)
    ensures |marks| == |events|
  {
    if events == [] then []
    else
      var pre, e := events[..|events| - 1], events[|events| - 1];
      ReconcileMarks(pre, t) + [ReconcileMark(After(pre), e, t)]
  }

  lemma StepOnReconcile(room: Room, e: Event, t: Token)
    ensures var m := ReconcileMark(room, e, t);
            Step(room, e).queue.reconcile == Some(t) <==>
                !m.settled && if m.accepted then m.own else room.queue.reconcile == Some(t)
  {
    var mid, target := Before(room, e), Target(room, e);
    if target.Some? {
      ReplayRetires(mid.queue, mid.hosts[target.value], Window(mid.queue), 0, "");
    }
  }

  /**
   * A wake the full queue refuses is not forgotten: the reconciliation it asks for stands until its own
   * acknowledgement.
   */
  lemma {:induction false} RefusalIsRemembered(events: seq<Event>, t: Token)
    ensures After(events).queue.reconcile == Some(t) <==> Outstanding(ReconcileMarks(events, t))
    decreases |events|
  {
    if events != [] {
      var pre, e := events[..|events| - 1], events[|events| - 1];
      RefusalIsRemembered(pre, t);
      StepOnReconcile(After(pre), e, t);
      OutstandingSnoc(ReconcileMarks(pre, t), ReconcileMark(After(pre), e, t));
    }
  }

  // ---------- receipts never repeat ----------

  ghost predicate FreshTokens(events: seq<Event>) {
    forall i, j :: 0 <= i < j < |events| && events[i].Wake? && events[j].Wake? ==> events[i].token != events[j].token
  }

  ghost predicate TokenOf(events: seq<Event>, t: Token) {
    exists e :: e in events && e.Wake? && e.token == t
  }

  ghost predicate TokensFrom(q: Queue, events: seq<Event>) {
    && (forall c :: c in q.pending ==> TokenOf(events, q.pending[c].token))
    && (q.reconcile.Some? ==> TokenOf(events, q.reconcile.value))
  }

  ghost predicate SubQueue(q': Queue, q: Queue) {
    && (forall c :: c in q'.pending ==> c in q.pending && q'.pending[c] == q.pending[c])
    && (q'.reconcile.Some? ==> q'.reconcile == q.reconcile)
  }

  lemma ReplayIsSubQueue(room: Room, e: Event)
    requires Inv(room)
    ensures SubQueue(Step(room, e).queue, Before(room, e).queue)
  {
    BeforeKeepsInv(room, e);
    var mid, target := Before(room, e), Target(room, e);
    assert !ValidChatId(EVERYTHING) by { assert !ChatIdChar(EVERYTHING[0]); }
    if target.Some? {
      var after := ReplayTo(mid, target.value);
      NothingAdded(mid.queue, mid.hosts[target.value], Window(mid.queue), 0);
      ReplayRetires(mid.queue, mid.hosts[target.value], Window(mid.queue), 0, "");
      forall c | c in after.queue.pending
          ensures c in mid.queue.pending && after.queue.pending[c] == mid.queue.pending[c] {
        ReplayRetires(mid.queue, mid.hosts[target.value], Window(mid.queue), 0, c);
      }
    }
  }

  lemma NewTokenStaysDistinct(pre: seq<Event>, e: Event, room: Room)
    requires DistinctTokens(room.queue) && TokensFrom(room.queue, pre) && (e.Wake? ==> !TokenOf(pre, e.token))
    ensures DistinctTokens(Before(room, e).queue) && TokensFrom(Before(room, e).queue, pre + [e])
  {
    forall t | TokenOf(pre, t) ensures TokenOf(pre + [e], t) {
      var x :| x in pre && x.Wake? && x.token == t;
      assert x in pre + [e];
    }
    assert e in pre + [e];
    assert e.Wake? ==> TokenOf(pre + [e], e.token);
  }

  /** While wakes carry receipts of their own, so do the queue's rows. */
  lemma {:induction false} ReceiptsStayDistinct(events: seq<Event>)
    requires FreshTokens(events)
    ensures DistinctTokens(After(events).queue) && TokensFrom(After(events).queue, events)
    decreases |events|
  {
    if events != [] {
      var n := |events| - 1;
      var pre, e := events[..n], events[n];
      ReceiptsStayDistinct(pre);
      forall x | x in pre && x.Wake? && e.Wake? ensures x.token != e.token {
        var i :| 0 <= i < n && pre[i] == x;
        assert events[i] == x;
      }
      NewTokenStaysDistinct(pre, e, After(pre));
      assert pre + [e] == events;
      RunKeepsInv(pre);
      ReplayIsSubQueue(After(pre), e);
    }
  }

  // ---------- who is sent what, and when ----------

  /**
   * The host whose turn it is to be sent what is queued: the live host on a wake and on the alarm, a host that joins,
   * and a host that has just acknowledged something.
   */
  predicate TurnOf(room: Room, e: Event, h: nat) {
    match e
    case Wake(chatId, _, _, live) => ValidChatId(chatId) && live == Some(h) && h in room.hosts
    case Joins(host, _) => h == host
    case Acks(host, _, _) => h == host && h in room.hosts && room.hosts[h].ack
    case Alarm(live) => live == Some(h) && h in room.hosts
    case Closes(_) => false
  }

  lemma TurnsAreTargets(room: Room, e: Event, h: nat)
    ensures TurnOf(room, e, h) <==> Target(room, e) == Some(h)
  {
  }

  /** What a host has in flight when its turn comes: nothing after joining or an alarm, nor what it has just settled. */
  function InFlightThen(room: Room, e: Event, h: nat): set<Token> {
    match e
    case Joins(_, _) => {}
    case Alarm(_) => {}
    case Acks(_, _, token) => if h in room.hosts then room.hosts[h].inflight - {token} else {}
    case _ => if h in room.hosts then room.hosts[h].inflight else {}
  }

  function Acknowledging(room: Room, e: Event, h: nat): bool {
    if e.Joins? then e.ack else h in room.hosts && room.hosts[h].ack
  }

  /**
   * In every run, each event sends the host whose turn it is exactly what is due to it: the reconciliation and the
   * wakes then queued, oldest first, without those in flight, until its page is full.
   */
  lemma SendsExactly(events: seq<Event>, e: Event, h: nat)
    requires FreshTokens(events + [e]) && TurnOf(After(events), e, h)
    ensures var room := After(events);
            var host := Host(Acknowledging(room, e, h), InFlightThen(room, e, h));
            var due := Due(Window(Before(room, e).queue), host);
            && |host.inflight| <= NUDGE_PAGE
            && Sent(room, e) == due[..Lesser(|due|, NUDGE_PAGE - if host.ack then |host.inflight| else 0)]
  {
    var room, mid := After(events), Before(After(events), e);
    RunKeepsInv(events);
    TurnsAreTargets(room, e, h);
    MidTokensAreDistinct(events, e);
    WindowTokensAreDistinct(mid.queue);
    MidHost(room, e, h);
    ReplaySendsExactly(mid.queue, mid.hosts[h], Window(mid.queue), 0);
  }

  /** When it is nobody's turn nothing is sent. */
  lemma NothingElseIsSent(room: Room, e: Event)
    requires forall h: nat :: !TurnOf(room, e, h)
    ensures Sent(room, e) == []
  {
    if Target(room, e).Some? {
      TurnsAreTargets(room, e, Target(room, e).value);
    }
  }

  lemma MidHost(room: Room, e: Event, h: nat)
    requires Inv(room) && Target(room, e) == Some(h)
    ensures var mid := Before(room, e);
            && h in mid.hosts && |InFlightThen(room, e, h)| <= NUDGE_PAGE
            && mid.hosts[h] == Host(Acknowledging(room, e, h), InFlightThen(room, e, h))
  {
    BeforeKeepsInv(room, e);
  }

  lemma MidTokensAreDistinct(events: seq<Event>, e: Event)
    requires FreshTokens(events + [e])
    ensures DistinctTokens(Before(After(events), e).queue)
  {
    var all := events + [e];
    forall i, j | 0 <= i < j < |events| && events[i].Wake? && events[j].Wake?
      ensures events[i].token != events[j].token
    {
      assert all[i] == events[i] && all[j] == events[j];
    }
    ReceiptsStayDistinct(events);
    forall x | x in events && x.Wake? && e.Wake? ensures x.token != e.token {
      var i :| 0 <= i < |events| && events[i] == x;
      assert all[i] == x && all[|events|] == e;
    }
    NewTokenStaysDistinct(events, e, After(events));
  }

  /**
   * No stall. After each event, the host whose turn it was has a full page in flight or everything still queued, if it
   * acknowledges; if it does not, it was sent a full page or nothing is queued any more.
   */
  lemma ReplaysLeaveNothingWaiting(events: seq<Event>, e: Event, h: nat)
    requires FreshTokens(events + [e]) && TurnOf(After(events), e, h)
    ensures var room := After(events + [e]);
            && h in room.hosts && room.hosts[h].ack == Acknowledging(After(events), e, h)
            && var inflight := room.hosts[h].inflight;
               if room.hosts[h].ack then
                 || |inflight| == NUDGE_PAGE
                 || ((forall c :: c in room.queue.pending ==> room.queue.pending[c].token in inflight)
                     && (room.queue.reconcile.Some? ==> room.queue.reconcile.value in inflight))
               else |Sent(After(events), e)| == NUDGE_PAGE || room.queue.pending == map[]
  {
    var all, room := events + [e], After(events);
    assert all[..|all| - 1] == events;
    RunKeepsInv(events);
    BeforeKeepsInv(room, e);
    TurnsAreTargets(room, e, h);
    MidTokensAreDistinct(events, e);
    MidHost(room, e, h);
    var mid := Before(room, e);
    SentIsInFlight(mid.queue, mid.hosts[h], Window(mid.queue), 0);
    if mid.hosts[h].ack {
      AckReplayKeepsQueue(mid.queue, mid.hosts[h], Window(mid.queue), 0);
      ReplayFillsTheWindow(mid.queue, mid.hosts[h]);
    } else {
      assert EVERYTHING !in mid.queue.pending by { assert !ChatIdChar(EVERYTHING[0]); }
      PlainReplayEmptiesOrFills(mid.queue, mid.hosts[h]);
    }
  }

  /** After each event the host whose turn it was has in flight what it had then and what it was sent. */
  lemma FlightIsTracked(events: seq<Event>, e: Event, h: nat)
    requires TurnOf(After(events), e, h)
    ensures var room := After(events);
            var host := Step(room, e).hosts;
            h in host && host[h].inflight ==
              InFlightThen(room, e, h) + if Acknowledging(room, e, h) then Tokens(Sent(room, e)) else {}
  {
    var room, mid := After(events), Before(After(events), e);
    RunKeepsInv(events);
    TurnsAreTargets(room, e, h);
    MidHost(room, e, h);
    SentIsInFlight(mid.queue, mid.hosts[h], Window(mid.queue), 0);
  }

  // ---------- a host that acknowledges what it is sent drains the queue ----------

  /** The host acknowledges the frames of `sent` in turn. */
  ghost function AckAll(room: Room, h: nat, sent: seq<Nudge>): Room
    decreases sent
  {
    if sent == [] then room else AckAll(Step(room, Acks(h, sent[0].chatId, sent[0].token)), h, sent[1..])
  }

  lemma AckStep(room: Room, h: nat, r: Nudge)
    requires AckHost(room, h)
    ensures Step(room, Acks(h, r.chatId, r.token)).queue == Acknowledge(room.queue, r.chatId, r.token)
    ensures AckHost(Step(room, Acks(h, r.chatId, r.token)), h)
  {
    var mid := Before(room, Acks(h, r.chatId, r.token));
    AckReplayKeepsQueue(mid.queue, mid.hosts[h], Window(mid.queue), 0);
    SentIsInFlight(mid.queue, mid.hosts[h], Window(mid.queue), 0);
  }

  lemma {:induction false} AckAllRetires(room: Room, h: nat, sent: seq<Nudge>)
    requires AckHost(room, h) && EVERYTHING !in room.queue.pending
    ensures AckHost(AckAll(room, h, sent), h) && SubQueue(AckAll(room, h, sent).queue, room.queue)
    ensures forall r :: r in sent && r.chatId in AckAll(room, h, sent).queue.pending ==>
        AckAll(room, h, sent).queue.pending[r.chatId].token != r.token
    ensures room.queue.reconcile.Some? && Nudge(EVERYTHING, room.queue.reconcile.value) in sent ==>
        AckAll(room, h, sent).queue.reconcile == None
    decreases sent
  {
    if sent != [] {
      var next := Step(room, Acks(h, sent[0].chatId, sent[0].token));
      AckStep(room, h, sent[0]);
      AckAllRetires(next, h, sent[1..]);
      assert sent == [sent[0]] + sent[1..];
    }
  }

  /** One round: the alarm resends, and the host acknowledges all it was sent. */
  ghost function Round(room: Room, h: nat): Room {
    AckAll(Step(room, Alarm(Some(h))), h, Sent(room, Alarm(Some(h))))
  }

  /** A chat outlasts the acknowledgements exactly when none of them names its receipt. */
  lemma {:induction false} AckAllRetiresExactly(room: Room, h: nat, sent: seq<Nudge>, c: string)
    requires AckHost(room, h) && EVERYTHING !in room.queue.pending
    ensures var q, q' := room.queue, AckAll(room, h, sent).queue;
            c in q'.pending <==> c in q.pending && Nudge(c, q.pending[c].token) !in sent
    decreases sent
  {
    if sent != [] {
      var next := Step(room, Acks(h, sent[0].chatId, sent[0].token));
      AckStep(room, h, sent[0]);
      AckAllRetiresExactly(next, h, sent[1..], c);
      assert sent == [sent[0]] + sent[1..];
    }
  }

  /** The queue rows that a page holds beside the reconciliation. */
  function Claimed(q: Queue): nat {
    if q.reconcile.Some? then 1 else 0
  }

  /**
   * With nothing in flight a replay sends the reconciliation and as many of the oldest wakes as the page then holds.
   */
  lemma FreshReplaySends(q: Queue)
    requires DistinctTokens(q)
    ensures var first := FirstRows(q.pending, NUDGE_PAGE * 2);
            var k := Lesser(|q.pending|, NUDGE_PAGE - Claimed(q));
            && k <= |first|
            && ReplayRows(q, Host(true, {}), Window(q), 0).sent
               == (if q.reconcile.Some? then [Nudge(EVERYTHING, q.reconcile.value)] else []) + first[..k]
  {
    var first, rows := FirstRows(q.pending, NUDGE_PAGE * 2), Window(q);
    WindowTokensAreDistinct(q);
    FirstRowsAreCurrent(q.pending, NUDGE_PAGE * 2);
    FirstPageGoesOut(q, Host(true, {}), rows, 0);
  }

  /** One round retires exactly the chats of the oldest rows that fit the page. */
  lemma RoundIsAckAll(room: Room, h: nat)
    requires AckHost(room, h)
    ensures var next, sent :=
        Step(room, Alarm(Some(h))), ReplayRows(room.queue, Host(true, {}), Window(room.queue), 0).sent;
            AckHost(next, h) && next.queue == room.queue && Round(room, h) == AckAll(next, h, sent)
  {
    var q, mid := room.queue, Before(room, Alarm(Some(h)));
    assert mid.hosts[h] == Host(true, {}) && mid.queue == q;
    AckReplayKeepsQueue(q, Host(true, {}), Window(q), 0);
    SentIsInFlight(q, Host(true, {}), Window(q), 0);
  }

  lemma RoundLeaves(room: Room, h: nat, k: nat)
    requires AckHost(room, h) && EVERYTHING !in room.queue.pending && DistinctTokens(room.queue)
    requires k == Lesser(|room.queue.pending|, NUDGE_PAGE - Claimed(room.queue))
    ensures var first := FirstRows(room.queue.pending, NUDGE_PAGE * 2);
            k <= |first| && Round(room, h).queue.pending.Keys == room.queue.pending.Keys - Chats(first[..k])
  {
    var q := room.queue;
    var first := FirstRows(q.pending, NUDGE_PAGE * 2);
    var sent := ReplayRows(q, Host(true, {}), Window(q), 0).sent;
    RoundIsAckAll(room, h);
    FreshReplaySends(q);
    FirstRowsAreCurrent(q.pending, NUDGE_PAGE * 2);
    forall c ensures c in Round(room, h).queue.pending <==> c in q.pending && c !in Chats(first[..k]) {
      AckAllRetiresExactly(Step(room, Alarm(Some(h))), h, sent, c);
      assert forall r :: r in first[..k] ==> r in first;
      if c in q.pending {
        assert Nudge(c, q.pending[c].token) in sent <==> Nudge(c, q.pending[c].token) in first[..k];
        assert Nudge(c, q.pending[c].token).chatId == c;
      }
    }
  }

  /** One round clears the reconciliation and retires as many wakes as the page then holds, or all there are. */
  lemma RoundShrinksQueue(room: Room, h: nat)
    requires AckHost(room, h) && EVERYTHING !in room.queue.pending && DistinctTokens(room.queue)
    ensures AckHost(Round(room, h), h) && SubQueue(Round(room, h).queue, room.queue)
        && Round(room, h).queue.reconcile == None
    ensures |Round(room, h).queue.pending| ==
        |room.queue.pending| - Lesser(|room.queue.pending|, NUDGE_PAGE - Claimed(room.queue))
  {
    var q := room.queue;
    var k := Lesser(|q.pending|, NUDGE_PAGE - Claimed(q));
    var first := FirstRows(q.pending, NUDGE_PAGE * 2);
    var sent := ReplayRows(q, Host(true, {}), Window(q), 0).sent;
    RoundIsAckAll(room, h);
    FreshReplaySends(q);
    AckAllRetires(Step(room, Alarm(Some(h))), h, sent);
    if q.reconcile.Some? {
      assert sent[0] == Nudge(EVERYTHING, q.reconcile.value);
    }
    RoundLeaves(room, h, k);
    FirstRowsAreCurrent(q.pending, NUDGE_PAGE * 2);
    ChatsAreCounted(first[..k]);
    RemovedKeys(q.pending.Keys, Chats(first[..k]));
  }

  lemma RemovedKeys(keys: set<string>, gone: set<string>)
    requires gone <= keys
    ensures |keys - gone| == |keys| - |gone|
  {
    assert keys == (keys - gone) + gone;
  }

  ghost function Rounds(room: Room, h: nat, n: nat): Room
    decreases n
  {
    if n == 0 then room else Rounds(Round(room, h), h, n - 1)
  }

  /** What `n` rounds leave of `size` wakes when the reconciliation takes `claimed` places of the first page. */
  function Left(size: nat, claimed: nat, n: nat): nat {
    if n == 0 then size
    else if size + claimed <= NUDGE_PAGE * n then 0
    else size + claimed - NUDGE_PAGE * n
  }

  lemma {:induction false} RoundsLeaveExactly(room: Room, h: nat, n: nat)
    requires AckHost(room, h) && EVERYTHING !in room.queue.pending && DistinctTokens(room.queue)
    ensures var q := Rounds(room, h, n).queue;
            && |q.pending| == Left(|room.queue.pending|, Claimed(room.queue), n)
            && q.reconcile == if n == 0 then room.queue.reconcile else None
    decreases n
  {
    if n > 0 {
      RoundShrinksQueue(room, h);
      RoundsLeaveExactly(Round(room, h), h, n - 1);
    }
  }

  /**
   * A host that acknowledges all it is sent empties the queue in as many rounds as the queue, its reconciliation
   * counted with it, has pages, and in no fewer.
   */
  lemma AcknowledgingDrains(room: Room, h: nat, n: nat)
    requires AckHost(room, h) && EVERYTHING !in room.queue.pending && DistinctTokens(room.queue)
    ensures Rounds(room, h, n).queue == EMPTY.queue <==> |room.queue.pending| + Claimed(room.queue) <= NUDGE_PAGE * n
  {
    RoundsLeaveExactly(room, h, n);
  }
}
