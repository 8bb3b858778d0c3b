/**
 * Runs of a preview room (edge/src/preview-room.ts:45-120): connections, messages, closes and alarms in any order.
 * Every connected peer's view, pieced together from its messages, is the room's table.
 */
module PreviewRuns {
  import opened Options
  import opened Preview

  datatype Event =
    | Connect(authenticated: bool, upgrade: bool, device: string, now: int)
    | Receive(socket: nat, at: int, incoming: Incoming)
    | Closed(closing: nat)
    | Alarm(alarmAt: int, pongs: map<nat, int>)

  function Step(room: Room, e: Event): Room
    requires |room.sent| == |room.sockets|
  {
    match e
    case Connect(authenticated, upgrade, device, now) =>
      var answer := ConnectAnswer(room, authenticated, upgrade, device);
      if answer.Accepted? then Join(Vacated(room, device), device, now) else room
    case Receive(k, now, incoming) => OnMessage(room, k, now, incoming)
    case Closed(k) => Remove(room, k)
    case Alarm(now, pongs) => Evict(room, now, pongs, |room.sockets|)
  }

  lemma StepKeepsInv(room: Room, e: Event)
    requires Inv(room)
    ensures Inv(Step(room, e))
  {
    match e
    case Connect(_, _, device, now) =>
      if Step(room, e) != room {
        VacatingLeavesOthers(room, device);
        JoinKeepsInv(Vacated(room, device), device, now);
      }
    case Receive(k, now, incoming) => OnMessageKeepsInv(room, k, now, incoming);
    case Closed(k) => RemoveKeepsInv(room, k);
    case Alarm(now, pongs) => EvictKeepsInv(room, now, pongs, |room.sockets|);
  }

  ghost function After(events: seq<Event>): (room: Room)
    ensures |room.sent| == |room.sockets|
  {
    if events == [] then EMPTY else Step(After(events[..|events| - 1]), events[|events| - 1])
  }

  lemma {:induction false} RunKeepsInv(events: seq<Event>)
    ensures Inv(After(events))
    decreases |events|
  {
    if events != [] {
      RunKeepsInv(events[..|events| - 1]);
      StepKeepsInv(After(events[..|events| - 1]), events[|events| - 1]);
    }
  }

  ghost function ActiveDevices(sockets: seq<Attachment>): set<string> {
    set j | 0 <= j < |sockets| && Active(sockets, j) :: sockets[j].device
  }

  lemma OneSocketMore(rest: seq<Attachment>, last: Attachment, sockets: seq<Attachment>)
    requires sockets == rest + [last]
    ensures ActiveDevices(sockets) == ActiveDevices(rest) + if last.device != "" then {last.device} else {}
  {
    forall d ensures d in ActiveDevices(sockets) <==>
        d in ActiveDevices(rest) || (last.device != "" && d == last.device) {
      if d in ActiveDevices(rest) {
        var j :| 0 <= j < |rest| && Active(rest, j) && rest[j].device == d;
        assert Active(sockets, j) && sockets[j].device == d;
      }
      if last.device != "" && d == last.device {
        assert Active(sockets, |rest|) && sockets[|rest|].device == d;
      }
      if d in ActiveDevices(sockets) {
        var j :| 0 <= j < |sockets| && Active(sockets, j) && sockets[j].device == d;
        assert j < |rest| ==> Active(rest, j);
      }
    }
  }

  lemma {:induction false} DevicesAreCounted(sockets: seq<Attachment>)
    requires DistinctDevices(sockets)
    ensures |ActiveDevices(sockets)| == ActiveCount(sockets)
    decreases |sockets|
  {
    if sockets != [] {
      var n := |sockets| - 1;
      var rest := sockets[..n];
      assert forall j :: Active(rest, j) ==> Active(sockets, j) && sockets[j] == rest[j];
      DevicesAreCounted(rest);
      OneSocketMore(rest, sockets[n], sockets);
      if sockets[n].device != "" {
        assert Active(sockets, n);
        assert sockets[n].device !in ActiveDevices(rest);
      }
    }
  }

  /**
   * In every run at most sixteen devices take part, each by one socket, and only they have catalogs stored, all
   * valid.
   */
  lemma DevicesAreBounded(events: seq<Event>)
    ensures var room := After(events);
            && |ActiveDevices(room.sockets)| <= MAX_DEVICES
            && DistinctDevices(room.sockets)
            && room.catalog.Keys <= ActiveDevices(room.sockets)
            && (forall d :: d in room.catalog ==> ValidCatalog(room.catalog[d], d))
  {
    RunKeepsInv(events);
    DevicesAreCounted(After(events).sockets);
  }

  /** The active devices other than socket `k`'s. */
  ghost function OtherDevices(sockets: seq<Attachment>, k: nat): set<string> {
    set j | 0 <= j < |sockets| && Active(sockets, j) && j != k :: sockets[j].device
  }

  /** After any run a connected peer's view is the stored catalogs of the other active devices. */
  lemma PeersSeeTheRoom(events: seq<Event>, k: nat)
    requires Active(After(events).sockets, k)
    ensures var room := After(events);
            View(room.sent[k]) == map d | d in OtherDevices(room.sockets, k) :: Stored(room.catalog, d)
  {
    RunKeepsInv(events);
    var room := After(events);
    forall d ensures d in View(room.sent[k]) <==> d in OtherDevices(room.sockets, k)
             ensures d in View(room.sent[k]) ==> View(room.sent[k])[d] == Stored(room.catalog, d) {
      assert Sees(room, k, d);
    }
  }

  // ---------- the stored catalog is the last one published on the device's present socket ----------

  /** The services of the last catalog accepted on socket `k`; none at all until the first. */
  ghost function LastPublished(events: seq<Event>, k: nat): Services {
    if events == [] then []
    else
      var pre, e := events[..|events| - 1], events[|events| - 1];
      if e.Receive? && e.socket == k && Publishes(After(pre), k, e.at, e.incoming) then e.incoming.services
      else LastPublished(pre, k)
  }

  lemma OldSocketsOnly(room: Room, e: Event)
    requires |room.sent| == |room.sockets|
    ensures |Step(room, e).sockets| >= |room.sockets|
  {
  }

  /** Nothing was published on a socket that has not been accepted yet. */
  lemma {:induction false} NothingPublishedYet(events: seq<Event>, k: nat)
    requires k >= |After(events).sockets|
    ensures LastPublished(events, k) == []
    decreases |events|
  {
    if events != [] {
      var pre, e := events[..|events| - 1], events[|events| - 1];
      OldSocketsOnly(After(pre), e);
      NothingPublishedYet(pre, k);
    }
  }

  /** Socket `k` takes part before and after, with the same device and the same stored catalog. */
  ghost predicate Undisturbed(room: Room, after: Room, k: nat) {
    && Active(room.sockets, k) && Active(after.sockets, k) && after.sockets[k].device == room.sockets[k].device
    && Stored(after.catalog, room.sockets[k].device) == Stored(room.catalog, room.sockets[k].device)
  }

  lemma RemovalStores(room: Room, i: nat, k: nat)
    requires Inv(room) && Active(Remove(room, i).sockets, k)
    ensures Undisturbed(room, Remove(room, i), k)
  {
    if Active(room.sockets, i) {
      DeactivatedSockets(room.sockets, i);
    }
  }

  lemma {:induction false} EvictionStores(room: Room, now: int, pongs: map<nat, int>, n: nat, k: nat)
    requires Inv(room) && n <= |room.sockets| && Active(Evict(room, now, pongs, n).sockets, k)
    ensures Undisturbed(room, Evict(room, now, pongs, n), k)
    decreases n
  {
    if n > 0 {
      var before, after := Evict(room, now, pongs, n - 1), Evict(room, now, pongs, n);
      EvictKeepsInv(room, now, pongs, n - 1);
      if after != before {
        RemovalStores(before, n - 1, k);
      }
      EvictionStores(room, now, pongs, n - 1, k);
    }
  }

  lemma ConnectionStores(room: Room, device: string, now: int, k: nat)
    requires Inv(room) && ValidId(device) && k < |room.sockets|
    requires Active(Join(Vacated(room, device), device, now).sockets, k)
    ensures Undisturbed(room, Join(Vacated(room, device), device, now), k)
  {
    var mid, existing := Vacated(room, device), Find(room.sockets, device);
    VacatingLeavesOthers(room, device);
    assert Join(mid, device, now).sockets[k] == mid.sockets[k];
    if existing.Some? {
      DeactivatedSockets(room.sockets, existing.value);
    }
    assert Active(mid.sockets, k) && Active(room.sockets, k);
  }

  /** A step leaves a surviving socket's stored catalog as it was, unless the step publishes a new one on it. */
  lemma StepStores(room: Room, e: Event, k: nat)
    requires Inv(room) && k < |room.sockets| && Active(Step(room, e).sockets, k)
    ensures if e.Receive? && e.socket == k && Publishes(room, k, e.at, e.incoming) then
              && Step(room, e).sockets[k].device == room.sockets[k].device
              && Stored(Step(room, e).catalog, room.sockets[k].device) == e.incoming.services
            else Undisturbed(room, Step(room, e), k)
  {
    match e
    case Connect(_, _, device, now) =>
      if Step(room, e) != room {
        ConnectionStores(room, device, now, k);
      }
    case Receive(_, _, _) =>
      assert Active(room.sockets, k);
    case Closed(i) => RemovalStores(room, i, k);
    case Alarm(now, pongs) => EvictionStores(room, now, pongs, |room.sockets|, k);
  }

  /** A socket accepted just now starts without a catalog. */
  lemma NewSocketStoresNothing(room: Room, e: Event, k: nat)
    requires Inv(room) && |room.sockets| <= k && Active(Step(room, e).sockets, k)
    ensures Stored(Step(room, e).catalog, Step(room, e).sockets[k].device) == []
  {
    assert e.Connect?;
    VacatingLeavesOthers(room, e.device);
  }

  lemma {:induction false} TableIsLastPublished(events: seq<Event>, k: nat)
    requires Active(After(events).sockets, k)
    ensures Stored(After(events).catalog, After(events).sockets[k].device) == LastPublished(events, k)
    decreases |events|
  {
    if events != [] {
      var pre, e := events[..|events| - 1], events[|events| - 1];
      RunKeepsInv(pre);
      var room := After(pre);
      if k < |room.sockets| {
        StepStores(room, e, k);
        TableIsLastPublished(pre, k);
      } else {
        NothingPublishedYet(pre, k);
        NewSocketStoresNothing(room, e, k);
      }
    }
  }

  /**
   * The end-to-end statement: a peer knows of a device exactly while another active socket belongs to it, and what it
   * knows is the last catalog that device published on that very connection.
   */
  lemma PeersSeeTheLatestCatalogs(events: seq<Event>, k: nat, j: nat)
    requires Active(After(events).sockets, k) && Active(After(events).sockets, j) && j != k
    ensures var device, view := After(events).sockets[j].device, View(After(events).sent[k]);
            device in view && view[device] == LastPublished(events, j)
  {
    RunKeepsInv(events);
    var room := After(events);
    assert Sees(room, k, room.sockets[j].device);
    TableIsLastPublished(events, j);
  }

  // ---------- who is let in ----------

  /**
   * After any run a connection is let in exactly when it is an authenticated upgrade under a valid device id, and
   * either that device is there already or fewer than sixteen are.
   */
  lemma ConnectsExactly(events: seq<Event>, authenticated: bool, upgrade: bool, device: string)
    ensures var room := After(events);
            var devices := ActiveDevices(room.sockets);
            ConnectAnswer(room, authenticated, upgrade, device) ==
            if !authenticated then Unauthorized
            else if !upgrade then UpgradeRequired
            else if !ValidId(device) then InvalidDevice
            else if device in devices || |devices| < 16 then Accepted
            else DeviceLimit
  {
    RunKeepsInv(events);
    var room := After(events);
    DevicesAreCounted(room.sockets);
    if device in ActiveDevices(room.sockets) {
      var j :| 0 <= j < |room.sockets| && Active(room.sockets, j) && room.sockets[j].device == device;
    }
  }

  // ---------- signals ----------

  lemma AfterSnoc(events: seq<Event>, e: Event)
    ensures After(events + [e]) == Step(After(events), e)
  {
    assert (events + [e])[..|events|] == events;
  }

  lemma PresentDevices(room: Room, device: string)
    requires |room.sent| == |room.sockets|
    ensures Present(room, device) <==> device in ActiveDevices(room.sockets)
  {
  }

  /**
   * After any run, a signal within budget reaches the named device's socket and no other, carrying who sent it; when
   * that device is not there its sender hears so.
   */
  lemma SignalsReachTheirDevice(events: seq<Event>, k: nat, now: int, to: string, signal: string, i: nat)
    requires var room := After(events);
             i < |room.sockets| && Active(room.sockets, k) && InBudget(room.sockets[k], now)
             && ValidId(to) && to != room.sockets[k].device
    ensures var room, after := After(events), After(events + [Receive(k, now, SignalTo(to, Some(signal)))]);
            && |after.sent| == |room.sent|
            && after.sent[i] == room.sent[i]
               + if room.sockets[i].device == to then [Signal(room.sockets[k].device, signal)]
                 else if i == k && to !in ActiveDevices(room.sockets) then [Gone(to)]
                 else []
  {
    RunKeepsInv(events);
    AfterSnoc(events, Receive(k, now, SignalTo(to, Some(signal))));
    MessageSendsExactly(After(events), k, now, SignalTo(to, Some(signal)), i);
    PresentDevices(After(events), to);
  }

  // ---------- who is evicted ----------

  /** When socket `k` connected. */
  ghost function ConnectedAt(events: seq<Event>, k: nat): int {
    if events == [] then 0
    else
      var pre, e := events[..|events| - 1], events[|events| - 1];
      if e.Connect? && k == |After(pre).sockets| then e.now else ConnectedAt(pre, k)
  }

  /** The message is signaling, and comes within budget on a socket that takes part. */
  predicate Heeded(room: Room, k: nat, now: int, incoming: Incoming) {
    Active(room.sockets, k) && !incoming.NotSignaling? && InBudget(room.sockets[k], now)
  }

  /** When socket `k` connected or last had a message heeded. */
  ghost function HeardAt(events: seq<Event>, k: nat): int {
    if events == [] then 0
    else
      var pre, e := events[..|events| - 1], events[|events| - 1];
      if e.Connect? && k == |After(pre).sockets| then e.now
      else if e.Receive? && e.socket == k && Heeded(After(pre), k, e.at, e.incoming) then e.at
      else HeardAt(pre, k)
  }

  lemma StepTimes(room: Room, e: Event, k: nat)
    requires |room.sent| == |room.sockets| && k < |Step(room, e).sockets|
    ensures var a := Step(room, e).sockets[k];
            if k < |room.sockets| then
              && a.connected == room.sockets[k].connected
              && a.lastSeen == if e.Receive? && e.socket == k && Heeded(room, k, e.at, e.incoming) then e.at
                               else room.sockets[k].lastSeen
            else e.Connect? && k == |room.sockets| && a.connected == a.lastSeen == e.now
  {
    match e
    case Alarm(now, pongs) =>
      if k < |room.sockets| {
        EvictsExactlyTheStale(room, now, pongs, |room.sockets|, k);
      }
    case Receive(i, now, incoming) => CountedExactly(room, i, now, incoming);
    case _ =>
  }

  lemma {:induction false} TimesAreKept(events: seq<Event>, k: nat)
    requires k < |After(events).sockets|
    ensures var a := After(events).sockets[k]; a.connected == ConnectedAt(events, k) && a.lastSeen == HeardAt(events, k)
    decreases |events|
  {
    var pre, e := events[..|events| - 1], events[|events| - 1];
    StepTimes(After(pre), e, k);
    if k < |After(pre).sockets| {
      TimesAreKept(pre, k);
    }
  }

  /**
   * After any run, an alarm leaves a device's socket in place exactly when it has been heard of, by a counted message
   * or a pong, within 45 seconds, and connected within 15 minutes.
   */
  lemma SilentSocketsAreEvicted(events: seq<Event>, now: int, pongs: map<nat, int>, k: nat)
    requires Active(After(events).sockets, k)
    ensures var pong := if k in pongs then pongs[k] else 0;
            Active(After(events + [Alarm(now, pongs)]).sockets, k) <==>
            (now - HeardAt(events, k) <= 45_000 || now - pong <= 45_000) && now - ConnectedAt(events, k) <= 15 * 60_000
  {
    AfterSnoc(events, Alarm(now, pongs));
    TimesAreKept(events, k);
    EvictsExactlyTheStale(After(events), now, pongs, |After(events).sockets|, k);
  }
}
