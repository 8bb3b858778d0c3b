/**
 * Preview presence (edge/src/preview-room.ts): the devices of one user, each with a socket and a published catalog of
 * services, told of one another by messages. What a peer has pieced together from its messages is the room's table.
 */
module Preview {
  import opened Options

  const MAX_DEVICES: nat := 16
  const MAX_SERVICES: nat := 256
  const MAX_SAFE_INTEGER: int := 9_007_199_254_740_991
  const BUDGET_WINDOW_MS: int := 10_000
  const BUDGET_MESSAGES: nat := 120
  const SILENCE_MS: int := 45_000
  const TOKEN_MS: int := 15 * 60_000

  // ---------- validation ----------

  predicate Alphanumeric(c: char) {
    'a' <= c <= 'z' || '0' <= c <= '9'
  }

  predicate ValidId(id: string) {
    1 <= |id| <= 128 && forall i :: 0 <= i < |id| ==>
        Alphanumeric(id[i]) || 'A' <= id[i] <= 'Z' || id[i] == '_' || id[i] == '-'
  }

  predicate HostLabel(s: string) {
    && 1 <= |s| <= 63 && Alphanumeric(s[0]) && Alphanumeric(s[|s| - 1])
    && forall i :: 0 <= i < |s| ==> Alphanumeric(s[i]) || s[i] == '-'
  }

  predicate LabelsSplitAt(s: string, i: int) {
    0 <= i < |s| && s[i] == '.' && HostLabel(s[..i]) && HostLabel(s[i + 1..])
  }

  predicate TwoLabels(s: string) {
    exists i :: 0 <= i < |s| && LabelsSplitAt(s, i)
  }

  /** Two labels under `.localhost`. */
  predicate ValidHost(h: string) {
    |h| >= |".localhost"| && h[|h| - |".localhost"|..] == ".localhost" && TwoLabels(h[..|h| - |".localhost"|])
  }

  datatype Service = Service(
    id: string, projectId: string, projectName: string, projectCwd: string, deviceId: string, deviceName: string,
    hostname: string, name: string, cwd: string, port: int, pid: int, startedAt: int, zeronOwned: bool)

  type Services = seq<Service>

  predicate ValidService(s: Service, device: string) {
    && |s.id| <= 128 && |s.projectId| <= 128 && |s.projectName| <= 128 && |s.projectCwd| <= 4096
    && |s.deviceId| <= 128 && |s.deviceName| <= 128 && |s.hostname| <= 128 && |s.name| <= 128 && |s.cwd| <= 4096
    && s.deviceId == device && ValidId(s.id) && ValidHost(s.hostname)
    && 1 <= s.port <= 65535 && 1 <= s.pid <= MAX_SAFE_INTEGER && 0 <= s.startedAt <= MAX_SAFE_INTEGER
  }

  /** A catalog a device may publish: its own services, at most 256 of them, under distinct ids. */
  predicate ValidCatalog(services: Services, device: string) {
    && |services| <= MAX_SERVICES
    && (forall i :: 0 <= i < |services| ==> ValidService(services[i], device))
    && (forall i, j :: 0 <= i < j < |services| ==> services[i].id != services[j].id)
  }

  // ---------- the room ----------

  /** A socket's attachment; an empty device means the socket no longer takes part. */
  datatype Attachment = Attachment(device: string, connected: int, lastSeen: int, budgetAt: int, messages: nat)

  datatype Message =
    | CatalogOf(device: string, services: Services)
    | Gone(device: string)
    | Signal(from: string, signal: string)

  /** Every socket accepted so far in order of acceptance, the stored catalogs, and what each socket has been sent. */
  datatype Room = Room(sockets: seq<Attachment>, catalog: map<string, Services>, sent: seq<seq<Message>>)

  const EMPTY := Room([], map[], [])

  predicate Active(sockets: seq<Attachment>, k: int) {
    0 <= k < |sockets| && sockets[k].device != ""
  }

  function ActiveCount(sockets: seq<Attachment>): nat {
    if sockets == [] then 0
    else ActiveCount(sockets[..|sockets| - 1]) + if sockets[|sockets| - 1].device != "" then 1 else 0
  }

  /** The first active socket of `device` from position `k` on. */
  function FindFrom(sockets: seq<Attachment>, device: string, k: nat): (found: Option<nat>)
    requires k <= |sockets|
    ensures found.Some? ==>
        k <= found.value < |sockets| && Active(sockets, found.value) && sockets[found.value].device == device
    ensures found.None? ==> forall j :: k <= j < |sockets| && Active(sockets, j) ==> sockets[j].device != device
    decreases |sockets| - k
  {
    if k == |sockets| then None
    else if sockets[k].device != "" && sockets[k].device == device then Some(k)
    else FindFrom(sockets, device, k + 1)
  }

  function Find(sockets: seq<Attachment>, device: string): Option<nat> {
    FindFrom(sockets, device, 0)
  }

  /** The stored catalog of a device, empty when there is none. */
  function Stored(catalog: map<string, Services>, device: string): Services {
    if device in catalog then catalog[device] else []
  }

  function Broadcast(
    sockets: seq<Attachment>, sent: seq<seq<Message>>, m: Message, except: int): (sent': seq<seq<Message>>)
    requires |sent| == |sockets|
    ensures |sent'| == |sent|
  {
    seq(|sent|, k requires 0 <= k < |sent| => if Active(sockets, k) && k != except then sent[k] + [m] else sent[k])
  }

  function Send(sent: seq<seq<Message>>, k: nat, m: Message): seq<seq<Message>>
    requires k < |sent|
  {
    sent[k := sent[k] + [m]]
  }

  // ---------- the handlers ----------

  function Deactivated(sockets: seq<Attachment>, k: nat): seq<Attachment>
    requires k < |sockets|
  {
    sockets[k := sockets[k].(device := "")]
  }

  function Remove(room: Room, k: nat): Room
    requires |room.sent| == |room.sockets|
  {
    if !Active(room.sockets, k) then room
    else
      var device, sockets := room.sockets[k].device, Deactivated(room.sockets, k);
      Room(sockets, room.catalog - {device}, Broadcast(sockets, room.sent, Gone(device), k))
  }

  /** What a joining socket is told: the catalogs of the first `n` sockets' devices other than its own. */
  function Greetings(room: Room, device: string, n: nat): seq<Message>
    requires n <= |room.sockets|
  {
    if n == 0 then []
    else
      var peer := room.sockets[n - 1].device;
      Greetings(room, device, n - 1)
      + if peer != "" && peer != device then [CatalogOf(peer, Stored(room.catalog, peer))] else []
  }

  datatype Answer = Unauthorized | UpgradeRequired | InvalidDevice | DeviceLimit | Accepted

  function ConnectAnswer(room: Room, authenticated: bool, upgrade: bool, device: string): Answer {
    if !authenticated then Unauthorized
    else if !upgrade then UpgradeRequired
    else if !ValidId(device) then InvalidDevice
    else if Find(room.sockets, device).None? && ActiveCount(room.sockets) >= MAX_DEVICES then DeviceLimit
    else Accepted
  }

  /** The room once a device's earlier socket has been retired and its catalog dropped. */
  function Vacated(room: Room, device: string): Room
    requires |room.sent| == |room.sockets|
  {
    var existing := Find(room.sockets, device);
    var sockets := if existing.Some? then Deactivated(room.sockets, existing.value) else room.sockets;
    Room(sockets, room.catalog - {device}, room.sent)
  }

  function Join(room: Room, device: string, now: int): Room
    requires |room.sent| == |room.sockets|
  {
    var n := |room.sockets|;
    Room(room.sockets + [Attachment(device, now, now, now, 0)], room.catalog,
         Broadcast(room.sockets, room.sent, CatalogOf(device, []), n) + [Greetings(room, device, n)])
  }

  /** An incoming frame once parsed; a signal that fails its checks is `None`. */
  datatype Incoming =
    | NotSignaling
    | BadJson
    | CatalogUpdate(services: Services)
    | SignalTo(to: string, signal: Option<string>)
    | Unsupported

  /** The attachment after counting one more message, or none when the socket is over its budget. */
  function Spend(a: Attachment, now: int): Option<Attachment> {
    var b := if now - a.budgetAt > BUDGET_WINDOW_MS then a.(budgetAt := now, messages := 0) else a;
    if b.messages + 1 > BUDGET_MESSAGES then None else Some(b.(messages := b.messages + 1, lastSeen := now))
  }

  predicate Counted(room: Room, k: nat, now: int, incoming: Incoming) {
    Active(room.sockets, k) && !incoming.NotSignaling? && Spend(room.sockets[k], now).Some?
  }

  predicate Publishes(room: Room, k: nat, now: int, incoming: Incoming) {
    Counted(room, k, now, incoming) && incoming.CatalogUpdate?
        && ValidCatalog(incoming.services, room.sockets[k].device)
  }

  function Publish(room: Room, k: nat, services: Services): Room
    requires |room.sent| == |room.sockets| && k < |room.sockets|
  {
    var device := room.sockets[k].device;
    Room(room.sockets, room.catalog[device := services],
        Broadcast(room.sockets, room.sent, CatalogOf(device, services), k))
  }

  function Relay(room: Room, k: nat, to: string, signal: string): Room
    requires |room.sent| == |room.sockets| && k < |room.sockets|
  {
    var target := Find(room.sockets, to);
    room.(sent := if target.Some? then Send(room.sent, target.value, Signal(room.sockets[k].device, signal))
        else Send(room.sent, k, Gone(to)))
  }

  function OnMessage(room: Room, k: nat, now: int, incoming: Incoming): Room
    requires |room.sent| == |room.sockets|
  {
    if !Counted(room, k, now, incoming) then room
    else
      var seen := room.(sockets := room.sockets[k := Spend(room.sockets[k], now).value]);
      var device := room.sockets[k].device;
      match incoming
      case CatalogUpdate(services) => if ValidCatalog(services, device) then Publish(seen, k, services) else seen
      case SignalTo(to, signal) =>
        if ValidId(to) && to != device && signal.Some? then Relay(seen, k, to, signal.value) else seen
      case _ => seen
  }

  predicate Stale(a: Attachment, pong: int, now: int) {
    now - (if a.lastSeen > pong then a.lastSeen else pong) > SILENCE_MS || now - a.connected > TOKEN_MS
  }

  /** The alarm over the first `n` sockets; `pongs` is when each last answered a ping, 0 if never. */
  function Evict(room: Room, now: int, pongs: map<nat, int>, n: nat): (after: Room)
    requires |room.sent| == |room.sockets| && n <= |room.sockets|
    ensures |after.sent| == |after.sockets| == |room.sockets|
    ensures forall j :: n <= j < |room.sockets| ==> after.sockets[j] == room.sockets[j]
    decreases n
  {
    if n == 0 then room
    else
      var before := Evict(room, now, pongs, n - 1);
      if Active(before.sockets, n - 1) && Stale(before.sockets[n - 1], Pong(pongs, n - 1), now) then
        Remove(before, n - 1)
      else before
  }

  function Pong(pongs: map<nat, int>, k: nat): int {
    if k in pongs then pongs[k] else 0
  }

  // ---------- what a peer has pieced together ----------

  function Hear(view: map<string, Services>, m: Message): map<string, Services> {
    match m
    case CatalogOf(device, services) => view[device := services]
    case Gone(device) => view - {device}
    case Signal(_, _) => view
  }

  function View(messages: seq<Message>): map<string, Services> {
    if messages == [] then map[] else Hear(View(messages[..|messages| - 1]), messages[|messages| - 1])
  }

  lemma ViewSnoc(messages: seq<Message>, m: Message)
    ensures View(messages + [m]) == Hear(View(messages), m)
  {
    assert (messages + [m])[..|messages|] == messages;
  }

  ghost predicate HasOther(sockets: seq<Attachment>, k: int, d: string) {
    exists j :: Active(sockets, j) && j != k && sockets[j].device == d
  }

  /** About device `d`, socket `k` has heard just what the table says. */
  ghost predicate Sees(room: Room, k: int, d: string)
    requires |room.sent| == |room.sockets|
  {
    Active(room.sockets, k) ==>
      && (d in View(room.sent[k]) <==> HasOther(room.sockets, k, d))
      && (d in View(room.sent[k]) ==> View(room.sent[k])[d] == Stored(room.catalog, d))
  }

  ghost predicate DistinctDevices(sockets: seq<Attachment>) {
    forall i, j :: Active(sockets, i) && Active(sockets, j) && i != j ==> sockets[i].device != sockets[j].device
  }

  ghost predicate CatalogsBelong(sockets: seq<Attachment>, catalog: map<string, Services>) {
    forall d :: d in catalog ==> ValidCatalog(catalog[d], d) && exists j :: Active(sockets, j) && sockets[j].device == d
  }

  ghost predicate SocketsOk(sockets: seq<Attachment>) {
    && DistinctDevices(sockets)
    && ActiveCount(sockets) <= MAX_DEVICES
    && (forall j :: 0 <= j < |sockets| ==> sockets[j].messages <= BUDGET_MESSAGES)
    && (forall j :: Active(sockets, j) ==> ValidId(sockets[j].device))
  }

  /**
   * Active devices are distinct and at most sixteen, every stored catalog is a valid one of an active device, and
   * every peer's view is the table's.
   */
  ghost predicate Inv(room: Room) {
    && |room.sent| == |room.sockets|
    && SocketsOk(room.sockets)
    && CatalogsBelong(room.sockets, room.catalog)
    && forall k, d :: Sees(room, k, d)
  }

  // ---------- counting ----------

  lemma {:induction false} CountOfUpdate(sockets: seq<Attachment>, k: nat, a: Attachment)
    requires k < |sockets|
    ensures ActiveCount(sockets[k := a]) + (if Active(sockets, k) then 1 else 0) ==
            ActiveCount(sockets) + if a.device != "" then 1 else 0
    decreases |sockets|
  {
    var n := |sockets| - 1;
    if k == n {
      assert sockets[k := a][..n] == sockets[..n];
    } else {
      assert sockets[k := a][..n] == sockets[..n][k := a];
      CountOfUpdate(sockets[..n], k, a);
    }
  }

  lemma CountOfSnoc(sockets: seq<Attachment>, a: Attachment)
    ensures ActiveCount(sockets + [a]) == ActiveCount(sockets) + if a.device != "" then 1 else 0
  {
    assert (sockets + [a])[..|sockets|] == sockets;
  }

  lemma CountOfPrefix(sockets: seq<Attachment>, k: nat)
    requires k < |sockets|
    ensures ActiveCount(sockets[..k + 1]) == ActiveCount(sockets[..k]) + if Active(sockets, k) then 1 else 0
  {
    assert sockets[..k + 1] == sockets[..k] + [sockets[k]];
    CountOfSnoc(sockets[..k], sockets[k]);
  }

  // ---------- removing keeps the invariant ----------

  lemma DeactivatedSockets(sockets: seq<Attachment>, k: nat)
    requires SocketsOk(sockets) && Active(sockets, k)
    ensures SocketsOk(Deactivated(sockets, k))
    ensures forall j :: Active(Deactivated(sockets, k), j) <==> Active(sockets, j) && j != k
  {
    CountOfUpdate(sockets, k, sockets[k].(device := ""));
  }

  lemma RemoveIsSeen(room: Room, k: nat, i: int, d: string)
    requires Inv(room) && Active(room.sockets, k)
    ensures Sees(Remove(room, k), i, d)
  {
    var device, after := room.sockets[k].device, Remove(room, k);
    DeactivatedSockets(room.sockets, k);
    if Active(after.sockets, i) {
      assert Sees(room, i, d);
      assert after.sent[i] == room.sent[i] + [Gone(device)];
      ViewSnoc(room.sent[i], Gone(device));
      if d == device {
        assert !HasOther(after.sockets, i, d);
      } else {
        forall j ensures Active(room.sockets, j) && room.sockets[j].device == d <==>
            Active(after.sockets, j) && after.sockets[j].device == d {
        }
        assert HasOther(after.sockets, i, d) <==> HasOther(room.sockets, i, d);
      }
    }
  }

  lemma RemoveKeepsInv(room: Room, k: nat)
    requires Inv(room)
    ensures Inv(Remove(room, k))
  {
    if Active(room.sockets, k) {
      var after := Remove(room, k);
      DeactivatedSockets(room.sockets, k);
      forall i, d ensures Sees(after, i, d) {
        RemoveIsSeen(room, k, i, d);
      }
      forall d | d in after.catalog ensures exists j :: Active(after.sockets, j) && after.sockets[j].device == d {
        var j :| Active(room.sockets, j) && room.sockets[j].device == d;
        assert Active(after.sockets, j) && after.sockets[j].device == d;
      }
    }
  }

  // ---------- connecting keeps the invariant ----------

  /** One of the first `n` sockets is an active one of device `d`. */
  ghost predicate AmongFirst(sockets: seq<Attachment>, n: nat, d: string) {
    exists j :: 0 <= j < n && Active(sockets, j) && sockets[j].device == d
  }

  lemma AmongFirstStep(sockets: seq<Attachment>, n: nat, d: string)
    requires 0 < n <= |sockets|
    ensures AmongFirst(sockets, n, d) <==>
            AmongFirst(sockets, n - 1, d) || (sockets[n - 1].device == d && d != "")
  {
    if sockets[n - 1].device == d && d != "" {
      assert Active(sockets, n - 1);
    }
  }

  lemma {:induction false} GreetingsTellTheTable(room: Room, device: string, n: nat, d: string)
    requires n <= |room.sockets|
    ensures d in View(Greetings(room, device, n)) <==> d != device && AmongFirst(room.sockets, n, d)
    ensures d in View(Greetings(room, device, n)) ==> View(Greetings(room, device, n))[d] == Stored(room.catalog, d)
  {
    if n > 0 {
      GreetingsTellTheTable(room, device, n - 1, d);
      AmongFirstStep(room.sockets, n, d);
      var peer := room.sockets[n - 1].device;
      if peer != "" && peer != device {
        ViewSnoc(Greetings(room, device, n - 1), CatalogOf(peer, Stored(room.catalog, peer)));
      } else {
        assert Greetings(room, device, n) == Greetings(room, device, n - 1);
      }
    }
  }

  /** The room with `device` out of the table, though its peers have not been told. */
  ghost predicate VacatedOk(room: Room, device: string) {
    && |room.sent| == |room.sockets| && device != ""
    && SocketsOk(room.sockets) && CatalogsBelong(room.sockets, room.catalog)
    && device !in room.catalog && (forall j :: Active(room.sockets, j) ==> room.sockets[j].device != device)
    && forall k, d :: d != device ==> Sees(room, k, d)
  }

  lemma VacatingLeavesOthers(room: Room, device: string)
    requires Inv(room) && ValidId(device)
    ensures VacatedOk(Vacated(room, device), device)
    ensures Find(room.sockets, device).Some? ==> ActiveCount(Vacated(room, device).sockets) < ActiveCount(room.sockets)
  {
    var after := Vacated(room, device);
    var existing := Find(room.sockets, device);
    if existing.Some? {
      DeactivatedSockets(room.sockets, existing.value);
      CountOfUpdate(room.sockets, existing.value, room.sockets[existing.value].(device := ""));
    }
    forall d | d in after.catalog ensures exists j :: Active(after.sockets, j) && after.sockets[j].device == d {
      var j :| Active(room.sockets, j) && room.sockets[j].device == d;
      assert Active(after.sockets, j) && after.sockets[j].device == d;
    }
    forall k, d | d != device ensures Sees(after, k, d) {
      assert Sees(room, k, d);
      forall j ensures Active(room.sockets, j) && room.sockets[j].device == d <==>
          Active(after.sockets, j) && after.sockets[j].device == d {
      }
      assert HasOther(after.sockets, k, d) <==> HasOther(room.sockets, k, d);
    }
  }

  lemma JoinIsSeen(room: Room, device: string, now: int, k: int, d: string)
    requires VacatedOk(room, device)
    ensures Sees(Join(room, device, now), k, d)
  {
    var n, after := |room.sockets|, Join(room, device, now);
    forall j | 0 <= j < n ensures after.sockets[j] == room.sockets[j] {
    }
    if k == n {
      GreetingsTellTheTable(room, device, n, d);
      assert after.sent[n] == Greetings(room, device, n);
      if HasOther(after.sockets, n, d) {
        var j :| Active(after.sockets, j) && j != n && after.sockets[j].device == d;
        assert Active(room.sockets, j) && room.sockets[j].device == d;
      }
      if d != device && AmongFirst(room.sockets, n, d) {
        var j :| 0 <= j < n && Active(room.sockets, j) && room.sockets[j].device == d;
        assert Active(after.sockets, j) && j != n && after.sockets[j].device == d;
      }
    } else if Active(after.sockets, k) {
      assert Active(room.sockets, k);
      assert after.sent[k] == room.sent[k] + [CatalogOf(device, [])];
      ViewSnoc(room.sent[k], CatalogOf(device, []));
      if d == device {
        assert Active(after.sockets, n) && after.sockets[n].device == d;
      } else {
        assert Sees(room, k, d);
        JoinKeepsOthers(room, device, now, k, d);
      }
    }
  }

  lemma JoinKeepsOthers(room: Room, device: string, now: int, k: int, d: string)
    requires |room.sent| == |room.sockets| && d != device
    ensures HasOther(Join(room, device, now).sockets, k, d) <==> HasOther(room.sockets, k, d)
  {
    var after := Join(room, device, now);
    forall j ensures Active(room.sockets, j) && room.sockets[j].device == d <==>
        Active(after.sockets, j) && after.sockets[j].device == d {
    }
  }

  lemma JoinKeepsInv(room: Room, device: string, now: int)
    requires VacatedOk(room, device) && ValidId(device) && ActiveCount(room.sockets) < MAX_DEVICES
    ensures Inv(Join(room, device, now))
  {
    var after := Join(room, device, now);
    CountOfSnoc(room.sockets, Attachment(device, now, now, now, 0));
    forall k, d ensures Sees(after, k, d) {
      JoinIsSeen(room, device, now, k, d);
    }
    forall d | d in after.catalog ensures exists j :: Active(after.sockets, j) && after.sockets[j].device == d {
      var j :| Active(room.sockets, j) && room.sockets[j].device == d;
      assert Active(after.sockets, j) && after.sockets[j].device == d;
    }
  }

  // ---------- messages keep the invariant ----------

  lemma SpendKeepsInv(room: Room, k: nat, now: int)
    requires Inv(room) && Active(room.sockets, k) && Spend(room.sockets[k], now).Some?
    ensures Inv(room.(sockets := room.sockets[k := Spend(room.sockets[k], now).value]))
  {
    var after := room.(sockets := room.sockets[k := Spend(room.sockets[k], now).value]);
    CountOfUpdate(room.sockets, k, after.sockets[k]);
    assert forall j :: 0 <= j < |room.sockets| ==> after.sockets[j].device == room.sockets[j].device;
    assert forall j :: Active(after.sockets, j) <==> Active(room.sockets, j);
    forall i, d ensures Sees(after, i, d) {
      assert Sees(room, i, d);
      assert HasOther(after.sockets, i, d) <==> HasOther(room.sockets, i, d);
    }
    forall d | d in after.catalog ensures exists j :: Active(after.sockets, j) && after.sockets[j].device == d {
      var j :| Active(room.sockets, j) && room.sockets[j].device == d;
      assert Active(after.sockets, j) && after.sockets[j].device == d;
    }
  }

  lemma PublishKeepsInv(room: Room, k: nat, services: Services)
    requires Inv(room) && Active(room.sockets, k) && ValidCatalog(services, room.sockets[k].device)
    ensures Inv(Publish(room, k, services))
  {
    var device, after := room.sockets[k].device, Publish(room, k, services);
    forall i, d ensures Sees(after, i, d) {
      assert Sees(room, i, d);
      if Active(room.sockets, i) && i != k {
        ViewSnoc(room.sent[i], CatalogOf(device, services));
      }
    }
  }

  lemma RelayKeepsInv(room: Room, k: nat, to: string, signal: string)
    requires Inv(room) && Active(room.sockets, k)
    ensures Inv(Relay(room, k, to, signal))
  {
    var after, target := Relay(room, k, to, signal), Find(room.sockets, to);
    var told := if target.Some? then target.value else k;
    var m := if target.Some? then Signal(room.sockets[k].device, signal) else Gone(to);
    ViewSnoc(room.sent[told], m);
    forall i, d ensures Sees(after, i, d) {
      assert Sees(room, i, d);
    }
  }

  lemma OnMessageKeepsInv(room: Room, k: nat, now: int, incoming: Incoming)
    requires Inv(room)
    ensures Inv(OnMessage(room, k, now, incoming))
  {
    if Counted(room, k, now, incoming) {
      SpendKeepsInv(room, k, now);
      var seen := room.(sockets := room.sockets[k := Spend(room.sockets[k], now).value]);
      match incoming
      case CatalogUpdate(services) =>
        if ValidCatalog(services, room.sockets[k].device) { PublishKeepsInv(seen, k, services); }
      case SignalTo(to, signal) => if signal.Some? { RelayKeepsInv(seen, k, to, signal.value); }
      case _ =>
    }
  }

  // ---------- the message budget ----------

  /** The attachment after counting messages at `times` in turn; none once the budget is passed. */
  function SpendAll(a: Attachment, times: seq<int>): Option<Attachment>
    decreases times
  {
    if times == [] then Some(a)
    else
      var next := Spend(a, times[0]);
      if next.None? then None else SpendAll(next.value, times[1..])
  }

  lemma {:induction false} BudgetResets(a: Attachment, times: seq<int>) returns (k: nat, next: Attachment)
    requires a.messages <= BUDGET_MESSAGES && SpendAll(a, times).Some? && |times| > BUDGET_MESSAGES - a.messages
    ensures k <= BUDGET_MESSAGES - a.messages && times[k] - a.budgetAt > BUDGET_WINDOW_MS
    ensures next.budgetAt == times[k] && next.messages == 1 && SpendAll(next, times[k + 1..]).Some?
    decreases times
  {
    var b := Spend(a, times[0]).value;
    if times[0] - a.budgetAt > BUDGET_WINDOW_MS {
      k, next := 0, b;
    } else {
      k, next := BudgetResets(b, times[1..]);
      assert times[1..][k + 1..] == times[k + 2..];
      k := k + 1;
    }
  }

  /**
   * No socket gets more than two budgets' worth of messages through in one window: 241 in a row span over ten
   * seconds.
   */
  lemma BudgetBoundsTheRate(a: Attachment, times: seq<int>)
    requires a.messages <= BUDGET_MESSAGES && SpendAll(a, times).Some? && |times| > 2 * BUDGET_MESSAGES
    ensures exists i, j :: 0 <= i < j < |times| && times[j] - times[i] > BUDGET_WINDOW_MS
  {
    var i, next := BudgetResets(a, times);
    var j, _ := BudgetResets(next, times[i + 1..]);
    assert times[i + 1..][j] == times[i + 1 + j];
  }

  /** Two budgets' worth can indeed arrive almost at once, at the end of one window and the start of the next. */
  lemma TwoBudgetsMayMeet(device: string)
    ensures var a := Attachment(device, 0, 0, 0, 0);
            var times := seq(240, i => if i < 120 then 10_000 else 10_001);
            SpendAll(a, times).Some?
  {
    var a := Attachment(device, 0, 0, 0, 0);
    SpendSameTime(a, 120, 10_000, seq(120, _ => 10_001));
    var b := a.(lastSeen := 10_000, messages := 120);
    var c := b.(budgetAt := 10_001, lastSeen := 10_001, messages := 1);
    assert seq(120, _ => 10_001)[1..] == seq(119, _ => 10_001);
    SpendSameTime(c, 119, 10_001, []);
    assert seq(119, _ => 10_001) + [] == seq(119, _ => 10_001);
    assert seq(240, i => if i < 120 then 10_000 else 10_001) == seq(120, _ => 10_000) + seq(120, _ => 10_001);
  }

  /** `n` messages at one moment inside the window, with room for them all, are all counted. */
  lemma {:induction false} SpendSameTime(a: Attachment, n: nat, t: int, rest: seq<int>)
    requires 0 <= t - a.budgetAt <= BUDGET_WINDOW_MS && a.messages + n <= BUDGET_MESSAGES && n > 0
    ensures SpendAll(a, seq(n, _ => t) + rest) == SpendAll(a.(lastSeen := t, messages := a.messages + n), rest)
    decreases n
  {
    var all, next := seq(n, _ => t) + rest, a.(lastSeen := t, messages := a.messages + 1);
    assert all[1..] == seq(n - 1, _ => t) + rest;
    if n > 1 {
      SpendSameTime(next, n - 1, t, rest);
    } else {
      assert all[1..] == rest;
    }
  }

  /** Messages counted in turn at `times` all leave the budget's window open no earlier than the last reset. */
  lemma {:induction false} CountedInWindow(a: Attachment, times: seq<int>)
    requires SpendAll(a, times).Some? && (forall i, j :: 0 <= i <= j < |times| ==> times[i] <= times[j])
    requires (forall i :: 0 <= i < |times| ==> a.budgetAt <= times[i]) && a.messages == 0
    ensures var b := SpendAll(a, times).value;
            && b.messages <= |times| && (times != [] ==> b.budgetAt <= times[|times| - 1])
            && forall i :: |times| - b.messages <= i < |times| ==> b.budgetAt <= times[i]
    decreases |times|
  {
    if times != [] {
      var pre, t := times[..|times| - 1], times[|times| - 1];
      assert times == pre + [t];
      SpendAllSnoc(a, pre, t);
      CountedInWindow(a, pre);
      var b := SpendAll(a, pre).value;
      assert b.budgetAt <= t by {
        assert pre != [] ==> pre[|pre| - 1] <= t;
      }
    }
  }

  lemma {:induction false} SpendAllSnoc(a: Attachment, times: seq<int>, t: int)
    ensures SpendAll(a, times + [t]) ==
            if SpendAll(a, times).None? then None else Spend(SpendAll(a, times).value, t)
    decreases times
  {
    if times == [] {
      assert [t][1..] == [];
    } else {
      assert (times + [t])[1..] == times[1..] + [t];
      var next := Spend(a, times[0]);
      if next.Some? {
        SpendAllSnoc(next.value, times[1..], t);
      }
    }
  }

  /**
   * A message is refused for its rate only when the socket had 120 messages counted in the ten seconds before it: after
   * joining at `at`, messages counted at `times` in turn, the next one is turned away at `now`.
   */
  lemma RefusedOnlyWhenBusy(device: string, at: int, times: seq<int>, now: int)
    requires forall i, j :: 0 <= i <= j < |times| ==> at <= times[i] <= times[j]
    requires SpendAll(Attachment(device, at, at, at, 0), times).Some?
    requires Spend(SpendAll(Attachment(device, at, at, at, 0), times).value, now).None?
    ensures |times| >= 120 && forall i :: |times| - 120 <= i < |times| ==> now - times[i] <= 10_000
  {
    var a := Attachment(device, at, at, at, 0);
    CountedInWindow(a, times);
    var b := SpendAll(a, times).value;
    assert b.messages >= 120 && now - b.budgetAt <= 10_000;
  }

  /** The socket's window has passed, or fewer than 120 messages were counted in it. */
  predicate InBudget(a: Attachment, now: int) {
    now - a.budgetAt > 10_000 || a.messages < 120
  }

  /** A message counts exactly when its socket takes part, it is signaling at all, and the budget has room. */
  lemma CountedExactly(room: Room, k: nat, now: int, incoming: Incoming)
    ensures Counted(room, k, now, incoming) <==>
            Active(room.sockets, k) && !incoming.NotSignaling? && InBudget(room.sockets[k], now)
  {
    if Active(room.sockets, k) && !incoming.NotSignaling? && InBudget(room.sockets[k], now) {
      assert Spend(room.sockets[k], now).Some?;
    }
  }

  /** An active socket of the device. */
  ghost predicate Present(room: Room, device: string) {
    exists j :: Active(room.sockets, j) && room.sockets[j].device == device
  }

  /** What a message on socket `k` adds to what socket `i` is sent. */
  ghost function Adds(room: Room, k: nat, now: int, incoming: Incoming, i: nat): seq<Message>
    requires |room.sent| == |room.sockets| && i < |room.sockets|
  {
    if !Active(room.sockets, k) || incoming.NotSignaling? || !InBudget(room.sockets[k], now) then []
    else
      var device, to := room.sockets[k].device, room.sockets[i].device;
      match incoming
      case CatalogUpdate(services) =>
        if ValidCatalog(services, device) && to != "" && i != k then [CatalogOf(device, services)] else []
      case SignalTo(target, Some(signal)) =>
        if !ValidId(target) || target == device then []
        else if to == target then [Signal(device, signal)]
        else if i == k && !Present(room, target) then [Gone(target)]
        else []
      case _ => []
  }

  lemma RelaySends(room: Room, k: nat, to: string, signal: string, i: nat)
    requires Inv(room) && Active(room.sockets, k) && i < |room.sockets| && to != ""
    ensures Relay(room, k, to, signal).sent[i] ==
            room.sent[i]
            + if room.sockets[i].device == to then [Signal(room.sockets[k].device, signal)]
              else if i == k && !Present(room, to) then [Gone(to)]
              else []
  {
    if Find(room.sockets, to).Some? {
      var j := Find(room.sockets, to).value;
      assert Active(room.sockets, j) && room.sockets[j].device == to;
      assert Present(room, to);
    }
    if room.sockets[i].device == to {
      assert Active(room.sockets, i);
    }
    assert room.sent[i] + [] == room.sent[i];
  }

  /**
   * Exactly what a message sends. A catalog accepted from a device goes to every other active socket; a signal to
   * another device goes to that device's socket, or comes back as `gone` when there is none; nothing else is sent.
   */
  lemma MessageSendsExactly(room: Room, k: nat, now: int, incoming: Incoming, i: nat)
    requires Inv(room) && i < |room.sockets|
    ensures |OnMessage(room, k, now, incoming).sent| == |room.sent|
    ensures OnMessage(room, k, now, incoming).sent[i] == room.sent[i] + Adds(room, k, now, incoming, i)
  {
    assert room.sent[i] + [] == room.sent[i];
    CountedExactly(room, k, now, incoming);
    if Counted(room, k, now, incoming) && incoming.SignalTo? && incoming.signal.Some? && ValidId(incoming.to) {
      var seen := room.(sockets := room.sockets[k := Spend(room.sockets[k], now).value]);
      SpendKeepsInv(room, k, now);
      RelaySends(seen, k, incoming.to, incoming.signal.value, i);
      SamePresence(room, seen, incoming.to);
    }
  }

  lemma SamePresence(room: Room, seen: Room, device: string)
    requires |seen.sockets| == |room.sockets|
    requires forall j :: 0 <= j < |room.sockets| ==> seen.sockets[j].device == room.sockets[j].device
    ensures Present(seen, device) <==> Present(room, device)
  {
    forall j ensures Active(seen.sockets, j) <==> Active(room.sockets, j) {
    }
  }

  // ---------- the alarm ----------

  lemma {:induction false} EvictKeepsInv(room: Room, now: int, pongs: map<nat, int>, n: nat)
    requires Inv(room) && n <= |room.sockets|
    ensures Inv(Evict(room, now, pongs, n))
    decreases n
  {
    if n > 0 {
      var before := Evict(room, now, pongs, n - 1);
      EvictKeepsInv(room, now, pongs, n - 1);
      if Evict(room, now, pongs, n) != before {
        RemoveKeepsInv(before, n - 1);
        assert Evict(room, now, pongs, n) == Remove(before, n - 1);
      }
    }
  }

  lemma RemoveTouchesOneSocket(room: Room, k: nat, j: nat)
    requires |room.sent| == |room.sockets| && j < |room.sockets|
    ensures |Remove(room, k).sockets| == |room.sockets|
    ensures Remove(room, k).sockets[j] == if j == k then room.sockets[j].(device := "") else room.sockets[j]
  {
  }

  /** The alarm retires exactly the sockets that fell silent or outlived their token, and touches no other. */
  lemma {:induction false} EvictsExactlyTheStale(room: Room, now: int, pongs: map<nat, int>, n: nat, j: nat)
    requires |room.sent| == |room.sockets| && j < n <= |room.sockets|
    ensures var stale := Active(room.sockets, j) && Stale(room.sockets[j], Pong(pongs, j), now);
            Evict(room, now, pongs, n).sockets[j] == if stale then room.sockets[j].(device := "") else room.sockets[j]
    decreases n
  {
    var before := Evict(room, now, pongs, n - 1);
    if j < n - 1 {
      EvictsExactlyTheStale(room, now, pongs, n - 1, j);
    }
    RemoveTouchesOneSocket(before, n - 1, j);
  }
}
