/** The preview room's handlers over its own sockets and table (edge/src/preview-room.ts:9-120). */
module PreviewRoom {
  import opened Options
  import opened Preview
  import Runs = PreviewRuns

  /** The cleaned catalog, or nothing when any entry is unacceptable or an id repeats. */
  method CheckCatalog(services: Services, device: string) returns (output: Option<Services>)
    ensures output == if ValidCatalog(services, device) then Some(services) else None
  {
    if |services| > MAX_SERVICES {
      return None;
    }
    var ids: set<string>, clean: Services := {}, [];
    var i := 0;
    while i < |services|
      invariant 0 <= i <= |services| && clean == services[..i]
      invariant ids == set s | s in services[..i] :: s.id
      invariant ValidCatalog(services[..i], device)
    {
      var s := services[i];
      assert services[..i + 1] == services[..i] + [s];
      if !ValidService(s, device) || s.id in ids {
        if s.id in ids {
          RepeatedIdIsInvalid(services, device, i);
        }
        return None;
      }
      ids, clean := ids + {s.id}, clean + [s];
      i := i + 1;
    }
    assert services[..i] == services;
    return Some(clean);
  }

  lemma RepeatedIdIsInvalid(services: Services, device: string, i: nat)
    requires i < |services| && exists t :: t in services[..i] && t.id == services[i].id
    ensures !ValidCatalog(services, device)
  {
    var t :| t in services[..i] && t.id == services[i].id;
    var j :| 0 <= j < i && services[..i][j] == t;
    assert services[j].id == services[i].id;
  }

  class Room {
    var sockets: seq<Attachment>
    var catalog: map<string, Services>
    var sent: seq<seq<Message>>

    ghost predicate Valid()
      reads this
    {
      |sent| == |sockets|
    }

    ghost function State(): Preview.Room
      reads this
    {
      Preview.Room(sockets, catalog, sent)
    }

    constructor ()
      ensures Valid() && State() == EMPTY
    {
      sockets, catalog, sent := [], map[], [];
    }

    method FindSocket(device: string) returns (found: Option<nat>)
      requires Valid()
      ensures found == Find(sockets, device)
    {
      var k := 0;
      while k < |sockets|
        invariant 0 <= k <= |sockets|
        invariant Find(sockets, device) == FindFrom(sockets, device, k)
      {
        if sockets[k].device != "" && sockets[k].device == device {
          return Some(k);
        }
        k := k + 1;
      }
      return None;
    }

    method CountSockets() returns (n: nat)
      ensures n == ActiveCount(sockets)
    {
      n := 0;
      var k := 0;
      while k < |sockets|
        invariant 0 <= k <= |sockets| && n == ActiveCount(sockets[..k])
      {
        CountOfPrefix(sockets, k);
        if sockets[k].device != "" {
          n := n + 1;
        }
        k := k + 1;
      }
      assert sockets[..k] == sockets;
    }

    /** Sends `m` to every active socket but one. */
    method BroadcastExcept(m: Message, except: int)
      requires Valid()
      modifies this`sent
      ensures sent == Broadcast(sockets, old(sent), m, except)
    {
      var k := 0;
      while k < |sockets|
        invariant 0 <= k <= |sockets| == |sent|
        invariant sent[..k] == Broadcast(sockets, old(sent), m, except)[..k]
        invariant sent[k..] == old(sent)[k..]
      {
        assert sent[k] == sent[k..][0] == old(sent)[k..][0] == old(sent)[k];
        if sockets[k].device != "" && k != except {
          sent := sent[k := sent[k] + [m]];
        }
        assert Broadcast(sockets, old(sent), m, except)[..k + 1] == Broadcast(sockets, old(sent), m, except)[..k]
            + [sent[k]];
        k := k + 1;
      }
      assert sent[..k] == sent;
    }

    /** The socket leaves: its catalog is dropped and its peers are told. */
    method RemoveSocket(k: nat)
      requires Valid() && k < |sockets|
      modifies this
      ensures Valid() && State() == Remove(old(State()), k)
    {
      var device := sockets[k].device;
      if device == "" {
        return;
      }
      sockets := sockets[k := sockets[k].(device := "")];
      catalog := catalog - {device};
      BroadcastExcept(Gone(device), k);
    }

    /** A connection: refused, or a new socket that replaces the device's earlier one. */
    method HandleConnect(authenticated: bool, upgrade: bool, device: string, now: int) returns (answer: Answer)
      requires Valid()
      modifies this
      ensures Valid() && State() == Runs.Step(old(State()), Runs.Connect(authenticated, upgrade, device, now))
      ensures answer == ConnectAnswer(old(State()), authenticated, upgrade, device)
    {
      if !authenticated { return Unauthorized; }
      if !upgrade { return UpgradeRequired; }
      if !ValidId(device) { return InvalidDevice; }
      var existing := FindSocket(device);
      if existing.None? {
        var active := CountSockets();
        if active >= MAX_DEVICES { return DeviceLimit; }
      } else {
        sockets := sockets[existing.value := sockets[existing.value].(device := "")];
      }
      catalog := catalog - {device};
      assert State() == Vacated(old(State()), device);
      Admit(device, now);
      return Accepted;
    }

    /** Accepts the socket, announces it, and tells it of every peer. */
    method Admit(device: string, now: int)
      requires Valid() && device != ""
      modifies this
      ensures Valid() && State() == Join(old(State()), device, now)
    {
      var n := |sockets|;
      sockets, sent := sockets + [Attachment(device, now, now, now, 0)], sent + [[]];
      BroadcastExcept(CatalogOf(device, []), n);
      assert sent[n] == [];
      assert sent[..n] == Broadcast(old(sockets), old(sent), CatalogOf(device, []), n);
      ghost var announced := sent[..n];
      var k := 0;
      while k < n
        invariant 0 <= k <= n && |sent| == n + 1 && sent[..n] == announced
        invariant sockets == old(sockets) + [Attachment(device, now, now, now, 0)] && catalog == old(catalog)
        invariant sent[n] == Greetings(old(State()), device, k)
      {
        var peer := sockets[k].device;
        if peer != "" && peer != device {
          sent := sent[n := sent[n] + [CatalogOf(peer, if peer in catalog then catalog[peer] else [])]];
        }
        k := k + 1;
      }
      assert sent == sent[..n] + [sent[n]];
    }

    /** A message: counted against the socket's budget, then published, relayed, or answered by closing the socket. */
    method HandleMessage(k: nat, now: int, incoming: Incoming) returns (close: bool)
      requires Valid() && k < |sockets|
      modifies this
      ensures Valid() && State() == OnMessage(old(State()), k, now, incoming)
      ensures close <==>
              var device := old(sockets)[k].device;
              && device != ""
              && (incoming.NotSignaling? || !InBudget(old(sockets)[k], now)
                  || match incoming
                     case CatalogUpdate(services) => !ValidCatalog(services, device)
                     case SignalTo(to, signal) => !ValidId(to) || to == device || signal.None?
                     case _ => true)
    {
      var info := sockets[k];
      CountedExactly(State(), k, now, incoming);
      if info.device == "" { return false; }
      if incoming.NotSignaling? { return true; }
      if now - info.budgetAt > BUDGET_WINDOW_MS {
        info := info.(budgetAt := now, messages := 0);
      }
      info := info.(messages := info.messages + 1);
      if info.messages > BUDGET_MESSAGES { return true; }
      info := info.(lastSeen := now);
      sockets := sockets[k := info];
      match incoming {
        case CatalogUpdate(services) =>
          var checked := CheckCatalog(services, info.device);
          if checked.None? { return true; }
          catalog := catalog[info.device := checked.value];
          BroadcastExcept(CatalogOf(info.device, checked.value), k);
          return false;
        case SignalTo(to, signal) =>
          if !ValidId(to) || to == info.device || signal.None? { return true; }
          var target := FindSocket(to);
          if target.Some? {
            sent := sent[target.value := sent[target.value] + [Signal(info.device, signal.value)]];
          } else {
            sent := sent[k := sent[k] + [Gone(to)]];
          }
          return false;
        case _ => return true;
      }
    }

    /** The alarm: sockets silent too long, or past their token's life, are removed. */
    method HandleAlarm(now: int, pongs: map<nat, int>)
      requires Valid()
      modifies this
      ensures Valid() && State() == Evict(old(State()), now, pongs, |old(sockets)|)
    {
      var k := 0;
      while k < |sockets|
        invariant 0 <= k <= |sockets| == |old(sockets)| && Valid()
        invariant State() == Evict(old(State()), now, pongs, k)
      {
        var info, pong := sockets[k], if k in pongs then pongs[k] else 0;
        if info.device != "" {
          var seen := if info.lastSeen > pong then info.lastSeen else pong;
          if now - seen > SILENCE_MS || now - info.connected > TOKEN_MS {
            RemoveSocket(k);
          }
        }
        k := k + 1;
      }
    }
  }
}
