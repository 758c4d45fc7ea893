/** The service controller: its maps, changed by every open, close, destroy, unplug and Bluetooth
    completion, and what holds between them after each. Outcomes of driver calls, permission checks
    and connection set-up are parameters. */
module Controller {
  import opened Words
  import opened Ledger
  import opened BleRequests

  const MAX_CLIENTS := 8
  const MAX_CLIENTS_PER_APP := 2
  const MAX_DEVICES_PER_CLIENT := 16
  const MAX_PORTS_PER_CLIENT := 64
  const MAX_CLIENTID := 0xFFFF_FFFF

  datatype Code =
    | OK | INVALID_CLIENT | INVALID_DEVICE_HANDLE | INVALID_PORT | GENERIC_INVALID_ARGUMENT | SYSTEM_ERROR
    | PERMISSION_DENIED | DEVICE_ALREADY_OPEN | PORT_ALREADY_OPEN
    | TOO_MANY_CLIENTS | TOO_MANY_OPEN_DEVICES | TOO_MANY_OPEN_PORTS

  type Apps = map<word, set<word>>

  ghost predicate AppOk(app: set<word>, infos: Infos, u: word) {
    |app| <= MAX_CLIENTS_PER_APP && forall c <- app :: c in infos && infos[c].uid == u
  }

  ghost predicate FiledUnder(info: Info, apps: Apps, c: word) {
    info.uid in apps && c in apps[info.uid] && info.openPortCount <= MAX_PORTS_PER_CLIENT
  }

  // Clients are filed under their own application, and nobody exceeds a limit.
  ghost predicate Filed(clients: set<word>, infos: Infos, apps: Apps) {
    && 0 !in clients && infos.Keys == clients && |clients| <= MAX_CLIENTS
    && (forall u {:trigger AppOk(apps[u], infos, u)} :: u in apps ==> AppOk(apps[u], infos, u))
    && (forall c {:trigger FiledUnder(infos[c], apps, c)} :: c in clients ==> FiledUnder(infos[c], apps, c))
  }

  ghost predicate WithinDeviceLimit(infos: Infos) {
    forall c <- infos :: |infos[c].openDevices| <= MAX_DEVICES_PER_CLIENT
  }

  lemma FiledCreated(clients: set<word>, infos: Infos, apps: Apps, uid: word)
    requires Filed(clients, infos, apps)
    ensures Filed(clients, infos, apps[uid := if uid in apps then apps[uid] else {}])
  {
    var apps' := apps[uid := if uid in apps then apps[uid] else {}];
    forall u | u in apps'
      ensures AppOk(apps'[u], infos, u)
    {
      assert u in apps ==> AppOk(apps[u], infos, u);
    }
    forall c | c in clients
      ensures FiledUnder(infos[c], apps', c)
    {
      assert FiledUnder(infos[c], apps, c);
    }
  }

  lemma FiledAdded(clients: set<word>, infos: Infos, apps: Apps, c: word, uid: word)
    requires Filed(clients, infos, apps) && c !in clients && c != 0 && |clients| < MAX_CLIENTS
    requires uid in apps && |apps[uid]| < MAX_CLIENTS_PER_APP
    ensures Filed(clients + {c}, infos[c := Info(uid, {}, 0)], apps[uid := apps[uid] + {c}])
  {
    var infos', apps' := infos[c := Info(uid, {}, 0)], apps[uid := apps[uid] + {c}];
    forall u | u in apps'
      ensures AppOk(apps'[u], infos', u)
    {
      assert AppOk(apps[u], infos, u);
      AppAdded(apps[u], infos, u, c, uid);
    }
    forall x | x in clients + {c}
      ensures FiledUnder(infos'[x], apps', x)
    {
      assert x != c ==> FiledUnder(infos[x], apps, x);
    }
  }

  lemma AppAdded(app: set<word>, infos: Infos, u: word, c: word, uid: word)
    requires AppOk(app, infos, u) && c !in infos && (u == uid ==> |app| < MAX_CLIENTS_PER_APP)
    ensures AppOk(if u == uid then app + {c} else app, infos[c := Info(uid, {}, 0)], u)
  {
  }

  // Filing depends neither on which devices are open nor, within the limit, on how many ports are.
  ghost predicate SameFile(infos: Infos, infos': Infos) {
    infos'.Keys == infos.Keys &&
    forall c <- infos :: infos'[c].uid == infos[c].uid && infos'[c].openPortCount <= MAX_PORTS_PER_CLIENT
  }

  lemma FiledAlike(clients: set<word>, infos: Infos, infos': Infos, apps: Apps)
    requires Filed(clients, infos, apps) && SameFile(infos, infos')
    ensures Filed(clients, infos', apps)
  {
    forall u | u in apps
      ensures AppOk(apps[u], infos', u)
    {
      assert AppOk(apps[u], infos, u);
    }
    forall c | c in clients
      ensures FiledUnder(infos'[c], apps, c)
    {
      assert FiledUnder(infos[c], apps, c);
    }
  }

  lemma FiledJoined(clients: set<word>, infos: Infos, apps: Apps, d: int, joiners: set<word>)
    requires Filed(clients, infos, apps)
    ensures Filed(clients, Joined(infos, d, joiners), apps)
  {
    forall c | c in infos
      ensures infos[c].openPortCount <= MAX_PORTS_PER_CLIENT
    {
      assert FiledUnder(infos[c], apps, c);
    }
    FiledAlike(clients, infos, Joined(infos, d, joiners), apps);
  }

  lemma JoinedOne(infos: Infos, d: int, c: word)
    requires c in infos
    ensures Joined(infos, d, {c}) == infos[c := infos[c].(openDevices := infos[c].openDevices + {d})]
  {
  }

  lemma FiledCharged(clients: set<word>, infos: Infos, apps: Apps, c: word, amount: int)
    requires Filed(clients, infos, apps) && c in infos && infos[c].openPortCount + amount <= MAX_PORTS_PER_CLIENT
    ensures Filed(clients, Charge(infos, c, amount), apps)
  {
    forall x | x in infos
      ensures infos[x].openPortCount <= MAX_PORTS_PER_CLIENT
    {
      assert FiledUnder(infos[x], apps, x);
    }
    FiledAlike(clients, infos, Charge(infos, c, amount), apps);
  }

  lemma FiledRemoved(clients: set<word>, infos: Infos, apps: Apps, c: word)
    requires Filed(clients, infos, apps) && c in clients
    ensures var u := infos[c].uid;
            && u in apps
            && Filed(clients - {c}, infos - {c}, if apps[u] == {c} then apps - {u} else apps[u := apps[u] - {c}])
  {
    var u := infos[c].uid;
    assert FiledUnder(infos[c], apps, c);
    var infos', apps' := infos - {c}, if apps[u] == {c} then apps - {u} else apps[u := apps[u] - {c}];
    forall v | v in apps'
      ensures AppOk(apps'[v], infos', v)
    {
      assert AppOk(apps[v], infos, v);
    }
    forall x | x in clients - {c}
      ensures FiledUnder(infos'[x], apps', x)
    {
      assert FiledUnder(infos[x], apps, x);
    }
  }

  lemma JoinedNobody(infos: Infos, d: int)
    ensures Joined(infos, d, {}) == infos
  {
  }

  lemma JoinedMore(infos: Infos, d: int, joiners: set<word>, c: word)
    requires c in infos
    ensures var infos' := Joined(infos, d, joiners);
            Joined(infos, d, joiners + {c}) == infos'[c := infos'[c].(openDevices := infos'[c].openDevices + {d})]
  {
  }

  // Joining keeps the device limit exactly if nobody who joins already has all the devices allowed
  // and not this one.
  ghost predicate HasRoomFor(infos: Infos, d: int, joiners: set<word>) {
    forall c <- joiners :: c in infos ==>
      d in infos[c].openDevices || |infos[c].openDevices| < MAX_DEVICES_PER_CLIENT
  }

  lemma LimitAfterJoining(infos: Infos, d: int, joiners: set<word>)
    requires WithinDeviceLimit(infos) && joiners <= infos.Keys
    ensures WithinDeviceLimit(Joined(infos, d, joiners)) <==> HasRoomFor(infos, d, joiners)
  {
    var infos' := Joined(infos, d, joiners);
    forall c | c in infos
      ensures |infos'[c].openDevices| ==
              |infos[c].openDevices| + if c in joiners && d !in infos[c].openDevices then 1 else 0
    {
      if d in infos[c].openDevices {
        assert infos[c].openDevices + {d} == infos[c].openDevices;
      }
    }
    forall c | c in joiners && WithinDeviceLimit(infos')
      ensures d in infos[c].openDevices || |infos[c].openDevices| < MAX_DEVICES_PER_CLIENT
    {
      assert |infos'[c].openDevices| <= MAX_DEVICES_PER_CLIENT;
    }
  }

  lemma LimitWithOneMore(infos: Infos, d: int, c: word)
    requires c in infos && |infos[c].openDevices| < MAX_DEVICES_PER_CLIENT
    ensures WithinDeviceLimit(infos) ==> WithinDeviceLimit(Joined(infos, d, {c}))
  {
    if WithinDeviceLimit(infos) {
      LimitAfterJoining(infos, d, {c});
    }
  }

  lemma LimitWithout(infos: Infos, c: word)
    ensures WithinDeviceLimit(infos) ==> WithinDeviceLimit(infos - {c})
  {
  }

  // One address of the device is forgotten, if it has any.
  ghost predicate Forgotten(ble: map<string, int>, ble': map<string, int>, d: int) {
    if exists a <- ble :: ble[a] == d then exists a <- ble :: ble[a] == d && ble' == ble - {a}
    else ble' == ble
  }

  // The device's addresses but two, or all if it has not so many: one went with the device's last client
  // and one with the driver's notification.
  ghost predicate ForgottenTwice(ble: map<string, int>, ble': map<string, int>, d: int) {
    exists mid :: Forgotten(ble, mid, d) && Forgotten(mid, ble', d)
  }

  // At most addresses of these devices are forgotten.
  ghost predicate OnlyForgotten(ble: map<string, int>, ble': map<string, int>, devices: set<int>) {
    && (forall a <- ble' :: a in ble && ble'[a] == ble[a])
    && forall a <- ble :: ble[a] !in devices ==> a in ble'
  }

  // The records once the device is gone: who had it is charged back its ports there.
  ghost function ChargedBack(infos: Infos, contexts: Contexts, d: int): Infos {
    if d !in contexts then infos
    else map c | c in infos ::
           if c in contexts[d].clients then Struck(infos[c], d, |PortsAt(contexts[d], c)|) else infos[c]
  }

  lemma OthersServed(open: set<(int, Port)>, contexts: Contexts, d: int)
    ensures Connected(contexts) <= open ==> Connected(contexts - {d}) <= OthersPorts(open, d)
  {
  }

  // If the device goes exactly its clients lose it, and otherwise nobody does.
  lemma WhoLoses(clients: set<word>, contexts: Contexts, infos: Infos, infos': Infos, d: int, gone: bool)
    requires Balanced(clients, contexts, infos, {})
    requires if gone then infos' == ChargedBack(infos, contexts, d)
             else exists joiners :: infos' == Joined(infos, d, joiners)
    ensures infos'.Keys == infos.Keys
    ensures forall c <- infos :: (d in infos[c].openDevices && d !in infos'[c].openDevices <==>
              gone && d in contexts && c in contexts[d].clients)
  {
    forall c | c in infos
      ensures d in infos[c].openDevices <==> d in contexts && c in contexts[d].clients
    {
      assert InfoOk(infos[c], contexts, c, {});
    }
  }

  lemma ForgottenOnly(ble: map<string, int>, mid: map<string, int>, ble': map<string, int>, devices: set<int>,
                      more: set<int>)
    requires OnlyForgotten(ble, mid, devices) && OnlyForgotten(mid, ble', more)
    ensures OnlyForgotten(ble, ble', devices + more)
  {
  }

  // What closing one connection did, or would have done.
  ghost predicate Closed(contexts: Contexts, contexts': Contexts, infos: Infos, infos': Infos, d: int, p: Port, c: word)
    requires c in infos
  {
    if HasConnection(contexts, d, p, c)
    then contexts' == Disconnect(contexts, d, p, c) && infos' == Charge(infos, c, -1)
    else contexts' == contexts && infos' == infos
  }

  // ---------- Client ids ----------

  // The j-th id that is tried after `start`.
  function Nth(start: word, j: nat): word {
    1 + (start % MAX_CLIENTID + j) % MAX_CLIENTID
  }

  lemma NthStep(start: word, j: nat)
    ensures Nth(start, j + 1) == if Nth(start, j) >= MAX_CLIENTID then 1 else Nth(start, j) + 1
    ensures Nth(start, 0) == if start >= MAX_CLIENTID then 1 else start + 1
  {
    var x := start % MAX_CLIENTID + j;
    assert (x + 1) % MAX_CLIENTID == if x % MAX_CLIENTID == MAX_CLIENTID - 1 then 0 else x % MAX_CLIENTID + 1;
  }

  lemma NthDiffers(start: word, j: nat, k: nat)
    requires j < k < MAX_CLIENTID
    ensures Nth(start, j) != Nth(start, k)
  {
    var s := start % MAX_CLIENTID;
    assert (s + k) - (s + j) == k - j;
    assert s + j < 2 * MAX_CLIENTID && s + k < 2 * MAX_CLIENTID;
  }

  lemma {:induction false} SubsetSize<T>(a: set<T>, b: set<T>)
    requires a <= b
    ensures |a| <= |b|
  {
    if a != {} {
      var x :| x in a;
      SubsetSize(a - {x}, b - {x});
    }
  }

  ghost function Tried(start: word, n: nat): set<word> {
    set j | 0 <= j < n :: Nth(start, j)
  }

  lemma {:induction false} TriedSize(start: word, n: nat)
    requires n <= MAX_CLIENTID
    ensures |Tried(start, n)| == n
  {
    if n > 0 {
      TriedSize(start, n - 1);
      assert Tried(start, n) == Tried(start, n - 1) + {Nth(start, n - 1)};
      forall j | 0 <= j < n - 1
        ensures Nth(start, j) != Nth(start, n - 1)
      {
        NthDiffers(start, j, n - 1);
      }
    }
  }

  lemma NoRoundLeft(start: word, n: nat, clients: set<word>)
    requires n <= |clients| + 1 <= MAX_CLIENTID && forall j :: 0 <= j < n ==> Nth(start, j) in clients
    ensures n <= |clients|
  {
    TriedSize(start, n);
    assert Tried(start, n) <= clients;
    SubsetSize(Tried(start, n), clients);
  }

  function OthersPorts(ports: set<(int, Port)>, d: int): set<(int, Port)> {
    set q | q in ports && q.0 != d
  }

  // One connection more, in all the books.
  lemma OneMoreConnection(clients: set<word>, contexts: Contexts, infos: Infos, apps: Apps, d: int, p: Port, c: word)
    requires Balanced(clients, contexts, infos, {}) && Filed(clients, infos, apps)
    requires c in clients && d in contexts && c in contexts[d].clients && !HasConnection(contexts, d, p, c)
    requires infos[c].openPortCount < MAX_PORTS_PER_CLIENT
    ensures Balanced(clients, Connect(contexts, d, p, c), Charge(infos, c, 1), {})
    ensures Filed(clients, Charge(infos, c, 1), apps)
    ensures Connected(Connect(contexts, d, p, c)) == Connected(contexts) + {(d, p)}
  {
    ConnectBalances(clients, contexts, infos, d, p, c);
    ConnectPorts(contexts, d, p, c);
    FiledCharged(clients, infos, apps, c, 1);
  }

  // One connection less.
  lemma OneLessConnection(clients: set<word>, contexts: Contexts, infos: Infos, apps: Apps, d: int, p: Port, c: word,
                          leaving: set<word>)
    requires Balanced(clients, contexts, infos, leaving) && Filed(clients, infos, apps)
    requires c in clients && HasConnection(contexts, d, p, c)
    ensures Balanced(clients, Disconnect(contexts, d, p, c), Charge(infos, c, -1), leaving)
    ensures Filed(clients, Charge(infos, c, -1), apps) && infos[c].openPortCount > 0
    ensures Connected(Disconnect(contexts, d, p, c)) ==
            if Without(contexts[d].conns[p], c) == [] then Connected(contexts) - {(d, p)} else Connected(contexts)
  {
    DisconnectBalances(clients, contexts, infos, d, p, c, leaving);
    DisconnectPorts(contexts, d, p, c);
    assert FiledUnder(infos[c], apps, c);
    FiledCharged(clients, infos, apps, c, -1);
  }

  // A port that nobody is connected to any more is closed, or fails to close.
  lemma AfterClosing(open: set<(int, Port)>, failed: set<(int, Port)>, connected: set<(int, Port)>, q: (int, Port))
    requires open <= connected + failed
    ensures open - {q} <= (connected - {q}) + (failed - {q}) && open <= (connected - {q}) + (failed + {q})
    ensures connected <= open ==> connected - {q} <= open - {q} && connected - {q} <= open
  {
  }

  class MidiServiceController {
    var clients: set<word>
    var contexts: Contexts
    var infos: Infos
    var apps: Apps
    var activeBle: map<string, int>
    var pending: Pending
    var currentClientId: word
    // The ports the drivers have open.
    var openPorts: set<(int, Port)>
    // Those whose driver failed to close them.
    ghost var failed: set<(int, Port)>
    // Requests accepted so far, and what became of them.
    var requests: nat
    ghost var fates: Fates
    // The calls of request callbacks, in order.
    var answers: seq<Answer>

    // No port is open that nobody is connected to, unless its driver failed to close it.
    ghost predicate InSync()
      reads this
    {
      openPorts <= Connected(contexts) + failed
    }

    // Every port that somebody is connected to is open.
    ghost predicate Served()
      reads this
    {
      Connected(contexts) <= openPorts
    }

    ghost predicate Valid()
      reads this
    {
      Sound() && Told(fates, answers)
    }

    // The same while answers are still to be given.
    ghost predicate Sound()
      reads this
    {
      && Balanced(clients, contexts, infos, {}) && Filed(clients, infos, apps)
      && Booked(pending, clients, fates, requests) && InSync()
    }

    constructor ()
      ensures Valid() && Served() && clients == {} && contexts == map[] && currentClientId == 0
      ensures infos == map[] && apps == map[] && pending == map[] && activeBle == map[]
      ensures openPorts == {} == failed && answers == [] && requests == 0
    {
      clients, contexts, infos, apps := {}, map[], map[], map[];
      activeBle, pending, currentClientId, openPorts := map[], map[], 0, {};
      failed, requests, fates, answers := {}, 0, map[], [];
    }

    // ---------- Clients ----------

    // The first unused id after the current one, round the end of the 32-bit range; found within one
    // round more than there are clients.
    method NextClientId() returns (id: word, ghost rounds: nat)
      requires |clients| < MAX_CLIENTID
      modifies this`currentClientId
      ensures id == currentClientId && id != 0 && id !in clients
      ensures 1 <= rounds <= |clients| + 1 && id == Nth(old(currentClientId), rounds - 1)
      ensures forall j :: 0 <= j < rounds - 1 ==> Nth(old(currentClientId), j) in clients
    {
      ghost var start := currentClientId;
      rounds := 0;
      NthStep(start, 0);
      while true
        invariant rounds <= |clients|
        invariant currentClientId == if rounds == 0 then start else Nth(start, rounds - 1)
        invariant forall j :: 0 <= j < rounds ==> Nth(start, j) in clients
        decreases |clients| - rounds
      {
        if currentClientId >= MAX_CLIENTID {
          currentClientId := 0;
        }
        currentClientId := currentClientId + 1;
        if rounds > 0 {
          NthStep(start, rounds - 1);
        }
        rounds := rounds + 1;
        if currentClientId !in clients {
          break;
        }
        NoRoundLeft(start, rounds, clients);
      }
      id := currentClientId;
    }

    // A failed creation may leave an empty entry for its application behind, and uses up an id.
    method CreateMidiInServer(uid: word, registered: bool) returns (code: Code, id: word)
      requires Valid()
      modifies this`clients, this`infos, this`apps, this`currentClientId
      ensures Valid()
      ensures var mine := if uid in old(apps) then |old(apps)[uid]| else 0;
              code == if |old(clients)| >= MAX_CLIENTS || mine >= MAX_CLIENTS_PER_APP then TOO_MANY_CLIENTS
                      else if !registered then SYSTEM_ERROR else OK
      ensures if code == OK
              then id != 0 && id !in old(clients) && clients == old(clients) + {id}
                   && infos == old(infos)[id := Info(uid, {}, 0)]
              else clients == old(clients) && infos == old(infos)
      ensures old(WithinDeviceLimit(infos)) ==> WithinDeviceLimit(infos)
    {
      id := 0;
      if |clients| >= MAX_CLIENTS {
        return TOO_MANY_CLIENTS, id;
      }
      FiledCreated(clients, infos, apps, uid);
      var appClients := if uid in apps then apps[uid] else {};
      apps := apps[uid := appClients];
      if |appClients| >= MAX_CLIENTS_PER_APP {
        return TOO_MANY_CLIENTS, id;
      }
      ghost var rounds;
      id, rounds := NextClientId();
      if !registered {
        return SYSTEM_ERROR, id;
      }
      Register(id, uid);
      return OK, id;
    }

    method Register(id: word, uid: word)
      requires Valid() && id !in clients && id != 0 && |clients| < MAX_CLIENTS
      requires uid in apps && |apps[uid]| < MAX_CLIENTS_PER_APP
      modifies this`clients, this`infos, this`apps
      ensures Valid() && clients == old(clients) + {id} && infos == old(infos)[id := Info(uid, {}, 0)]
    {
      AddClient(clients, contexts, infos, id, uid);
      WithClient(pending, clients, fates, requests, id);
      FiledAdded(clients, infos, apps, id, uid);
      clients := clients + {id};
      infos := infos[id := Info(uid, {}, 0)];
      apps := apps[uid := apps[uid] + {id}];
    }

    // ---------- Devices ----------

    predicate IsBluetoothDevice(d: int)
      reads this
    {
      exists a <- activeBle :: activeBle[a] == d
    }

    // One client joins a device.
    method AddToDevice(c: word, d: int)
      requires Valid() && c in clients
      modifies this`contexts, this`infos
      ensures Valid() && contexts == Join(old(contexts), d, {c}) && infos == Joined(old(infos), d, {c})
      ensures Served() == old(Served())
    {
      JoinBalances(clients, contexts, infos, d, {c});
      JoinPorts(contexts, d, {c});
      if d in contexts {
        contexts := contexts[d := contexts[d].(clients := contexts[d].clients + {c})];
      } else {
        contexts := contexts[d := Context({c}, map[])];
      }
      JoinedOne(infos, d, c);
      FiledJoined(clients, infos, apps, d, {c});
      infos := infos[c := infos[c].(openDevices := infos[c].openDevices + {d})];
    }

    method OpenDevice(c: word, d: int, permitted: bool, driverOk: bool) returns (code: Code)
      requires Valid()
      modifies this`contexts, this`infos
      ensures Valid() && Served() == old(Served())
      ensures code == if c !in clients then INVALID_CLIENT
                      else if IsBluetoothDevice(d) && !permitted then PERMISSION_DENIED
                      else if |old(infos)[c].openDevices| >= MAX_DEVICES_PER_CLIENT then TOO_MANY_OPEN_DEVICES
                      else if d in old(infos)[c].openDevices then DEVICE_ALREADY_OPEN
                      else if d !in old(contexts) && !driverOk then GENERIC_INVALID_ARGUMENT
                      else OK
      ensures if code == OK then contexts == Join(old(contexts), d, {c}) && infos == Joined(old(infos), d, {c})
              else contexts == old(contexts) && infos == old(infos)
      ensures old(WithinDeviceLimit(infos)) ==> WithinDeviceLimit(infos)
    {
      if c !in clients {
        return INVALID_CLIENT;
      }
      assert InfoOk(infos[c], contexts, c, {});
      if IsBluetoothDevice(d) && !permitted {
        return PERMISSION_DENIED;
      }
      if |infos[c].openDevices| >= MAX_DEVICES_PER_CLIENT {
        return TOO_MANY_OPEN_DEVICES;
      }
      if d in contexts {
        if c in contexts[d].clients {
          return DEVICE_ALREADY_OPEN;
        }
      } else if !driverOk {
        return GENERIC_INVALID_ARGUMENT;
      }
      LimitWithOneMore(infos, d, c);
      AddToDevice(c, d);
      return OK;
    }

    // ---------- Ports ----------

    // A driver's port is closed, unless the driver fails.
    method CloseDriverPort(d: int, p: Port, driver: Code)
      modifies this`openPorts, this`failed
      ensures openPorts == if driver == OK then old(openPorts) - {(d, p)} else old(openPorts)
      ensures failed == if driver == OK then old(failed) - {(d, p)} else old(failed) + {(d, p)}
    {
      if driver == OK {
        openPorts := openPorts - {(d, p)};
        failed := failed - {(d, p)};
      } else {
        failed := failed + {(d, p)};
      }
    }

    method AddConnection(c: word, d: int, p: Port)
      requires Balanced(clients, contexts, infos, {}) && Filed(clients, infos, apps)
      requires Booked(pending, clients, fates, requests)
      requires Told(fates, answers) && openPorts <= Connected(contexts) + {(d, p)} + failed
      requires c in clients && d in contexts && c in contexts[d].clients && !HasConnection(contexts, d, p, c)
      requires infos[c].openPortCount < MAX_PORTS_PER_CLIENT
      modifies this`contexts, this`infos
      ensures Valid() && contexts == Connect(old(contexts), d, p, c) && infos == Charge(old(infos), c, 1)
      ensures Served() <==> Connected(old(contexts)) + {(d, p)} <= openPorts
    {
      OneMoreConnection(clients, contexts, infos, apps, d, p, c);
      infos := infos[c := infos[c].(openPortCount := infos[c].openPortCount + 1)];
      var x := contexts[d];
      var conn := (if p in x.conns then x.conns[p] else []) + [c];
      contexts := contexts[d := x.(conns := x.conns[p := conn])];
    }

    method ConnectToExistingPort(c: word, d: int, p: Port, added: Code) returns (code: Code)
      requires Valid() && c in clients && d in contexts && c in contexts[d].clients && p in contexts[d].conns
      requires infos[c].openPortCount < MAX_PORTS_PER_CLIENT
      modifies this`contexts, this`infos
      ensures Valid() && code == if HasConnection(old(contexts), d, p, c) then PORT_ALREADY_OPEN else added
      ensures old(Served()) ==> Served()
      ensures if code == OK then contexts == Connect(old(contexts), d, p, c) && infos == Charge(old(infos), c, 1)
              else contexts == old(contexts) && infos == old(infos)
    {
      if c in contexts[d].conns[p] {
        return PORT_ALREADY_OPEN;
      }
      if added != OK {
        return added;
      }
      assert (d, p) in Connected(contexts);
      assert Connected(contexts) + {(d, p)} == Connected(contexts);
      AddConnection(c, d, p);
      return OK;
    }

    // Only output connections are started. A port that cannot be used after all is closed again.
    method CreateNewPortConnection(c: word, d: int, p: Port, driver: Code, started: Code, added: Code, closed: Code)
      returns (code: Code)
      requires Valid() && c in clients && d in contexts && c in contexts[d].clients && p !in contexts[d].conns
      requires infos[c].openPortCount < MAX_PORTS_PER_CLIENT
      modifies this`contexts, this`infos, this`openPorts, this`failed
      ensures Valid()
      ensures code == if driver != OK then driver else if p.direction.Output? && started != OK then started else added
      ensures if code == OK then contexts == Connect(old(contexts), d, p, c) && infos == Charge(old(infos), c, 1)
              else contexts == old(contexts) && infos == old(infos)
      ensures old(Served()) ==> Served()
      ensures failed <= if driver == OK && code != OK && closed != OK then old(failed) + {(d, p)} else old(failed)
    {
      assert (d, p) !in Connected(contexts);
      code := OpenDriverPort(d, p, driver, started, added, closed);
      if code == OK {
        AddConnection(c, d, p);
      }
    }

    // The driver's part, up to the client's connection.
    method OpenDriverPort(d: int, p: Port, driver: Code, started: Code, added: Code, closed: Code) returns (code: Code)
      requires InSync() && (d, p) !in Connected(contexts)
      modifies this`openPorts, this`failed
      ensures code == if driver != OK then driver else if p.direction.Output? && started != OK then started else added
      ensures if code == OK then openPorts == old(openPorts) + {(d, p)} && failed == old(failed) else InSync()
      ensures old(Served()) ==> Served()
      ensures failed <= if driver == OK && code != OK && closed != OK then old(failed) + {(d, p)} else old(failed)
    {
      if driver != OK {
        return driver;
      }
      openPorts := openPorts + {(d, p)};
      if p.direction.Output? && started != OK {
        CloseDriverPort(d, p, closed);
        return started;
      }
      if added != OK {
        CloseDriverPort(d, p, closed);
        return added;
      }
      return OK;
    }

    method OpenPort(c: word, d: int, p: Port, permitted: bool, driver: Code, started: Code, added: Code, closed: Code)
      returns (code: Code)
      requires Valid()
      modifies this`contexts, this`infos, this`openPorts, this`failed
      ensures Valid()
      ensures code == if c !in clients then INVALID_CLIENT
                      else if d !in old(contexts) then INVALID_DEVICE_HANDLE
                      else if d !in old(infos)[c].openDevices then SYSTEM_ERROR
                      else if IsBluetoothDevice(d) && !permitted then PERMISSION_DENIED
                      else if old(infos)[c].openPortCount >= MAX_PORTS_PER_CLIENT then TOO_MANY_OPEN_PORTS
                      else if HasConnection(old(contexts), d, p, c) then PORT_ALREADY_OPEN
                      else if p in old(contexts)[d].conns then added
                      else if driver != OK then driver
                      else if p.direction.Output? && started != OK then started else added
      ensures if code == OK then contexts == Connect(old(contexts), d, p, c) && infos == Charge(old(infos), c, 1)
              else contexts == old(contexts) && infos == old(infos)
      ensures old(Served()) ==> Served()
      ensures failed <= if closed == OK then old(failed) else old(failed) + {(d, p)}
    {
      code := CheckOpenPort(c, d, permitted);
      if code != OK {
        return;
      }
      if p in contexts[d].conns {
        code := ConnectToExistingPort(c, d, p, added);
      } else {
        code := CreateNewPortConnection(c, d, p, driver, started, added, closed);
      }
    }

    // The tests before a port is looked for.
    method CheckOpenPort(c: word, d: int, permitted: bool) returns (code: Code)
      requires Valid()
      ensures code == if c !in clients then INVALID_CLIENT
                      else if d !in contexts then INVALID_DEVICE_HANDLE
                      else if d !in infos[c].openDevices then SYSTEM_ERROR
                      else if IsBluetoothDevice(d) && !permitted then PERMISSION_DENIED
                      else if infos[c].openPortCount >= MAX_PORTS_PER_CLIENT then TOO_MANY_OPEN_PORTS
                      else OK
      ensures code == OK ==> c in contexts[d].clients
    {
      if c !in clients {
        return INVALID_CLIENT;
      }
      if d !in contexts {
        return INVALID_DEVICE_HANDLE;
      }
      assert InfoOk(infos[c], contexts, c, {});
      if c !in contexts[d].clients {
        return SYSTEM_ERROR;
      }
      if IsBluetoothDevice(d) && !permitted {
        return PERMISSION_DENIED;
      }
      if infos[c].openPortCount >= MAX_PORTS_PER_CLIENT {
        return TOO_MANY_OPEN_PORTS;
      }
      return OK;
    }

    // The driver's port goes with its last connection, even when the driver reports a failure.
    method ClosePortInner(c: word, d: int, p: Port, driver: Code, ghost leaving: set<word>) returns (code: Code)
      requires c in clients && Balanced(clients, contexts, infos, leaving) && Filed(clients, infos, apps) && InSync()
      modifies this`contexts, this`infos, this`openPorts, this`failed
      ensures Balanced(clients, contexts, infos, leaving) && Filed(clients, infos, apps) && InSync()
      ensures Closed(old(contexts), contexts, old(infos), infos, d, p, c)
      ensures code == if d !in old(contexts) then INVALID_DEVICE_HANDLE
                      else if c !in old(contexts)[d].clients then GENERIC_INVALID_ARGUMENT
                      else if !HasConnection(old(contexts), d, p, c) then INVALID_PORT
                      else if Without(old(contexts)[d].conns[p], c) == [] then driver else OK
      ensures old(Served()) ==> Served()
      ensures failed <= if driver == OK then old(failed) else old(failed) + {(d, p)}
    {
      if d !in contexts {
        return INVALID_DEVICE_HANDLE;
      }
      assert ContextOk(contexts[d], clients);
      if c !in contexts[d].clients {
        return GENERIC_INVALID_ARGUMENT;
      }
      if p !in contexts[d].conns || c !in contexts[d].conns[p] {
        return INVALID_PORT;
      }
      code := DropConnection(c, d, p, driver, leaving);
    }

    method DropConnection(c: word, d: int, p: Port, driver: Code, ghost leaving: set<word>) returns (code: Code)
      requires c in clients && Balanced(clients, contexts, infos, leaving) && Filed(clients, infos, apps) && InSync()
      requires HasConnection(contexts, d, p, c)
      modifies this`contexts, this`infos, this`openPorts, this`failed
      ensures Balanced(clients, contexts, infos, leaving) && Filed(clients, infos, apps) && InSync()
      ensures contexts == Disconnect(old(contexts), d, p, c) && infos == Charge(old(infos), c, -1)
      ensures code == if Without(old(contexts)[d].conns[p], c) == [] then driver else OK
      ensures old(Served()) ==> Served()
      ensures failed <= if driver == OK then old(failed) else old(failed) + {(d, p)}
    {
      OneLessConnection(clients, contexts, infos, apps, d, p, c, leaving);
      AfterClosing(openPorts, failed, Connected(contexts), (d, p));
      if infos[c].openPortCount > 0 {
        infos := infos[c := infos[c].(openPortCount := infos[c].openPortCount - 1)];
      }
      var x := contexts[d];
      var rest := Without(x.conns[p], c);
      if rest != [] {
        contexts := contexts[d := x.(conns := x.conns[p := rest])];
        return OK;
      }
      CloseDriverPort(d, p, driver);
      contexts := contexts[d := x.(conns := x.conns - {p})];
      return driver;
    }

    lemma CountLimited(c: word)
      requires Filed(clients, infos, apps) && c in clients
      ensures infos[c].openPortCount <= MAX_PORTS_PER_CLIENT
    {
      assert FiledUnder(infos[c], apps, c);
    }

    method ClosePort(c: word, d: int, p: Port, driver: Code) returns (code: Code)
      requires Valid()
      modifies this`contexts, this`infos, this`openPorts, this`failed
      ensures Valid() && (old(Served()) ==> Served())
      ensures failed <= if driver == OK then old(failed) else old(failed) + {(d, p)}
      ensures c !in clients ==> code == INVALID_CLIENT && contexts == old(contexts) && infos == old(infos)
      ensures c in clients ==> Closed(old(contexts), contexts, old(infos), infos, d, p, c)
      ensures c in clients ==>
                code == if d !in old(contexts) then INVALID_DEVICE_HANDLE
                        else if c !in old(contexts)[d].clients then GENERIC_INVALID_ARGUMENT
                        else if !HasConnection(old(contexts), d, p, c) then INVALID_PORT
                        else if Without(old(contexts)[d].conns[p], c) == [] then driver else OK
    {
      if c !in clients {
        return INVALID_CLIENT;
      }
      code := ClosePortInner(c, d, p, driver, {});
    }

    // Input ports and output ports alike; whose turn it is first does not matter.
    method ClosePortForDevice(c: word, d: int, driver: Port -> Code, ghost leaving: set<word>)
      requires c in clients && Balanced(clients, contexts, infos, leaving) && Filed(clients, infos, apps) && InSync()
      requires d in contexts
      modifies this`contexts, this`infos, this`openPorts, this`failed
      ensures Balanced(clients, contexts, infos, leaving) && Filed(clients, infos, apps) && InSync()
      ensures Cleared(old(contexts), contexts, d, c, old(contexts)[d].conns.Keys) && NotConnected(contexts, d, c)
      ensures OnlyCharged(old(infos), infos, c)
      ensures (forall p :: driver(p) == OK) ==> failed <= old(failed)
      ensures old(Served()) ==> Served()
    {
      ghost var start := contexts;
      assert ContextOk(contexts[d], clients);
      ClearedNothing(contexts, d, c);
      var ports := contexts[d].conns.Keys;
      assert start[d].conns.Keys - ports == {};
      while ports != {}
        invariant Balanced(clients, contexts, infos, leaving) && Filed(clients, infos, apps) && InSync()
        invariant ports <= start[d].conns.Keys
        invariant Cleared(start, contexts, d, c, start[d].conns.Keys - ports) && OnlyCharged(old(infos), infos, c)
        invariant (forall p :: driver(p) == OK) ==> failed <= old(failed)
        invariant old(Served()) ==> Served()
        decreases |ports|
      {
        ghost var member := Member(ports);
        var p :| p in ports;
        CloseOneMore(c, d, p, driver(p), leaving, start, start[d].conns.Keys - ports);
        OneLess(start[d].conns.Keys, ports, p);
        ports := ports - {p};
      }
      assert start[d].conns.Keys - ports == start[d].conns.Keys;
      ClearedAll(start, contexts, d, c);
    }

    method CloseOneMore(c: word, d: int, p: Port, driver: Code, ghost leaving: set<word>,
                        ghost start: Contexts, ghost done: set<Port>)
      requires c in clients && Balanced(clients, contexts, infos, leaving) && Filed(clients, infos, apps) && InSync()
      requires d in start && p in start[d].conns && start[d].conns[p] != [] && Cleared(start, contexts, d, c, done)
      modifies this`contexts, this`infos, this`openPorts, this`failed
      ensures Balanced(clients, contexts, infos, leaving) && Filed(clients, infos, apps) && InSync()
      ensures Cleared(start, contexts, d, c, done + {p}) && OnlyCharged(old(infos), infos, c)
      ensures driver == OK ==> failed <= old(failed)
      ensures old(Served()) ==> Served()
    {
      ClearedOne(start, contexts, d, c, done, p);
      var _ := ClosePortInner(c, d, p, driver, leaving);
    }

    // The client's port count may have changed, and nothing else in any client's record.
    ghost predicate OnlyCharged(infos: Infos, infos': Infos, c: word) {
      && infos'.Keys == infos.Keys
      && (forall x <- infos ::
            infos'[x] == if x == c then infos[x].(openPortCount := infos'[x].openPortCount) else infos[x])
    }

    // ---------- Closing a device ----------

    // One entry for the device, if there is any.
    method RemoveFromActiveBleDevices(d: int)
      modifies this`activeBle
      ensures Forgotten(old(activeBle), activeBle, d)
    {
      if IsBluetoothDevice(d) {
        var a :| a in activeBle && activeBle[a] == d;
        activeBle := activeBle - {a};
      }
    }

    method CleanupDeviceForClient(c: word, d: int, driver: Port -> Code, ghost leaving: set<word>)
      requires c in clients && Balanced(clients, contexts, infos, leaving) && Filed(clients, infos, apps) && InSync()
      requires d in contexts && c in contexts[d].clients && c in leaving
      modifies this`contexts, this`infos, this`openPorts, this`failed, this`activeBle
      ensures Balanced(clients, contexts, infos, leaving) && Filed(clients, infos, apps) && InSync()
      ensures LeftDevice(old(contexts), contexts, d, c) && OnlyCharged(old(infos), infos, c)
      ensures if d in contexts then activeBle == old(activeBle) else Forgotten(old(activeBle), activeBle, d)
      ensures (forall p :: driver(p) == OK) ==> failed <= old(failed)
      ensures old(Served()) ==> Served()
    {
      ClosePortForDevice(c, d, driver, leaving);
      assert ContextOk(contexts[d], clients);
      ClearedAndLeft(clients, old(contexts), contexts, d, c);
      LeaveBalances(clients, contexts, infos, d, c, leaving);
      LeavePorts(clients, contexts, d, c);
      var rest := contexts[d].clients - {c};
      if rest == {} {
        assert contexts[d].clients == rest + {c};
        contexts := contexts - {d};
        RemoveFromActiveBleDevices(d);
      } else {
        contexts := contexts[d := contexts[d].(clients := rest)];
      }
    }

    method CloseDevice(c: word, d: int, driver: Port -> Code, deviceClosed: bool) returns (code: Code)
      requires Valid()
      modifies this`contexts, this`infos, this`openPorts, this`failed, this`activeBle
      ensures Valid()
      ensures code == if c !in clients then INVALID_CLIENT
                      else if d !in old(infos)[c].openDevices then INVALID_DEVICE_HANDLE
                      else if d !in contexts && !deviceClosed then SYSTEM_ERROR
                      else OK
      ensures c in clients && d in old(infos)[c].openDevices ==>
                && LeftDevice(old(contexts), contexts, d, c)
                && infos[c].openDevices == old(infos)[c].openDevices - {d}
                && (forall x <- infos :: x != c ==> infos[x] == old(infos)[x])
                && (if d in contexts then activeBle == old(activeBle)
                    else if deviceClosed then ForgottenTwice(old(activeBle), activeBle, d)
                    else Forgotten(old(activeBle), activeBle, d))
      ensures !(c in clients && d in old(infos)[c].openDevices) ==>
                contexts == old(contexts) && infos == old(infos) && activeBle == old(activeBle)
      ensures old(WithinDeviceLimit(infos)) ==> WithinDeviceLimit(infos)
      ensures (forall p :: driver(p) == OK) ==> failed <= old(failed)
      ensures old(Served()) ==> Served()
    {
      if c !in clients {
        return INVALID_CLIENT;
      }
      assert InfoOk(infos[c], contexts, c, {});
      if d !in contexts || c !in contexts[d].clients {
        return INVALID_DEVICE_HANDLE;
      }
      GiveUpDevice(c, d, driver);
      if d in contexts {
        return OK;
      }
      CloseLeftDevice(d, deviceClosed);
      code := if deviceClosed then OK else SYSTEM_ERROR;
    }

    method GiveUpDevice(c: word, d: int, driver: Port -> Code)
      requires Valid() && c in clients && d in contexts && c in contexts[d].clients
      modifies this`contexts, this`infos, this`openPorts, this`failed, this`activeBle
      ensures Valid() && LeftDevice(old(contexts), contexts, d, c)
      ensures infos.Keys == old(infos).Keys && infos[c].openDevices == old(infos)[c].openDevices - {d}
      ensures forall x <- infos :: x != c ==> infos[x] == old(infos)[x]
      ensures if d in contexts then activeBle == old(activeBle) else Forgotten(old(activeBle), activeBle, d)
      ensures old(WithinDeviceLimit(infos)) ==> WithinDeviceLimit(infos)
      ensures (forall p :: driver(p) == OK) ==> failed <= old(failed)
      ensures old(Served()) ==> Served()
    {
      assert InfoOk(infos[c], contexts, c, {});
      AboutToLeave(clients, contexts, infos, c);
      CleanupDeviceForClient(c, d, driver, {c});
      StrikeOff(c, d);
    }

    // A device that is closed takes its open ports with it; its driver then reports it as removed, before
    // the call returns.
    method CloseDriverDevice(d: int, closed: bool)
      requires Sound()
      modifies this`openPorts, this`contexts, this`infos, this`activeBle
      ensures Sound() && (old(Served()) ==> Served())
      ensures openPorts == if closed then OthersPorts(old(openPorts), d) else old(openPorts)
      ensures contexts == (if closed then old(contexts) - {d} else old(contexts))
      ensures infos == if closed then ChargedBack(old(infos), old(contexts), d) else old(infos)
      ensures if closed then Forgotten(old(activeBle), activeBle, d) else activeBle == old(activeBle)
      ensures old(WithinDeviceLimit(infos)) ==> WithinDeviceLimit(infos)
    {
      if closed {
        OthersServed(openPorts, contexts, d);
        openPorts := OthersPorts(openPorts, d);
        NotifyDeviceChange(true, d);
      }
    }

    // The same for a device that nobody uses.
    method CloseLeftDevice(d: int, closed: bool)
      requires Valid() && d !in contexts
      modifies this`openPorts, this`contexts, this`infos, this`activeBle
      ensures Valid() && (old(Served()) ==> Served()) && contexts == old(contexts) && infos == old(infos)
      ensures if closed then Forgotten(old(activeBle), activeBle, d) else activeBle == old(activeBle)
      ensures OnlyForgotten(old(activeBle), activeBle, {d})
    {
      CloseDriverDevice(d, closed);
      assert old(contexts) - {d} == old(contexts);
    }

    method StrikeOff(c: word, d: int)
      requires c in clients && Balanced(clients, contexts, infos, {c}) && Filed(clients, infos, apps) && InSync()
      requires Booked(pending, clients, fates, requests) && Told(fates, answers)
      requires d in contexts ==> c !in contexts[d].clients
      requires forall x :: x != d ==> (x in infos[c].openDevices <==> x in contexts && c in contexts[x].clients)
      modifies this`infos
      ensures Valid() && infos == old(infos)[c := old(infos)[c].(openDevices := old(infos)[c].openDevices - {d})]
      ensures Served() == old(Served())
    {
      StruckOff(clients, contexts, infos, d, c);
      forall x | x in infos
        ensures infos[x].openPortCount <= MAX_PORTS_PER_CLIENT
      {
        CountLimited(x);
      }
      FiledAlike(clients, infos, infos[c := infos[c].(openDevices := infos[c].openDevices - {d})], apps);
      infos := infos[c := infos[c].(openDevices := infos[c].openDevices - {d})];
    }

    // ---------- A client is destroyed ----------

    method CleanupDevices(c: word, driver: (int, Port) -> Code) returns (devicesToClose: set<int>)
      requires c in clients && Balanced(clients, contexts, infos, {c}) && Filed(clients, infos, apps) && InSync()
      modifies this`contexts, this`infos, this`openPorts, this`failed, this`activeBle
      ensures Balanced(clients, contexts, infos, {c}) && Filed(clients, infos, apps) && InSync()
      ensures LeftDevices(old(contexts), contexts, old(contexts).Keys, c) && OnlyCharged(old(infos), infos, c)
      ensures devicesToClose == old(contexts).Keys - contexts.Keys
      ensures OnlyForgotten(old(activeBle), activeBle, devicesToClose)
      ensures (forall d, p :: driver(d, p) == OK) ==> failed <= old(failed)
      ensures old(Served()) ==> Served()
    {
      ghost var start := contexts;
      devicesToClose := set d | d in contexts && contexts[d].clients == {c};
      var devicesToClean: set<int> := set d | d in contexts && c in contexts[d].clients;
      LeftNothing(start, start.Keys - devicesToClean, c);
      while devicesToClean != {}
        invariant Balanced(clients, contexts, infos, {c}) && Filed(clients, infos, apps) && InSync()
        invariant devicesToClean <= start.Keys && forall d <- devicesToClean :: c in start[d].clients
        invariant LeftDevices(start, contexts, start.Keys - devicesToClean, c) && OnlyCharged(old(infos), infos, c)
        invariant OnlyForgotten(old(activeBle), activeBle, devicesToClose)
        invariant (forall d, p :: driver(d, p) == OK) ==> failed <= old(failed)
        invariant old(Served()) ==> Served()
        decreases |devicesToClean|
      {
        ghost var member := Member(devicesToClean);
        var d :| d in devicesToClean;
        var rest := devicesToClean - {d};
        CleanupOneMore(c, d, p => driver(d, p), start, start.Keys - devicesToClean, old(activeBle), devicesToClose);
        OneLess(start.Keys, devicesToClean, d);
        devicesToClean := rest;
      }
      assert start.Keys - devicesToClean == start.Keys;
      LeftAll(start, contexts, c);
    }

    method CleanupOneMore(c: word, d: int, driver: Port -> Code, ghost start: Contexts, ghost done: set<int>,
                          ghost ble: map<string, int>, ghost closing: set<int>)
      requires c in clients && Balanced(clients, contexts, infos, {c}) && Filed(clients, infos, apps) && InSync()
      requires LeftDevices(start, contexts, done, c) && d in start && d !in done && c in start[d].clients
      requires OnlyForgotten(ble, activeBle, closing) && (start[d].clients == {c} ==> d in closing)
      modifies this`contexts, this`infos, this`openPorts, this`failed, this`activeBle
      ensures Balanced(clients, contexts, infos, {c}) && Filed(clients, infos, apps) && InSync()
      ensures LeftDevices(start, contexts, done + {d}, c) && OnlyCharged(old(infos), infos, c)
      ensures OnlyForgotten(ble, activeBle, closing)
      ensures (forall p :: driver(p) == OK) ==> failed <= old(failed)
      ensures old(Served()) ==> Served()
    {
      ghost var before := contexts;
      assert Untouched(start, contexts, d);
      CleanupDeviceForClient(c, d, driver, {c});
      LeftOneMore(start, before, contexts, done, d, c);
    }

    method CleanupClientResources(c: word)
      requires c in clients && Balanced(clients, contexts, infos, {c}) && Filed(clients, infos, apps)
      requires forall d <- contexts :: c !in contexts[d].clients
      modifies this`infos, this`apps
      ensures Balanced(clients - {c}, contexts, infos, {}) && Filed(clients - {c}, infos, apps)
      ensures infos == old(infos) - {c}
    {
      RemoveClient(clients, contexts, infos, c);
      FiledRemoved(clients, infos, apps, c);
      var u := infos[c].uid;
      apps := if apps[u] == {c} then apps - {u} else apps[u := apps[u] - {c}];
      infos := infos - {c};
    }

    // The client's waiting requests are cancelled; the others keep their order.
    method RemovePendingBleConnectionsForClient(c: word)
      requires Booked(pending, clients, fates, requests)
      modifies this`pending, this`fates
      ensures Booked(pending, clients, fates, requests) && Settling(old(fates), fates)
      ensures Filtered(old(pending), pending, {}, c) && SameAnswered(old(fates), fates)
    {
      var todo := pending.Keys;
      ghost var start, fate := pending, fates;
      while todo != {}
        invariant Booked(pending, clients, fates, requests) && Settling(fate, fates) && todo <= start.Keys
        invariant Filtered(start, pending, todo, c) && SameAnswered(fate, fates)
        decreases |todo|
      {
        var a :| a in todo;
        CancelMore(start, fate, pending, clients, fates, requests, todo, a, c);
        fates := Decided(fates, Mine(pending[a], c), Cancelled);
        pending := Replaced(pending, a, RemoveIf(pending[a], c));
        todo := todo - {a};
      }
    }

    method DestroyMidiClient(c: word, driver: (int, Port) -> Code, deviceClosed: int -> bool)
      returns (code: Code, devicesToClose: set<int>)
      requires Valid()
      modifies this`clients, this`contexts, this`infos, this`apps, this`activeBle, this`pending
      modifies this`openPorts, this`failed, this`fates
      ensures Valid() && Settling(old(fates), fates)
      ensures code == if c in old(clients) then OK else INVALID_CLIENT
      ensures if code == OK
              then clients == old(clients) - {c} && LeftDevices(old(contexts), contexts, old(contexts).Keys, c)
                   && infos == old(infos) - {c} && devicesToClose == old(contexts).Keys - contexts.Keys
              else clients == old(clients) && contexts == old(contexts) && infos == old(infos)
                   && pending == old(pending) && devicesToClose == {}
      ensures OnlyForgotten(old(activeBle), activeBle, devicesToClose)
      ensures (code == OK ==> Filtered(old(pending), pending, {}, c)) && SameAnswered(old(fates), fates)
      ensures old(WithinDeviceLimit(infos)) ==> WithinDeviceLimit(infos)
      ensures (forall d, p :: driver(d, p) == OK) ==> failed <= old(failed)
      ensures old(Served()) ==> Served()
    {
      devicesToClose := {};
      if c !in clients {
        return INVALID_CLIENT, devicesToClose;
      }
      devicesToClose := DestroyLive(c, driver, deviceClosed);
      code := OK;
    }

    method DestroyLive(c: word, driver: (int, Port) -> Code, deviceClosed: int -> bool)
      returns (devicesToClose: set<int>)
      requires Valid() && c in clients
      modifies this`clients, this`contexts, this`infos, this`apps, this`activeBle, this`pending
      modifies this`openPorts, this`failed, this`fates
      ensures Valid() && Settling(old(fates), fates) && clients == old(clients) - {c} && infos == old(infos) - {c}
      ensures LeftDevices(old(contexts), contexts, old(contexts).Keys, c)
      ensures devicesToClose == old(contexts).Keys - contexts.Keys
      ensures OnlyForgotten(old(activeBle), activeBle, devicesToClose)
      ensures Filtered(old(pending), pending, {}, c) && SameAnswered(old(fates), fates)
      ensures old(WithinDeviceLimit(infos)) ==> WithinDeviceLimit(infos)
      ensures (forall d, p :: driver(d, p) == OK) ==> failed <= old(failed)
      ensures old(Served()) ==> Served()
    {
      devicesToClose := LeaveDevices(c, driver);
      ForgetClient(c);
      ghost var ble := activeBle;
      CloseDriverDevices(devicesToClose, deviceClosed);
      ForgottenOnly(old(activeBle), ble, activeBle, devicesToClose, devicesToClose);
      LimitWithout(old(infos), c);
    }

    // The client's part of every device goes; what it was charged is given back.
    method LeaveDevices(c: word, driver: (int, Port) -> Code) returns (devicesToClose: set<int>)
      requires Valid() && c in clients
      modifies this`contexts, this`infos, this`openPorts, this`failed, this`activeBle
      ensures Balanced(clients, contexts, infos, {c}) && Filed(clients, infos, apps) && InSync()
      ensures LeftDevices(old(contexts), contexts, old(contexts).Keys, c) && infos - {c} == old(infos) - {c}
      ensures devicesToClose == old(contexts).Keys - contexts.Keys && forall d <- contexts :: c !in contexts[d].clients
      ensures OnlyForgotten(old(activeBle), activeBle, devicesToClose)
      ensures (forall d, p :: driver(d, p) == OK) ==> failed <= old(failed)
      ensures old(Served()) ==> Served()
    {
      AboutToLeave(clients, contexts, infos, c);
      devicesToClose := CleanupDevices(c, driver);
      LeftAll(old(contexts), contexts, c);
    }

    method CloseDriverDevices(devices: set<int>, deviceClosed: int -> bool)
      requires Valid() && forall d <- devices :: d !in contexts
      modifies this`openPorts, this`contexts, this`infos, this`activeBle
      ensures Valid() && (old(Served()) ==> Served()) && contexts == old(contexts) && infos == old(infos)
      ensures OnlyForgotten(old(activeBle), activeBle, devices)
    {
      var todo := devices;
      while todo != {}
        invariant Valid() && (old(Served()) ==> Served()) && contexts == old(contexts) && infos == old(infos)
        invariant todo <= devices && OnlyForgotten(old(activeBle), activeBle, devices)
        decreases |todo|
      {
        ghost var member := Member(todo);
        var d :| d in todo;
        ghost var ble := activeBle;
        CloseLeftDevice(d, deviceClosed(d));
        ForgottenOnly(old(activeBle), ble, activeBle, devices, {d});
        assert devices + {d} == devices;
        todo := todo - {d};
      }
    }

    // A client that has left all its devices is struck off the other maps.
    method ForgetClient(c: word)
      requires c in clients && Balanced(clients, contexts, infos, {c}) && Filed(clients, infos, apps) && InSync()
      requires Booked(pending, clients, fates, requests) && Told(fates, answers)
      requires forall d <- contexts :: c !in contexts[d].clients
      modifies this`clients, this`infos, this`apps, this`pending, this`fates
      ensures Valid() && clients == old(clients) - {c} && infos == old(infos) - {c} && Settling(old(fates), fates)
      ensures Filtered(old(pending), pending, {}, c) && SameAnswered(old(fates), fates)
    {
      CleanupClientResources(c);
      RemovePendingBleConnectionsForClient(c);
      ToldNothing(old(fates), fates, answers);
      NobodyWaits(old(pending), pending, c);
      WithoutClient(pending, clients, fates, requests, c);
      clients := clients - {c};
    }

    lemma NobodyWaits(start: Pending, pending: Pending, c: word)
      requires Filtered(start, pending, {}, c)
      ensures forall a <- pending, r <- pending[a] :: r.client != c
    {
      forall a, r | a in pending && r in pending[a]
        ensures r.client != c
      {
        RemoveIfMembers(start[a], c);
      }
    }

    // ---------- A device is unplugged ----------

    method CalculateClientPortCount(x: Context, c: word) returns (portCount: nat)
      ensures portCount == |PortsAt(x, c)|
    {
      portCount := 0;
      var todo := x.conns.Keys;
      assert PortsAt(x, c) * todo == PortsAt(x, c);
      while todo != {}
        invariant todo <= x.conns.Keys && portCount + |PortsAt(x, c) * todo| == |PortsAt(x, c)|
        decreases |todo|
      {
        var p :| p in todo;
        OneFewer(PortsAt(x, c), todo, p);
        if c in x.conns[p] {
          portCount := portCount + 1;
        }
        todo := todo - {p};
      }
    }

    lemma OneFewer(ports: set<Port>, todo: set<Port>, p: Port)
      requires p in todo
      ensures |ports * todo| == |ports * (todo - {p})| + if p in ports then 1 else 0
    {
      assert ports * todo == ports * (todo - {p}) + if p in ports then {p} else {};
    }

    // Every client of the device is charged back its ports there; then the device is gone, with the
    // ports its driver had open.
    method CleanupDeviceContext(d: int)
      requires Sound()
      modifies this`contexts, this`infos, this`openPorts
      ensures Sound() && contexts == old(contexts) - {d} && (old(Served()) ==> Served())
      ensures infos == ChargedBack(old(infos), old(contexts), d)
      ensures openPorts == if d in old(contexts) then OthersPorts(old(openPorts), d) else old(openPorts)
      ensures old(WithinDeviceLimit(infos)) ==> WithinDeviceLimit(infos)
    {
      if d !in contexts {
        return;
      }
      ghost var start := infos;
      var x := contexts[d];
      assert ContextOk(contexts[d], clients);
      ChargeBack(d, x);
      RemoveDevice(clients, contexts, start, infos, d);
      DropPorts(contexts, d, 0);
      StruckFiled(start, d, x);
      contexts := contexts - {d};
      openPorts := OthersPorts(openPorts, d);
    }

    method ChargeBack(d: int, x: Context)
      requires x.clients <= infos.Keys
      modifies this`infos
      ensures StruckSoFar(old(infos), infos, d, x, x.clients)
    {
      ghost var start := infos;
      var todo := x.clients;
      while todo != {}
        invariant todo <= x.clients <= start.Keys
        invariant StruckSoFar(start, infos, d, x, x.clients - todo)
        decreases |todo|
      {
        ghost var before := infos;
        ghost var member := Member(todo);
        var c :| c in todo;
        var portCount := CalculateClientPortCount(x, c);
        var info := infos[c];
        var count := if info.openPortCount >= portCount then info.openPortCount - portCount else 0;
        infos := infos[c := Info(info.uid, info.openDevices - {d}, count)];
        StruckMore(start, before, infos, d, x, x.clients - todo, c);
        OneLess(x.clients, todo, c);
        todo := todo - {c};
      }
      assert x.clients - todo == x.clients;
    }

    lemma StruckFiled(start: Infos, d: int, x: Context)
      requires Filed(clients, start, apps) && Balanced(clients, contexts, start, {})
      requires d in contexts && contexts[d] == x
      requires StruckSoFar(start, infos, d, x, x.clients)
      ensures Filed(clients, infos, apps)
      ensures forall c <- infos :: infos[c].openDevices == start[c].openDevices - {d}
    {
      forall c | c in start
        ensures infos[c].openPortCount <= MAX_PORTS_PER_CLIENT && infos[c].openDevices == start[c].openDevices - {d}
      {
        assert FiledUnder(start[c], apps, c) && InfoOk(start[c], contexts, c, {});
      }
      FiledAlike(clients, start, infos, apps);
    }

    method NotifyDeviceChange(removed: bool, d: int)
      requires Sound()
      modifies this`contexts, this`infos, this`openPorts, this`activeBle
      ensures Sound() && (old(Served()) ==> Served())
      ensures contexts == if removed then old(contexts) - {d} else old(contexts)
      ensures infos == if removed then ChargedBack(old(infos), old(contexts), d) else old(infos)
      ensures openPorts == if removed && d in old(contexts) then OthersPorts(old(openPorts), d) else old(openPorts)
      ensures if removed then Forgotten(old(activeBle), activeBle, d) else activeBle == old(activeBle)
      ensures old(WithinDeviceLimit(infos)) ==> WithinDeviceLimit(infos)
    {
      if removed {
        RemoveFromActiveBleDevices(d);
        CleanupDeviceContext(d);
      }
    }

    // ---------- Bluetooth devices ----------

    // None when the request has to wait.
    method TryAttachToActiveBleDevice(c: word, address: string) returns (attached: bool)
      requires Valid() && c in clients
      modifies this`contexts, this`infos
      ensures Valid() && Served() == old(Served())
      ensures attached == (address in activeBle && activeBle[address] in old(contexts))
      ensures if attached then contexts == Join(old(contexts), activeBle[address], {c})
                               && infos == Joined(old(infos), activeBle[address], {c})
              else contexts == old(contexts) && infos == old(infos)
      ensures old(WithinDeviceLimit(infos)) && |old(infos)[c].openDevices| < MAX_DEVICES_PER_CLIENT ==>
                WithinDeviceLimit(infos)
    {
      if address !in activeBle {
        return false;
      }
      var d := activeBle[address];
      if d !in contexts {
        return false;
      }
      if WithinDeviceLimit(infos) {
        LimitAfterJoining(infos, d, {c});
      }
      AddToDevice(c, d);
      return true;
    }

    // The first request for an address starts the connection, and is withdrawn if that fails at once.
    method EnqueueBleConnectionRequest(c: word, address: string, driver: Code) returns (code: Code)
      requires Valid() && c in clients
      modifies this`pending, this`fates, this`requests
      ensures Valid() && Settling(old(fates), fates) && code == if address in old(pending) then OK else driver
      ensures if code == OK
              then fates == old(fates)[old(requests) := Waiting(address)] && requests == old(requests) + 1
                   && pending == Queued(old(pending), address, Request(c, old(requests)))
              else pending == old(pending) && fates == old(fates) && requests == old(requests)
    {
      var isFirstRequest := address !in pending;
      EnqueueBooks(pending, clients, fates, requests, address, c);
      NewTicket(pending, clients, fates, requests, Waiting(address));
      ghost var before := pending;
      var list := (if address in pending then pending[address] else []) + [Request(c, requests)];
      pending := pending[address := list];
      if isFirstRequest && driver != OK {
        pending := pending - {address};
        assert pending == before;
        return driver;
      }
      ToldNothing(fates, fates[requests := Waiting(address)], answers);
      fates := fates[requests := Waiting(address)];
      requests := requests + 1;
      return OK;
    }

    // Every accepted request gets a ticket: answered now, or waiting.
    method OpenBleDevice(c: word, address: string, driver: Code) returns (code: Code, answered: bool)
      requires Valid()
      modifies this`contexts, this`infos, this`pending, this`fates, this`requests, this`answers
      ensures Valid() && Settling(old(fates), fates) && Served() == old(Served())
      ensures answers == if answered then old(answers) + [Answer(old(requests), true)] else old(answers)
      ensures code == if c !in clients then INVALID_CLIENT
                      else if |old(infos)[c].openDevices| >= MAX_DEVICES_PER_CLIENT then TOO_MANY_OPEN_DEVICES
                      else if answered || address in old(pending) then OK else driver
      ensures answered ==> code == OK && AttachedTo(address, c, old(contexts), old(infos))
      ensures answered ==> HasDevice(c, activeBle[address])
      ensures !answered ==> contexts == old(contexts) && infos == old(infos)
      ensures pending == if code == OK && !answered then Queued(old(pending), address, Request(c, old(requests)))
                         else old(pending)
      ensures requests == old(requests) + if code == OK then 1 else 0
      ensures code == OK ==> fates == old(fates)[old(requests) := if answered then Answered else Waiting(address)]
      ensures old(WithinDeviceLimit(infos)) ==> WithinDeviceLimit(infos)
    {
      answered := false;
      if c !in clients {
        return INVALID_CLIENT, answered;
      }
      if |infos[c].openDevices| >= MAX_DEVICES_PER_CLIENT {
        return TOO_MANY_OPEN_DEVICES, answered;
      }
      code, answered := AttachOrEnqueue(c, address, driver);
    }

    // The client joined the active device of the address.
    ghost predicate AttachedTo(address: string, c: word, before: Contexts, records: Infos)
      reads this
    {
      && address in activeBle && activeBle[address] in before
      && contexts == Join(before, activeBle[address], {c}) && infos == Joined(records, activeBle[address], {c})
    }

    method AttachOrEnqueue(c: word, address: string, driver: Code) returns (code: Code, answered: bool)
      requires Valid() && c in clients && |infos[c].openDevices| < MAX_DEVICES_PER_CLIENT
      modifies this`contexts, this`infos, this`pending, this`fates, this`requests, this`answers
      ensures Valid() && Settling(old(fates), fates) && Served() == old(Served())
      ensures answers == if answered then old(answers) + [Answer(old(requests), true)] else old(answers)
      ensures code == if answered || address in old(pending) then OK else driver
      ensures answered ==> AttachedTo(address, c, old(contexts), old(infos))
      ensures !answered ==> contexts == old(contexts) && infos == old(infos)
      ensures pending == if code == OK && !answered then Queued(old(pending), address, Request(c, old(requests)))
                         else old(pending)
      ensures requests == old(requests) + if code == OK then 1 else 0
      ensures code == OK ==> fates == old(fates)[old(requests) := if answered then Answered else Waiting(address)]
      ensures old(WithinDeviceLimit(infos)) ==> WithinDeviceLimit(infos)
    {
      answered := TryAttachToActiveBleDevice(c, address);
      if answered {
        AnswerAtOnce();
        return OK, answered;
      }
      code := EnqueueBleConnectionRequest(c, address, driver);
    }

    method AnswerAtOnce()
      requires Valid()
      modifies this`fates, this`requests, this`answers
      ensures Valid() && fates == old(fates)[old(requests) := Answered] && requests == old(requests) + 1
      ensures Settling(old(fates), fates) && answers == old(answers) + [Answer(old(requests), true)]
    {
      AnsweredAtOnce(pending, clients, fates, requests);
      NewTicket(pending, clients, fates, requests, Answered);
      ToldOne(fates, answers, requests, true);
      answers := answers + [Answer(requests, true)];
      fates := fates[requests := Answered];
      requests := requests + 1;
    }

    // False when nobody waits any more; the address counts as active all the same.
    method RegisterBleDeviceForPendingClients(address: string, d: int, waiting: seq<Request>) returns (registered: bool)
      requires Sound()
      modifies this`activeBle, this`contexts, this`infos
      ensures Sound() && activeBle == old(activeBle)[address := d]
      ensures Connected(contexts) == Connected(old(contexts))
      ensures var joiners := LiveAskers(waiting, clients);
              && registered == (joiners != {})
              && infos == Joined(old(infos), d, joiners)
              && contexts == if registered then Join(old(contexts), d, joiners) else old(contexts)
    {
      activeBle := activeBle[address := d];
      var initialClients := MarkWaiting(d, waiting);
      registered := initialClients != {};
      ghost var start := old(infos);
      FiledJoined(clients, start, apps, d, initialClients);
      if registered {
        JoinBalances(clients, contexts, start, d, initialClients);
        JoinPorts(contexts, d, initialClients);
        if d in contexts {
          contexts := contexts[d := contexts[d].(clients := contexts[d].clients + initialClients)];
        } else {
          contexts := contexts[d := Context(initialClients, map[])];
        }
      } else {
        JoinedNobody(start, d);
      }
    }

    // The device is added to the record of every waiting client that is still there.
    method MarkWaiting(d: int, waiting: seq<Request>) returns (initialClients: set<word>)
      requires infos.Keys == clients
      modifies this`infos
      ensures initialClients == LiveAskers(waiting, clients) <= clients
      ensures infos == Joined(old(infos), d, initialClients)
    {
      ghost var start := infos;
      initialClients := {};
      JoinedNobody(infos, d);
      for i := 0 to |waiting|
        invariant infos == Joined(start, d, initialClients) && initialClients <= clients
        invariant initialClients == LiveAskers(waiting[..i], clients)
      {
        var c := waiting[i].client;
        assert waiting[..i + 1] == waiting[..i] + [waiting[i]];
        if c in clients {
          JoinedMore(start, d, initialClients, c);
          initialClients := initialClients + {c};
          infos := infos[c := infos[c].(openDevices := infos[c].openDevices + {d})];
        }
      }
      assert waiting[..|waiting|] == waiting;
    }

    // Whoever waits for the address is answered, with success or failure, and on success joins the
    // device; nobody's limit is looked at again. The device is closed again when nobody waits, whoever
    // else uses it: then, and only then, clients lose it, with the ports they use there.
    method HandleBleOpenComplete(address: string, success: bool, d: int, closed: bool)
      returns (waiting: seq<Request>, closeDevice: bool)
      requires Valid()
      modifies this`activeBle, this`contexts, this`infos, this`pending, this`fates, this`openPorts, this`answers
      ensures Valid() && (old(Served()) ==> Served())
      ensures NoLongerWaits(address, waiting, old(pending), old(fates))
      ensures Called(old(answers), answers, waiting, success)
      ensures success ==> forall r <- waiting :: HasDevice(r.client, d)
      ensures closeDevice == (success && waiting == [])
      ensures if closeDevice && closed then ClosedAgain(address, d, old(activeBle), old(contexts), old(infos))
              else OpenedFor(address, success, d, waiting, old(activeBle), old(contexts), old(infos))
      ensures openPorts == if closeDevice && closed then OthersPorts(old(openPorts), d) else old(openPorts)
      ensures old(WithinDeviceLimit(infos)) ==>
                (WithinDeviceLimit(infos) <==> (success ==> HasRoomFor(old(infos), d, Askers(waiting))))
      ensures infos.Keys == old(infos).Keys
      ensures forall c <- infos :: (d in old(infos)[c].openDevices && d !in infos[c].openDevices <==>
                closeDevice && closed && d in old(contexts) && c in old(contexts)[d].clients)
    {
      waiting := TakeWaiting(address);
      closeDevice := CompleteIf(success, address, d, waiting, closed);
      NotifyWaiting(waiting, success);
    }

    // The client has the device open.
    ghost predicate HasDevice(c: word, d: int)
      reads this`contexts, this`infos
    {
      d in contexts && c in contexts[d].clients && c in infos && d in infos[c].openDevices
    }

    // Everybody who waited has joined the device, on success.
    ghost predicate OpenedFor(address: string, success: bool, d: int, waiting: seq<Request>,
                              ble: map<string, int>, before: Contexts, records: Infos)
      reads this`activeBle, this`contexts, this`infos
    {
      && activeBle == (if success then ble[address := d] else ble)
      && infos == (if success then Joined(records, d, Askers(waiting)) else records)
      && contexts == if success && waiting != [] then Join(before, d, Askers(waiting)) else before
    }

    // The device is gone: no context, nothing charged for it, one address less.
    ghost predicate ClosedAgain(address: string, d: int, ble: map<string, int>, before: Contexts, records: Infos)
      reads this`activeBle, this`contexts, this`infos
    {
      && Forgotten(ble[address := d], activeBle, d)
      && contexts == before - {d} && infos == ChargedBack(records, before, d)
    }

    // The callbacks of those who waited.
    method NotifyWaiting(waiting: seq<Request>, success: bool)
      requires Sound() && Told(fates, answers + AnswersFor(waiting, success))
      modifies this`answers
      ensures Valid() && Served() == old(Served())
      ensures Called(old(answers), answers, waiting, success)
    {
      for i := 0 to |waiting|
        invariant answers == old(answers) + AnswersFor(waiting, success)[..i]
      {
        answers := answers + [Answer(waiting[i].ticket, success)];
      }
      assert AnswersFor(waiting, success)[..|waiting|] == AnswersFor(waiting, success);
    }

    // Nothing happens to the device unless the connection succeeded.
    method CompleteIf(success: bool, address: string, d: int, waiting: seq<Request>, closed: bool)
      returns (closeDevice: bool)
      requires Sound() && forall r <- waiting :: r.client in clients
      modifies this`activeBle, this`contexts, this`infos, this`openPorts
      ensures Sound() && closeDevice == (success && waiting == []) && (old(Served()) ==> Served())
      ensures success ==> forall r <- waiting :: HasDevice(r.client, d)
      ensures if closeDevice && closed then ClosedAgain(address, d, old(activeBle), old(contexts), old(infos))
              else OpenedFor(address, success, d, waiting, old(activeBle), old(contexts), old(infos))
      ensures openPorts == if closeDevice && closed then OthersPorts(old(openPorts), d) else old(openPorts)
      ensures old(WithinDeviceLimit(infos)) ==>
                (WithinDeviceLimit(infos) <==> (success ==> HasRoomFor(old(infos), d, Askers(waiting))))
      ensures infos.Keys == old(infos).Keys
      ensures forall c <- infos :: (d in old(infos)[c].openDevices && d !in infos[c].openDevices <==>
                closeDevice && closed && d in old(contexts) && c in old(contexts)[d].clients)
    {
      closeDevice := false;
      if success {
        closeDevice := CompleteWaiting(address, d, waiting, closed);
      }
    }

    method CompleteWaiting(address: string, d: int, waiting: seq<Request>, closed: bool) returns (closeDevice: bool)
      requires Sound() && forall r <- waiting :: r.client in clients
      modifies this`activeBle, this`contexts, this`infos, this`openPorts
      ensures Sound() && closeDevice == (waiting == []) && (old(Served()) ==> Served())
      ensures forall r <- waiting :: HasDevice(r.client, d)
      ensures if closeDevice && closed then ClosedAgain(address, d, old(activeBle), old(contexts), old(infos))
              else OpenedFor(address, true, d, waiting, old(activeBle), old(contexts), old(infos))
      ensures openPorts == if closeDevice && closed then OthersPorts(old(openPorts), d) else old(openPorts)
      ensures old(WithinDeviceLimit(infos)) ==>
                (WithinDeviceLimit(infos) <==> HasRoomFor(old(infos), d, Askers(waiting)))
      ensures infos.Keys == old(infos).Keys
      ensures forall c <- infos :: (d in old(infos)[c].openDevices && d !in infos[c].openDevices <==>
                closeDevice && closed && d in old(contexts) && c in old(contexts)[d].clients)
    {
      ghost var before, records := contexts, infos;
      AllLive(waiting, clients);
      if WithinDeviceLimit(infos) {
        LimitAfterJoining(infos, d, Askers(waiting));
      }
      var registered := RegisterBleDeviceForPendingClients(address, d, waiting);
      closeDevice := !registered;
      if closeDevice {
        JoinedNobody(old(infos), d);
        CloseDriverDevice(d, closed);
      }
      WhoLoses(clients, before, records, infos, d, closeDevice && closed);
    }

    // Exactly those who waited for the address, in order, do so no longer, and their requests are answered.
    ghost predicate NoLongerWaits(address: string, waiting: seq<Request>, before: Pending, was: Fates)
      reads this`pending, this`fates
    {
      && Settling(was, fates) && pending == before - {address}
      && waiting == (if address in before then before[address] else [])
      && InTurn(waiting)
      && (forall r <- waiting :: r.ticket in was && was[r.ticket] == Waiting(address) && fates[r.ticket] == Answered)
      && forall t <- fates :: fates[t] != Waiting(address)
    }

    // The requests that wait for the address; their answers are still to be given.
    method TakeWaiting(address: string) returns (waiting: seq<Request>)
      requires Valid()
      modifies this`pending, this`fates
      ensures Sound() && NoLongerWaits(address, waiting, old(pending), old(fates))
      ensures forall r <- waiting :: r.client in clients
      ensures forall success :: Told(fates, answers + AnswersFor(waiting, success))
    {
      if address !in pending {
        NobodyWaitsFor(address);
        assert pending - {address} == pending;
        assert forall success :: answers + AnswersFor([], success) == answers;
        return [];
      }
      waiting := pending[address];
      assert ListOk(pending[address], clients);
      AnswerBooks(pending, clients, fates, requests, address);
      assert forall r <- waiting :: r.ticket in Tickets(pending[address]);
      forall success
        ensures Told(Decided(fates, Tickets(waiting), Answered), answers + AnswersFor(waiting, success))
      {
        ToldMore(fates, answers, waiting, success);
      }
      fates := Decided(fates, Tickets(waiting), Answered);
      pending := pending - {address};
      NobodyWaitsFor(address);
    }

    lemma NobodyWaitsFor(address: string)
      requires Booked(pending, clients, fates, requests) && address !in pending
      ensures forall t <- fates :: fates[t] != Waiting(address)
    {
      forall t | t in fates
        ensures fates[t] != Waiting(address)
      {
        assert OnList(pending, fates, t);
      }
    }
  }
}
