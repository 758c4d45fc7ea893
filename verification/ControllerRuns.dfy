/** Runs of the service controller, from its start, that break what it promises. */
module ControllerRuns {
  import opened Words
  import opened Ledger
  import opened BleRequests
  import opened Controller

  method FirstClient() returns (m: MidiServiceController, c: word)
    ensures fresh(m) && m.Valid() && m.Served() && m.clients == {c} && m.contexts == map[] && m.activeBle == map[]
    ensures m.infos == map[c := Info(1000, {}, 0)] && m.pending == map[] && m.requests == 0
  {
    m := new MidiServiceController();
    var code;
    code, c := m.CreateMidiInServer(1000, true);
    assert m.clients == {} + {c} == {c};
  }

  // The controller's first client waits for a Bluetooth device.
  method ClientWaits(address: string) returns (m: MidiServiceController, c: word)
    ensures fresh(m) && m.Valid() && m.Served() && m.clients == {c} && m.contexts == map[] && m.activeBle == map[]
    ensures m.infos == map[c := Info(1000, {}, 0)] && m.pending == map[address := [Request(c, 0)]]
  {
    m, c := FirstClient();
    var code, answered := m.OpenBleDevice(c, address, OK);
    assert [] + [Request(c, 0)] == [Request(c, 0)];
  }

  // The client asks for a Bluetooth device, opens sixteen others while it waits, and gets the
  // seventeenth.
  method SeventeenDevices(address: string, devices: seq<int>, d: int) returns (m: MidiServiceController, c: word)
    requires |devices| == MAX_DEVICES_PER_CLIENT && d !in devices
    requires forall i, j :: 0 <= i < j < |devices| ==> devices[i] != devices[j]
    ensures fresh(m) && m.Valid() && c in m.clients
    ensures |m.infos[c].openDevices| == 17 && !WithinDeviceLimit(m.infos)
  {
    m, c := ClientWaits(address);
    OpenAll(m, c, devices);
    GetsDevice(m, c, address, d);
  }

  // The device the client waits for is there.
  method GetsDevice(m: MidiServiceController, c: word, address: string, d: int)
    requires m.Valid() && m.clients == m.infos.Keys && c in m.infos && m.pending == map[address := [Request(c, 0)]]
    modifies m
    ensures m.Valid() && c in m.clients && c in m.infos
    ensures m.infos[c].openDevices == old(m.infos)[c].openDevices + {d}
  {
    ghost var infos := m.infos;
    var waiting, closing := m.HandleBleOpenComplete(address, true, d, true);
    JoinsAlone(infos, d, c, waiting);
  }

  lemma JoinsAlone(infos: Infos, d: int, c: word, waiting: seq<Request>)
    requires c in infos && waiting == [Request(c, 0)]
    ensures Askers(waiting) == {c}
    ensures Joined(infos, d, Askers(waiting))[c].openDevices == infos[c].openDevices + {d}
  {
    assert Request(c, 0) in waiting;
    assert forall r <- waiting :: r == Request(c, 0);
  }

  // A client without devices opens some, all different, while there is room.
  method OpenAll(m: MidiServiceController, c: word, devices: seq<int>)
    requires m.Valid() && c in m.clients && c in m.infos && m.infos[c].openDevices == {}
    requires |devices| <= MAX_DEVICES_PER_CLIENT
    requires forall i, j :: 0 <= i < j < |devices| ==> devices[i] != devices[j]
    modifies m`contexts, m`infos
    ensures m.Valid() && c in m.infos
    ensures m.infos[c].openDevices == Members(devices, |devices|) && |m.infos[c].openDevices| == |devices|
  {
    for i := 0 to |devices|
      invariant m.Valid() && c in m.infos
      invariant m.infos[c].openDevices == Members(devices, i) && |m.infos[c].openDevices| == i
    {
      OpenOne(m, c, devices[i]);
    }
  }

  method OpenOne(m: MidiServiceController, c: word, d: int)
    requires m.Valid() && c in m.infos
    requires d !in m.infos[c].openDevices && |m.infos[c].openDevices| < MAX_DEVICES_PER_CLIENT
    modifies m`contexts, m`infos
    ensures m.Valid() && c in m.infos && m.infos[c].openDevices == old(m.infos)[c].openDevices + {d}
  {
    ghost var infos := m.infos;
    var code := m.OpenDevice(c, d, true, true);
    JoinsAlone(infos, d, c, [Request(c, 0)]);
  }

  ghost function Members(devices: seq<int>, n: nat): (members: set<int>)
    requires n <= |devices|
    ensures forall x :: x in members <==> exists i :: 0 <= i < n && devices[i] == x
  {
    if n == 0 then {} else Members(devices, n - 1) + {devices[n - 1]}
  }

  method ClientHasDevice(address: string, d: int) returns (m: MidiServiceController, c: word)
    ensures fresh(m) && m.Valid() && m.Served() && m.pending == map[] && m.activeBle == map[address := d]
    ensures m.contexts == map[d := Context({c}, map[])] && m.clients == {c}
    ensures c in m.infos && d in m.infos[c].openDevices && m.infos[c].openPortCount == 0
  {
    m, c := ClientWaits(address);
    ghost var infos := m.infos;
    var waiting, closing := m.HandleBleOpenComplete(address, true, d, true);
    JoinsAlone(infos, d, c, waiting);
  }

  // A client that waited has its device, and is connected to a port of it.
  method ClientConnected(address: string, d: int, p: Port) returns (m: MidiServiceController, c: word)
    ensures fresh(m) && m.Valid() && m.Served() && m.pending == map[] && HasConnection(m.contexts, d, p, c)
    ensures m.activeBle == map[address := d] && c in m.clients
  {
    m, c := ClientHasDevice(address, d);
    var code := m.OpenPort(c, d, p, true, OK, OK, OK, OK);
  }

  // The connection's success is delivered a second time, when nobody waits any more: the device is closed,
  // and the client that is connected to its port loses both without having closed anything.
  method LosesDevice(m: MidiServiceController, c: word, address: string, d: int, p: Port)
    requires m.Valid() && m.Served() && HasConnection(m.contexts, d, p, c) && c in m.clients
    requires address !in m.pending && forall a <- m.activeBle :: m.activeBle[a] == d ==> a == address
    modifies m
    ensures m.Valid() && m.Served() && c in m.clients && c in m.infos
    ensures d !in m.contexts && d !in m.infos[c].openDevices && (d, p) !in m.openPorts
    ensures address !in m.activeBle && forall a <- m.activeBle :: m.activeBle[a] != d
  {
    assert ContextOk(m.contexts[d], m.clients);
    assert m.pending - {address} == m.pending;
    var waiting, closing := m.HandleBleOpenComplete(address, true, d, true);
    ghost var losers := m.infos;
    assert c in losers;
  }

  method ClosedInUse(address: string, d: int, p: Port) returns (m: MidiServiceController, c: word)
    ensures fresh(m) && m.Valid() && m.Served() && c in m.clients && c in m.infos
    ensures d !in m.contexts && d !in m.infos[c].openDevices && address !in m.activeBle
  {
    m, c := ClientConnected(address, d, p);
    LosesDevice(m, c, address, d, p);
  }

  // ---------- Every run ----------

  // A call of the service, with what the drivers answer.
  datatype Call =
    | Create(uid: word, registered: bool)
    | Destroy(client: word, ports: (int, Port) -> Code, devicesClosed: int -> bool)
    | Open(client: word, device: int, permitted: bool, driverOk: bool)
    | OpenPort(client: word, device: int, port: Port, permitted: bool, driver: Code, started: Code, added: Code,
               closed: Code)
    | ClosePort(client: word, device: int, port: Port, driver: Code)
    | Close(client: word, device: int, drivers: Port -> Code, deviceClosed: bool)
    | Change(removed: bool, device: int)
    | OpenBle(client: word, address: string, driver: Code)
    | Complete(address: string, success: bool, device: int, deviceClosed: bool)

  // No driver refuses to close a port.
  ghost predicate PortsClose(call: Call) {
    match call
    case Destroy(_, ports, _) => forall d, p :: ports(d, p) == OK
    case OpenPort(_, _, _, _, _, _, _, closed) => closed == OK
    case ClosePort(_, _, _, driver) => driver == OK
    case Close(_, _, drivers, _) => forall p :: drivers(p) == OK
    case _ => true
  }

  method Serve(m: MidiServiceController, call: Call)
    requires m.Valid() && m.Served()
    modifies m
    ensures m.Valid() && m.Served() && (PortsClose(call) ==> m.failed <= old(m.failed))
  {
    match call {
      case Create(uid, registered) =>
        var code, id := m.CreateMidiInServer(uid, registered);
      case Destroy(client, ports, devicesClosed) =>
        var code, devices := m.DestroyMidiClient(client, ports, devicesClosed);
      case Open(client, device, permitted, driverOk) =>
        var code := m.OpenDevice(client, device, permitted, driverOk);
      case Close(client, device, drivers, deviceClosed) =>
        var code := m.CloseDevice(client, device, drivers, deviceClosed);
      case Change(removed, device) =>
        m.NotifyDeviceChange(removed, device);
      case OpenPort(_, _, _, _, _, _, _, _) => ServePort(m, call);
      case ClosePort(_, _, _, _) => ServePort(m, call);
      case OpenBle(_, _, _) => ServeBle(m, call);
      case Complete(_, _, _, _) => ServeBle(m, call);
    }
  }

  method ServePort(m: MidiServiceController, call: Call)
    requires m.Valid() && m.Served() && (call.OpenPort? || call.ClosePort?)
    modifies m
    ensures m.Valid() && m.Served() && (PortsClose(call) ==> m.failed <= old(m.failed))
  {
    match call {
      case OpenPort(client, device, port, permitted, driver, started, added, closed) =>
        var code := m.OpenPort(client, device, port, permitted, driver, started, added, closed);
      case ClosePort(client, device, port, driver) =>
        var code := m.ClosePort(client, device, port, driver);
    }
  }

  method ServeBle(m: MidiServiceController, call: Call)
    requires m.Valid() && m.Served() && (call.OpenBle? || call.Complete?)
    modifies m
    ensures m.Valid() && m.Served() && m.failed == old(m.failed)
  {
    match call {
      case OpenBle(client, address, driver) =>
        var code, answered := m.OpenBleDevice(client, address, driver);
      case Complete(address, success, device, deviceClosed) =>
        var waiting, closing := m.HandleBleOpenComplete(address, success, device, deviceClosed);
    }
  }

  // Whatever is called in whatever order, the drivers have every connected port open; and if none of
  // them refuses to close a port, exactly the connected ports are open.
  method EveryRun(calls: seq<Call>) returns (m: MidiServiceController)
    ensures fresh(m) && m.Valid() && m.Served()
    ensures (forall call <- calls :: PortsClose(call)) ==> m.openPorts == Connected(m.contexts)
  {
    m := new MidiServiceController();
    for i := 0 to |calls|
      invariant fresh(m) && m.Valid() && m.Served()
      invariant (forall call <- calls :: PortsClose(call)) ==> m.failed == {}
    {
      assert calls[i] in calls;
      Serve(m, calls[i]);
    }
    assert m.InSync();
  }
}
