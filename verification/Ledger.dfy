/** The controller's books as values: which clients hold which devices and ports, and what each
    change to one map owes to the others. */
module Ledger {
  import opened Words

  datatype Direction = Input | Output
  datatype Port = Port(direction: Direction, index: word)

  // A device that clients have open: who they are, and the clients connected to each of its ports.
  datatype Context = Context(clients: set<word>, conns: map<Port, seq<word>>)

  datatype Info = Info(uid: word, openDevices: set<int>, openPortCount: int)

  type Contexts = map<int, Context>
  type Infos = map<word, Info>

  ghost predicate Distinct(conn: seq<word>) {
    forall i, j :: 0 <= i < j < |conn| ==> conn[i] != conn[j]
  }

  // The ports a client is connected to, over all devices and both directions.
  ghost function PortsOf(contexts: Contexts, c: word): set<(int, Port)> {
    set d, p | d in contexts && p in contexts[d].conns && c in contexts[d].conns[p] :: (d, p)
  }

  // The ports that anybody is connected to.
  ghost function Connected(contexts: Contexts): set<(int, Port)> {
    set d, p | d in contexts && p in contexts[d].conns :: (d, p)
  }

  // Nobody holds an empty device or port, and only clients of a device are connected to its ports,
  // each once.
  ghost predicate ContextOk(x: Context, clients: set<word>) {
    && x.clients != {} && x.clients <= clients
    && forall p <- x.conns :: x.conns[p] != [] && Distinct(x.conns[p]) && forall c <- x.conns[p] :: c in x.clients
  }

  // A client's own record agrees with the contexts. A client that is just being removed has its
  // devices struck off all at once at the end.
  ghost predicate InfoOk(info: Info, contexts: Contexts, c: word, leaving: set<word>) {
    && info.openPortCount == |PortsOf(contexts, c)|
    && (c !in leaving ==> forall d :: d in info.openDevices <==> d in contexts && c in contexts[d].clients)
  }

  ghost predicate Balanced(clients: set<word>, contexts: Contexts, infos: Infos, leaving: set<word>) {
    && infos.Keys == clients
    && (forall d {:trigger ContextOk(contexts[d], clients)} :: d in contexts ==> ContextOk(contexts[d], clients))
    && (forall c {:trigger InfoOk(infos[c], contexts, c, leaving)} :: c in clients ==>
          InfoOk(infos[c], contexts, c, leaving))
  }

  lemma Member<T>(some: set<T>) returns (one: T)
    requires some != {}
    ensures one in some
  {
    one :| one in some;
  }

  lemma OneLess<T>(all: set<T>, some: set<T>, one: T)
    requires one in all && one in some
    ensures all - (some - {one}) == (all - some) + {one}
  {
  }

  // ---------- Joining a device ----------

  function Join(contexts: Contexts, d: int, joiners: set<word>): Contexts {
    contexts[d := if d in contexts then contexts[d].(clients := contexts[d].clients + joiners)
                  else Context(joiners, map[])]
  }

  function Joined(infos: Infos, d: int, joiners: set<word>): Infos {
    map c | c in infos :: if c in joiners then infos[c].(openDevices := infos[c].openDevices + {d}) else infos[c]
  }

  lemma JoinPorts(contexts: Contexts, d: int, joiners: set<word>)
    ensures Connected(Join(contexts, d, joiners)) == Connected(contexts)
    ensures forall c :: PortsOf(Join(contexts, d, joiners), c) == PortsOf(contexts, c)
  {
  }

  lemma JoinContext(clients: set<word>, contexts: Contexts, d: int, joiners: set<word>)
    requires joiners <= clients && joiners != {} && (d in contexts ==> ContextOk(contexts[d], clients))
    ensures ContextOk(Join(contexts, d, joiners)[d], clients)
  {
    var x := Join(contexts, d, joiners)[d];
    var c :| c in joiners;
    assert c in x.clients;
    if d in contexts {
      forall p | p in x.conns
        ensures x.conns[p] != [] && Distinct(x.conns[p]) && forall c <- x.conns[p] :: c in x.clients
      {
        assert p in contexts[d].conns;
      }
    }
  }

  lemma JoinInfo(contexts: Contexts, infos: Infos, d: int, joiners: set<word>, c: word)
    requires c in infos && InfoOk(infos[c], contexts, c, {})
    ensures InfoOk(Joined(infos, d, joiners)[c], Join(contexts, d, joiners), c, {})
  {
    JoinPorts(contexts, d, joiners);
  }

  lemma JoinBalances(clients: set<word>, contexts: Contexts, infos: Infos, d: int, joiners: set<word>)
    requires Balanced(clients, contexts, infos, {}) && joiners <= clients && joiners != {}
    ensures Balanced(clients, Join(contexts, d, joiners), Joined(infos, d, joiners), {})
  {
    var contexts' := Join(contexts, d, joiners);
    JoinContext(clients, contexts, d, joiners);
    forall x | x in contexts'
      ensures ContextOk(contexts'[x], clients)
    {
      assert x != d ==> contexts'[x] == contexts[x];
    }
    forall c | c in clients
      ensures InfoOk(Joined(infos, d, joiners)[c], contexts', c, {})
    {
      JoinInfo(contexts, infos, d, joiners, c);
    }
  }

  // ---------- Connecting and disconnecting ----------

  function Connect(contexts: Contexts, d: int, p: Port, c: word): Contexts
    requires d in contexts
  {
    var x := contexts[d];
    contexts[d := x.(conns := x.conns[p := (if p in x.conns then x.conns[p] else []) + [c]])]
  }

  function Charge(infos: Infos, c: word, amount: int): Infos
    requires c in infos
  {
    infos[c := infos[c].(openPortCount := infos[c].openPortCount + amount)]
  }

  function Without(conn: seq<word>, c: word): seq<word> {
    if conn == [] then [] else (if conn[0] == c then [] else [conn[0]]) + Without(conn[1..], c)
  }

  function Disconnect(contexts: Contexts, d: int, p: Port, c: word): Contexts
    requires d in contexts && p in contexts[d].conns
  {
    var x := contexts[d];
    var rest := Without(x.conns[p], c);
    contexts[d := x.(conns := if rest == [] then x.conns - {p} else x.conns[p := rest])]
  }

  ghost predicate HasConnection(contexts: Contexts, d: int, p: Port, c: word) {
    d in contexts && p in contexts[d].conns && c in contexts[d].conns[p]
  }

  lemma {:induction false} WithoutMembers(conn: seq<word>, c: word)
    ensures forall x :: x in Without(conn, c) <==> x in conn && x != c
    ensures Distinct(conn) ==> Distinct(Without(conn, c))
  {
    if conn != [] {
      WithoutMembers(conn[1..], c);
      assert conn == [conn[0]] + conn[1..];
      if Distinct(conn) && conn[0] != c {
        assert conn[0] !in conn[1..];
      }
    }
  }

  lemma ConnectPorts(contexts: Contexts, d: int, p: Port, c: word)
    requires d in contexts && !HasConnection(contexts, d, p, c)
    ensures var contexts' := Connect(contexts, d, p, c);
            && PortsOf(contexts', c) == PortsOf(contexts, c) + {(d, p)}
            && (forall x :: x != c ==> PortsOf(contexts', x) == PortsOf(contexts, x))
            && Connected(contexts') == Connected(contexts) + {(d, p)}
  {
    var contexts' := Connect(contexts, d, p, c);
    forall x | x != c
      ensures PortsOf(contexts', x) == PortsOf(contexts, x)
    {
      var conn := if p in contexts[d].conns then contexts[d].conns[p] else [];
      assert x in conn + [c] <==> x in conn;
    }
  }

  lemma ConnectContext(x: Context, clients: set<word>, p: Port, c: word)
    requires ContextOk(x, clients) && c in x.clients && (p in x.conns ==> c !in x.conns[p])
    ensures ContextOk(x.(conns := x.conns[p := (if p in x.conns then x.conns[p] else []) + [c]]), clients)
  {
    var conn := if p in x.conns then x.conns[p] else [];
    assert p in x.conns ==> Distinct(x.conns[p]);
    assert forall y <- conn + [c] :: y in conn || y == c;
  }

  lemma ConnectInfo(contexts: Contexts, infos: Infos, d: int, p: Port, c: word, x: word)
    requires c in infos && x in infos && InfoOk(infos[x], contexts, x, {})
    requires d in contexts && !HasConnection(contexts, d, p, c)
    ensures InfoOk(Charge(infos, c, 1)[x], Connect(contexts, d, p, c), x, {})
  {
    ConnectPorts(contexts, d, p, c);
    assert (d, p) !in PortsOf(contexts, c);
  }

  lemma ConnectBalances(clients: set<word>, contexts: Contexts, infos: Infos, d: int, p: Port, c: word)
    requires Balanced(clients, contexts, infos, {})
    requires c in clients && d in contexts && c in contexts[d].clients && !HasConnection(contexts, d, p, c)
    ensures Balanced(clients, Connect(contexts, d, p, c), Charge(infos, c, 1), {})
  {
    var contexts' := Connect(contexts, d, p, c);
    ConnectContext(contexts[d], clients, p, c);
    forall x | x in contexts'
      ensures ContextOk(contexts'[x], clients)
    {
      assert x != d ==> contexts'[x] == contexts[x];
    }
    forall x | x in clients
      ensures InfoOk(Charge(infos, c, 1)[x], contexts', x, {})
    {
      ConnectInfo(contexts, infos, d, p, c, x);
    }
  }

  lemma DisconnectPorts(contexts: Contexts, d: int, p: Port, c: word)
    requires HasConnection(contexts, d, p, c)
    ensures var contexts' := Disconnect(contexts, d, p, c);
            && PortsOf(contexts', c) == PortsOf(contexts, c) - {(d, p)}
            && (forall x :: x != c ==> PortsOf(contexts', x) == PortsOf(contexts, x))
            && Connected(contexts') ==
               if Without(contexts[d].conns[p], c) == [] then Connected(contexts) - {(d, p)} else Connected(contexts)
  {
    WithoutMembers(contexts[d].conns[p], c);
    var contexts' := Disconnect(contexts, d, p, c);
    forall x | x != c
      ensures PortsOf(contexts', x) == PortsOf(contexts, x)
    {
      assert x in Without(contexts[d].conns[p], c) <==> x in contexts[d].conns[p];
    }
  }

  lemma DisconnectContext(contexts: Contexts, clients: set<word>, d: int, p: Port, c: word)
    requires HasConnection(contexts, d, p, c) && ContextOk(contexts[d], clients)
    ensures ContextOk(Disconnect(contexts, d, p, c)[d], clients)
  {
    WithoutMembers(contexts[d].conns[p], c);
  }

  lemma DisconnectInfo(contexts: Contexts, infos: Infos, d: int, p: Port, c: word, x: word, leaving: set<word>)
    requires c in infos && x in infos && InfoOk(infos[x], contexts, x, leaving)
    requires HasConnection(contexts, d, p, c)
    ensures InfoOk(Charge(infos, c, -1)[x], Disconnect(contexts, d, p, c), x, leaving)
    ensures x == c ==> infos[c].openPortCount > 0
  {
    DisconnectPorts(contexts, d, p, c);
    assert (d, p) in PortsOf(contexts, c);
  }

  lemma DisconnectBalances(clients: set<word>, contexts: Contexts, infos: Infos, d: int, p: Port, c: word,
                           leaving: set<word>)
    requires Balanced(clients, contexts, infos, leaving) && c in clients && HasConnection(contexts, d, p, c)
    ensures Balanced(clients, Disconnect(contexts, d, p, c), Charge(infos, c, -1), leaving)
    ensures infos[c].openPortCount > 0
  {
    var contexts' := Disconnect(contexts, d, p, c);
    DisconnectContext(contexts, clients, d, p, c);
    forall x | x in contexts'
      ensures ContextOk(contexts'[x], clients)
    {
      assert x != d ==> contexts'[x] == contexts[x];
    }
    forall x | x in clients
      ensures InfoOk(Charge(infos, c, -1)[x], contexts', x, leaving)
    {
      DisconnectInfo(contexts, infos, d, p, c, x, leaving);
    }
    DisconnectInfo(contexts, infos, d, p, c, c, leaving);
  }

  // ---------- Leaving a device ----------

  // Connection p of device d with everything about c taken out.
  ghost predicate Cleared(contexts: Contexts, contexts': Contexts, d: int, c: word, done: set<Port>) {
    && d in contexts && contexts'.Keys == contexts.Keys
    && (forall x <- contexts :: x != d ==> contexts'[x] == contexts[x])
    && contexts'[d].clients == contexts[d].clients
    && (forall p :: p in contexts'[d].conns <==>
                    p in contexts[d].conns && (p in done ==> Without(contexts[d].conns[p], c) != []))
    && (forall p <- contexts'[d].conns :: contexts'[d].conns[p] ==
          if p in done then Without(contexts[d].conns[p], c) else contexts[d].conns[p])
  }

  function Leave(contexts: Contexts, d: int, c: word): Contexts
    requires d in contexts
  {
    var x := contexts[d];
    if x.clients == {c} then contexts - {d} else contexts[d := x.(clients := x.clients - {c})]
  }

  ghost predicate NotConnected(contexts: Contexts, d: int, c: word) {
    d in contexts && forall p <- contexts[d].conns :: c !in contexts[d].conns[p]
  }

  lemma SomebodyHolds(x: Context, clients: set<word>, p: Port)
    requires ContextOk(x, clients) && p in x.conns
    ensures exists c <- x.clients :: c in x.conns[p]
  {
    assert x.conns[p][0] in x.conns[p];
  }

  lemma LeavePorts(clients: set<word>, contexts: Contexts, d: int, c: word)
    requires NotConnected(contexts, d, c) && ContextOk(contexts[d], clients) && c in contexts[d].clients
    ensures Connected(Leave(contexts, d, c)) == Connected(contexts)
    ensures forall x :: PortsOf(Leave(contexts, d, c), x) == PortsOf(contexts, x)
  {
    var x := contexts[d];
    if x.clients == {c} {
      forall p | p in x.conns
        ensures false
      {
        SomebodyHolds(x, clients, p);
      }
    }
  }

  lemma LeaveBalances(clients: set<word>, contexts: Contexts, infos: Infos, d: int, c: word, leaving: set<word>)
    requires Balanced(clients, contexts, infos, leaving) && NotConnected(contexts, d, c)
    requires c in clients && c in contexts[d].clients && c in leaving
    ensures Balanced(clients, Leave(contexts, d, c), infos, leaving)
  {
    var contexts' := Leave(contexts, d, c);
    assert ContextOk(contexts[d], clients);
    LeavePorts(clients, contexts, d, c);
    forall x | x in contexts'
      ensures ContextOk(contexts'[x], clients)
    {
      if x == d {
        LeaveContext(contexts[d], clients, c);
      } else {
        assert contexts'[x] == contexts[x];
      }
    }
    forall x | x in clients
      ensures InfoOk(infos[x], contexts', x, leaving)
    {
      assert InfoOk(infos[x], contexts, x, leaving);
    }
  }

  lemma LeaveContext(x: Context, clients: set<word>, c: word)
    requires ContextOk(x, clients) && x.clients != {c} && c in x.clients && forall p <- x.conns :: c !in x.conns[p]
    ensures ContextOk(x.(clients := x.clients - {c}), clients)
  {
    assert x.clients == (x.clients - {c}) + {c};
    forall p | p in x.conns
      ensures forall y <- x.conns[p] :: y in x.clients - {c}
    {
      assert c !in x.conns[p];
    }
  }

  // Striking the device off the client's record completes leaving it.
  lemma StruckOff(clients: set<word>, contexts: Contexts, infos: Infos, d: int, c: word)
    requires c in clients && Balanced(clients, contexts, infos, {c})
    requires d !in contexts || c !in contexts[d].clients
    requires forall x :: x != d ==> (x in infos[c].openDevices <==> x in contexts && c in contexts[x].clients)
    ensures Balanced(clients, contexts, infos[c := infos[c].(openDevices := infos[c].openDevices - {d})], {})
  {
    var infos' := infos[c := infos[c].(openDevices := infos[c].openDevices - {d})];
    forall x | x in clients
      ensures InfoOk(infos'[x], contexts, x, {})
    {
      assert InfoOk(infos[x], contexts, x, {c});
    }
  }

  lemma LeaveFrom(contexts: Contexts, d: int, c: word)
    requires d in contexts
    ensures d in Leave(contexts, d, c) ==> c !in Leave(contexts, d, c)[d].clients
    ensures forall x :: x != d ==> (x in Leave(contexts, d, c) <==> x in contexts)
    ensures forall x <- contexts :: x != d ==> Leave(contexts, d, c)[x] == contexts[x]
  {
  }

  lemma ClearedNothing(contexts: Contexts, d: int, c: word)
    requires d in contexts
    ensures Cleared(contexts, contexts, d, c, {})
  {
  }

  lemma {:induction false} WithoutStranger(conn: seq<word>, c: word)
    requires c !in conn
    ensures Without(conn, c) == conn
  {
    if conn != [] {
      assert conn == [conn[0]] + conn[1..];
      WithoutStranger(conn[1..], c);
    }
  }

  lemma ClearedOne(start: Contexts, contexts: Contexts, d: int, c: word, done: set<Port>, p: Port)
    requires Cleared(start, contexts, d, c, done) && p in start[d].conns && start[d].conns[p] != []
    ensures if HasConnection(contexts, d, p, c) then Cleared(start, Disconnect(contexts, d, p, c), d, c, done + {p})
            else Cleared(start, contexts, d, c, done + {p})
  {
    WithoutMembers(start[d].conns[p], c);
    if c !in start[d].conns[p] {
      WithoutStranger(start[d].conns[p], c);
    }
  }

  lemma ClearedAll(start: Contexts, contexts: Contexts, d: int, c: word)
    requires d in start && Cleared(start, contexts, d, c, start[d].conns.Keys)
    ensures NotConnected(contexts, d, c)
  {
    forall p | p in contexts[d].conns
      ensures c !in contexts[d].conns[p]
    {
      WithoutMembers(start[d].conns[p], c);
    }
  }

  // Client c gave up device d: the others keep what they had, and the device goes with its last client.
  ghost predicate LeftDevice(contexts: Contexts, contexts': Contexts, d: int, c: word) {
    && d in contexts && (d in contexts' <==> contexts[d].clients != {c})
    && (d in contexts' ==> contexts'[d].clients == contexts[d].clients - {c})
    && (forall e :: e != d ==> (e in contexts' <==> e in contexts))
    && (forall e <- contexts' :: e != d ==> contexts'[e] == contexts[e])
    && PortsOf(contexts', c) == (set q | q in PortsOf(contexts, c) && q.0 != d)
    && (forall x :: x != c ==> PortsOf(contexts', x) == PortsOf(contexts, x))
  }

  lemma ClearedPorts(start: Contexts, contexts: Contexts, d: int, c: word, x: word)
    requires d in start && Cleared(start, contexts, d, c, start[d].conns.Keys)
    ensures PortsOf(contexts, x) == if x == c then (set q | q in PortsOf(start, c) && q.0 != d) else PortsOf(start, x)
  {
    forall p | p in start[d].conns
      ensures (d, p) in PortsOf(contexts, x) <==> x != c && (d, p) in PortsOf(start, x)
    {
      WithoutMembers(start[d].conns[p], c);
    }
  }

  lemma ClearedAndLeft(clients: set<word>, start: Contexts, contexts: Contexts, d: int, c: word)
    requires d in start && c in start[d].clients && Cleared(start, contexts, d, c, start[d].conns.Keys)
    requires ContextOk(contexts[d], clients)
    ensures LeftDevice(start, Leave(contexts, d, c), d, c)
  {
    ClearedAll(start, contexts, d, c);
    LeavePorts(clients, contexts, d, c);
    LeaveFrom(contexts, d, c);
    forall x
      ensures PortsOf(Leave(contexts, d, c), x) ==
              if x == c then (set q | q in PortsOf(start, c) && q.0 != d) else PortsOf(start, x)
    {
      ClearedPorts(start, contexts, d, c, x);
    }
  }

  lemma AboutToLeave(clients: set<word>, contexts: Contexts, infos: Infos, c: word)
    requires Balanced(clients, contexts, infos, {})
    ensures Balanced(clients, contexts, infos, {c})
  {
    forall x | x in clients
      ensures InfoOk(infos[x], contexts, x, {c})
    {
      assert InfoOk(infos[x], contexts, x, {});
    }
  }

  ghost predicate GivenUp(contexts: Contexts, contexts': Contexts, d: int, c: word) {
    && (d in contexts' <==> d in contexts && contexts[d].clients != {c})
    && (d in contexts' ==> contexts'[d].clients == contexts[d].clients - {c})
  }

  ghost predicate Untouched(contexts: Contexts, contexts': Contexts, d: int) {
    (d in contexts' <==> d in contexts) && (d in contexts ==> contexts'[d] == contexts[d])
  }

  ghost predicate SamePorts(contexts: Contexts, contexts': Contexts, x: word) {
    PortsOf(contexts', x) == PortsOf(contexts, x)
  }

  // Client c gave up the devices in `done`, one after the other.
  ghost predicate LeftDevices(contexts: Contexts, contexts': Contexts, done: set<int>, c: word) {
    && (forall d {:trigger GivenUp(contexts, contexts', d, c)} :: d in done ==> GivenUp(contexts, contexts', d, c))
    && (forall d {:trigger Untouched(contexts, contexts', d)} :: d !in done ==> Untouched(contexts, contexts', d))
    && (forall x {:trigger SamePorts(contexts, contexts', x)} :: x != c ==> SamePorts(contexts, contexts', x))
  }

  lemma LeftOneMore(start: Contexts, contexts: Contexts, contexts': Contexts, done: set<int>, d: int, c: word)
    requires LeftDevices(start, contexts, done, c) && LeftDevice(contexts, contexts', d, c) && d !in done
    ensures LeftDevices(start, contexts', done + {d}, c)
  {
    assert Untouched(start, contexts, d);
    forall e | e in done
      ensures GivenUp(start, contexts', e, c)
    {
      assert GivenUp(start, contexts, e, c);
    }
    forall e | e !in done + {d}
      ensures Untouched(start, contexts', e)
    {
      assert Untouched(start, contexts, e);
    }
    forall x | x != c
      ensures SamePorts(start, contexts', x)
    {
      assert SamePorts(start, contexts, x);
    }
  }

  lemma LeftNothing(contexts: Contexts, done: set<int>, c: word)
    requires forall d <- done :: d in contexts && c !in contexts[d].clients
    ensures LeftDevices(contexts, contexts, done, c)
  {
    assert forall d <- done :: contexts[d].clients - {c} == contexts[d].clients;
  }

  lemma LeftAll(contexts: Contexts, contexts': Contexts, c: word)
    requires LeftDevices(contexts, contexts', contexts.Keys, c)
    ensures forall d <- contexts' :: c !in contexts'[d].clients
    ensures contexts.Keys - contexts'.Keys == set d | d in contexts && contexts[d].clients == {c}
  {
    forall d | d in contexts
      ensures d in contexts' <==> contexts[d].clients != {c}
      ensures d in contexts' ==> contexts'[d].clients == contexts[d].clients - {c}
    {
      assert GivenUp(contexts, contexts', d, c);
    }
    forall d | d in contexts'
      ensures d in contexts
    {
      assert d !in contexts ==> Untouched(contexts, contexts', d);
    }
  }

  // ---------- Removing a client, or a device ----------

  lemma AddClient(clients: set<word>, contexts: Contexts, infos: Infos, c: word, uid: word)
    requires Balanced(clients, contexts, infos, {}) && c !in clients
    ensures Balanced(clients + {c}, contexts, infos[c := Info(uid, {}, 0)], {})
  {
    forall d | d in contexts
      ensures ContextOk(contexts[d], clients + {c}) && c !in contexts[d].clients
    {
      assert ContextOk(contexts[d], clients);
    }
    assert PortsOf(contexts, c) == {};
    forall x | x in clients + {c}
      ensures InfoOk(infos[c := Info(uid, {}, 0)][x], contexts, x, {})
    {
      assert x != c ==> InfoOk(infos[x], contexts, x, {});
    }
  }

  lemma RemoveClient(clients: set<word>, contexts: Contexts, infos: Infos, c: word)
    requires Balanced(clients, contexts, infos, {c}) && forall d <- contexts :: c !in contexts[d].clients
    ensures Balanced(clients - {c}, contexts, infos - {c}, {})
  {
    forall d | d in contexts
      ensures ContextOk(contexts[d], clients - {c})
    {
      assert ContextOk(contexts[d], clients);
    }
    forall x | x in clients - {c}
      ensures InfoOk((infos - {c})[x], contexts, x, {})
    {
      assert InfoOk(infos[x], contexts, x, {c});
    }
  }

  // The ports of one device a client is connected to.
  ghost function PortsAt(x: Context, c: word): set<Port> {
    set p | p in x.conns && c in x.conns[p]
  }

  function Struck(info: Info, d: int, portCount: int): Info {
    Info(info.uid, info.openDevices - {d},
         if info.openPortCount >= portCount then info.openPortCount - portCount else 0)
  }

  lemma DropPorts(contexts: Contexts, d: int, c: word)
    requires d in contexts
    ensures |PortsOf(contexts, c)| == |PortsOf(contexts - {d}, c)| + |PortsAt(contexts[d], c)|
    ensures Connected(contexts - {d}) == set q | q in Connected(contexts) && q.0 != d
  {
    var here := set p | p in PortsAt(contexts[d], c) :: (d, p);
    assert PortsOf(contexts, c) == PortsOf(contexts - {d}, c) + here;
    assert PortsOf(contexts - {d}, c) !! here;
    SameSize(PortsAt(contexts[d], c), d);
  }

  lemma {:induction false} SameSize(ports: set<Port>, d: int)
    ensures |set p | p in ports :: (d, p)| == |ports|
  {
    var pairs := set p | p in ports :: (d, p);
    if ports == {} {
      assert pairs == {};
    } else {
      var p :| p in ports;
      SameSize(ports - {p}, d);
      assert pairs == (set q | q in ports - {p} :: (d, q)) + {(d, p)};
    }
  }

  // The clients in `struck` were charged back what they had at device d.
  ghost predicate StruckSoFar(infos: Infos, infos': Infos, d: int, x: Context, struck: set<word>) {
    && infos'.Keys == infos.Keys
    && (forall c <- infos :: infos'[c] == if c in struck then Struck(infos[c], d, |PortsAt(x, c)|) else infos[c])
  }

  lemma StruckMore(start: Infos, infos: Infos, infos': Infos, d: int, x: Context, struck: set<word>, c: word)
    requires StruckSoFar(start, infos, d, x, struck) && c in start && c !in struck
    requires infos' == infos[c := Struck(infos[c], d, |PortsAt(x, c)|)]
    ensures StruckSoFar(start, infos', d, x, struck + {c})
  {
  }

  // Everybody who had the device is charged back the ports they had there.
  lemma RemoveDevice(clients: set<word>, contexts: Contexts, infos: Infos, infos': Infos, d: int)
    requires Balanced(clients, contexts, infos, {}) && d in contexts
    requires StruckSoFar(infos, infos', d, contexts[d], contexts[d].clients)
    ensures Balanced(clients, contexts - {d}, infos', {})
  {
    forall x | x in contexts - {d}
      ensures ContextOk((contexts - {d})[x], clients)
    {
      assert ContextOk(contexts[x], clients);
    }
    forall c | c in clients
      ensures InfoOk(infos'[c], contexts - {d}, c, {})
    {
      assert InfoOk(infos[c], contexts, c, {}) && ContextOk(contexts[d], clients);
      DropPorts(contexts, d, c);
      if c !in contexts[d].clients {
        assert PortsAt(contexts[d], c) == {};
      }
    }
  }
}
