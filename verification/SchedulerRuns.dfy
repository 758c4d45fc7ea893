/** A run of the output scheduler after which an event waits in a ring and nothing wakes the worker. */
module SchedulerRuns {
  import opened Words
  import opened RingLayout
  import opened Schedule
  import opened Scheduler

  // An event whose time lies before every reading of the clock.
  function Overdue(length: nat): Event {
    Event(TWO_64 - 1, seq(length, i => 0))
  }

  // The client writes events into its ring.
  method Write(connection: DeviceConnectionForOutput, c: ClientConnectionInServer, es: seq<Event>)
    requires connection.Valid() && c in connection.clients
    modifies c`ring
    ensures connection.Valid() && c.ring == old(c.ring) + es
  {
    c.ring := c.ring + es;
    assert forall d <- connection.clients :: old(connection.ClientOk(d));
  }

  method LimitHeap(connection: DeviceConnectionForOutput, c: ClientConnectionInServer, max: nat)
    requires connection.Valid() && c in connection.clients
    modifies c`maxPending
    ensures connection.Valid() && c.maxPending == max
  {
    c.SetMaxPending(max);
    assert forall d <- connection.clients :: old(connection.ClientOk(d));
  }

  method OneClient() returns (connection: DeviceConnectionForOutput, c: ClientConnectionInServer)
    ensures connection.Valid() && connection.clients == [c] && connection.clock == 0 && c.ring == [] == c.arriving
    ensures fresh(connection) && fresh(c) && Books(c) == Account(multiset{}, multiset{}, [])
  {
    connection := new DeviceConnectionForOutput(true, 1024);
    c := connection.AddClientConnection(1);
  }

  // A client with two overdue events in its ring and a heap for one.
  method TwoOverdue() returns (connection: DeviceConnectionForOutput, c: ClientConnectionInServer)
    ensures connection.Valid() && connection.clients == [c] && connection.clock == 0 && c.ring == TwoEvents()
    ensures c.arriving == [] && c.maxPending == 1 && Books(c) == Account(multiset{}, multiset{}, [])
    ensures fresh(connection) && fresh(c)
  {
    connection, c := OneClient();
    LimitHeap(connection, c, 1);
    Write(connection, c, TwoEvents());
  }

  function TwoEvents(): seq<Event> {
    [Overdue(1), Overdue(2)]
  }

  // Nothing more is written. The first event goes out and the second stays in the ring; since the heap is
  // empty afterwards the timer is off and the worker does not wake itself.
  method OneIsLeft() returns (connection: DeviceConnectionForOutput, c: ClientConnectionInServer)
    ensures connection.Valid() && connection.clients == [c]
    ensures c.taken == [Overdue(1)] && c.ring == [Overdue(2)] && c.pending == multiset{} && c.arriving == []
    ensures connection.timerSec == 0 && connection.timerNsec == 0 && !connection.wokeItself
  {
    connection, c := TwoOverdue();
    ghost var before := connection.Standing();
    assert before[c] == StandOf(c);
    ghost var burst, collected, lastNow, next := connection.HandleWakeupOnce();
    ClientAfter(connection, c, next);
    PassOverTwo(before, connection.Standing(), connection.Pending(), c, collected, lastNow);
  }

  lemma PassOverTwo(before: Stands, after: Stands, heaps: Heaps, c: ClientConnectionInServer,
                    collected: seq<Sent>, lastNow: int)
    requires PassDone(before, after, heaps, collected, lastNow) && 0 <= lastNow
    requires c in before && before[c] == Stand(TwoEvents(), [], Account(multiset{}, multiset{}, []), 1)
    requires c in heaps && heaps[c] == after[c].books.pending
    ensures after[c].books.taken == [Overdue(1)] && after[c].ring == [Overdue(2)]
    ensures after[c].books.pending == multiset{} && after[c].arriving == []
  {
    assert PassedOver(before[c], after[c], From(collected, c));
    SecondIsLeft(before[c], after[c], From(collected, c), lastNow);
  }

  lemma ClientAfter(connection: DeviceConnectionForOutput, c: ClientConnectionInServer, next: Option<int>)
    requires connection.clients == [c] && connection.NextDue(next) && connection.ArmedFor(next)
    ensures c in connection.Standing() && connection.Standing()[c] == StandOf(c)
    ensures c in connection.Pending() && connection.Pending()[c] == c.pending
    ensures c.pending == multiset{} ==>
              connection.timerSec == 0 && connection.timerNsec == 0 && !connection.wokeItself
  {
  }

  lemma SecondIsLeft(s: Stand, s': Stand, collected: seq<Event>, lastNow: int)
    requires 0 <= lastNow && forall e <- s'.books.pending :: lastNow < Due(e)
    requires s == Stand(TwoEvents(), [], Account(multiset{}, multiset{}, []), 1) && PassedOver(s, s', collected)
    ensures s'.books.taken == [Overdue(1)] && s'.ring == [Overdue(2)]
    ensures s'.books.pending == multiset{} && s'.arriving == []
  {
    TakenOfTwo(s, s', collected);
    OneIsTaken(s'.books.taken, s'.ring);
    TimedSnoc([], Overdue(1));
    assert [] + [Overdue(1)] == [Overdue(1)];
    assert s'.books.taken[0..] == s'.books.taken;
    assert forall e <- s'.books.pending :: e in Timed([Overdue(1)]);
  }

  lemma TakenOfTwo(s: Stand, s': Stand, collected: seq<Event>)
    requires s == Stand(TwoEvents(), [], Account(multiset{}, multiset{}, []), 1) && PassedOver(s, s', collected)
    ensures s'.arriving == [] && s'.books.taken + s'.ring == TwoEvents()
  {
    var taken := s'.books.taken;
    assert Written(s) == TwoEvents() && taken[0..] == taken;
    assert |taken + s'.ring| >= 2;
    assert s'.arriving == [] && Written(s') == taken + s'.ring;
  }

  // With room for one in the heap draining stops after one of two timed events.
  lemma OneIsTaken(taken: seq<Event>, ring': seq<Event>)
    requires taken + ring' == TwoEvents()
    requires Exhausted(TwoEvents(), ring', Account(multiset{}, multiset{}, []), taken, 1)
    ensures taken == [Overdue(1)] && ring' == [Overdue(2)]
  {
    assert taken[0..] == taken && taken == TwoEvents()[..|taken|] && ring' == TwoEvents()[|taken|..];
    TwoAreTimed();
    assert |taken| == 0 ==> taken == [];
    assert |taken| == 2 ==> taken == TwoEvents();
  }

  lemma TwoAreTimed()
    ensures |Timed(TwoEvents())| == 2
  {
    TimedSnoc([], Overdue(1));
    TimedSnoc([Overdue(1)], Overdue(2));
    assert [] + [Overdue(1)] == [Overdue(1)] && TwoEvents() == [Overdue(1)] + [Overdue(2)];
  }
}
