/** The scheduler's ring is what a reader sees of the shared ring: its readable events. Every operation of
    the shared ring does to them what the scheduler's ring does. */
module SchedulerRing {
  import opened Words
  import opened RingLayout
  import opened SharedRing
  import opened Schedule
  import opened Scheduler

  // What arrives for the scheduler when headers are appended: their readable events, or nothing at all
  // once an unread header carries the number 0.
  lemma {:induction false} ArrivesExactly(slots: seq<Slot>, added: seq<Slot>)
    ensures Readables(slots + added) == Readables(slots) + if Live(slots) then Readables(added) else []
  {
    if slots == [] {
      assert slots + added == added;
    } else {
      assert (slots + added)[1..] == slots[1..] + added && slots == [slots[0]] + slots[1..];
      LiveFirst(slots);
      if slots[0].seqno == 0 {
        return;
      }
      ArrivesExactly(slots[1..], added);
      Regrouped(if slots[0].wrap then [] else [slots[0].event], Readables(slots[1..]),
                if Live(slots[1..]) then Readables(added) else []);
    }
  }

  lemma Regrouped(one: seq<Event>, rest: seq<Event>, more: seq<Event>)
    ensures one + (rest + more) == one + rest + more
  {
  }

  lemma LiveFirst(slots: seq<Slot>)
    requires slots != []
    ensures Live(slots) <==> slots[0].seqno != 0 && Live(slots[1..])
  {
    assert slots == [slots[0]] + slots[1..];
  }

  // A batch is written while the scheduler is at work.
  method WriteBehind(ring: MidiSharedRing, events: seq<InnerEvent>) returns (written: nat, ghost arrived: seq<Event>)
    requires ring.Valid() && HEADER_BYTES < ring.capacity
    modifies ring.mem, ring`writePosition
    ensures ring.Valid() && written <= |events|
    ensures Readables(ring.Slots()) == old(Readables(ring.Slots())) + arrived
    ensures !Live(old(ring.Slots())) ==> arrived == []
    ensures Live(ring.Slots()) ==> arrived == EventsOf(events[..written])
  {
    var status;
    ghost var added;
    status, written, added := ring.TryWriteEvents(Some(events), |events|);
    ArrivesExactly(old(ring.Slots()), added);
    arrived := if Live(old(ring.Slots())) then Readables(added) else [];
    assert ring.Slots() == old(ring.Slots()) + added;
    if Live(ring.Slots()) {
      assert forall s <- added :: s in ring.Slots();
      assert forall s <- old(ring.Slots()) :: s in ring.Slots();
      LiveReadsAll(added);
      EventsAppend(old(ring.Slots()), added);
      SameRest(Events(old(ring.Slots())), Events(added), EventsOf(events[..written]));
    }
  }

  lemma SameRest(a: seq<Event>, b: seq<Event>, c: seq<Event>)
    requires a + b == a + c
    ensures b == c
  {
    assert b == (a + b)[|a|..] && c == (a + c)[|a|..];
  }

  // The drain loop on the shared ring itself, in step with the scheduler: peek, let the scheduler take the
  // event or leave it, and commit what it took. All along its ring is what a reader sees.
  method DrainSharedRing(connection: DeviceConnectionForOutput, c: ClientConnectionInServer, ring: MidiSharedRing)
    returns (ghost burst: seq<Sent>)
    requires connection.Valid() && c in connection.clients && c.arriving == []
    requires ring.Valid() && HEADER_BYTES < ring.capacity && c.ring == Readables(ring.Slots())
    modifies connection`sendCache, connection`currentSendCacheBytes, connection`driverOut, connection`log
    modifies c`ring, c`arriving, c`taken, c`pending, ring`readPosition
    ensures connection.Valid() && WentOn(old(StandOf(c)), StandOf(c)) && c.arriving == []
    ensures ring.Valid() && c.ring == Readables(ring.Slots())
    ensures connection.Burst(old(connection.log), burst, connection.log)
    ensures |c.taken| <= |old(c.taken)| + MAX_DRAIN_PER_CLIENT && connection.Stopped(c, old(c.taken))
  {
    burst := [];
    connection.NoBurst(connection.log);
    WentNowhere(StandOf(c), StandOf(c));
    var drained, going := 0, true;
    while going
      invariant connection.Valid() && WentOn(old(StandOf(c)), StandOf(c)) && c.arriving == []
      invariant ring.Valid() && c.ring == Readables(ring.Slots())
      invariant connection.Burst(old(connection.log), burst, connection.log)
      invariant 0 <= drained <= MAX_DRAIN_PER_CLIENT && |c.taken| == |old(c.taken)| + drained
      invariant !going ==> connection.Stopped(c, old(c.taken))
      decreases MAX_DRAIN_PER_CLIENT - drained, going
    {
      ghost var mid, before := StandOf(c), connection.log;
      ghost var more;
      going, more := DrainSharedRound(connection, c, ring, drained == MAX_DRAIN_PER_CLIENT);
      WentOnTwice(old(StandOf(c)), mid, StandOf(c));
      connection.BurstTwice(old(connection.log), burst, before, more, connection.log);
      burst := burst + more;
      drained := drained + if going then 1 else 0;
    }
  }

  method DrainSharedRound(connection: DeviceConnectionForOutput, c: ClientConnectionInServer, ring: MidiSharedRing,
                          last: bool) returns (ok: bool, ghost burst: seq<Sent>)
    requires connection.Valid() && c in connection.clients && c.arriving == []
    requires ring.Valid() && HEADER_BYTES < ring.capacity && c.ring == Readables(ring.Slots())
    modifies connection`sendCache, connection`currentSendCacheBytes, connection`driverOut, connection`log
    modifies c`ring, c`arriving, c`taken, c`pending, ring`readPosition
    ensures connection.Valid() && WentOn(old(StandOf(c)), StandOf(c)) && c.arriving == []
    ensures ring.Valid() && c.ring == Readables(ring.Slots())
    ensures connection.Burst(old(connection.log), burst, connection.log)
    ensures |c.taken| == |old(c.taken)| + if ok then 1 else 0
    ensures last ==> !ok
    ensures !ok ==> last || c.ring == [] || (!IsImmediate(c.ring[0]) && c.IsPendingFull())
  {
    var status, peeked := PeekShown(ring);
    ok, burst := TakeOrLeave(connection, c, last);
    CommitIf(ring, peeked, ok);
  }

  method CommitIf(ring: MidiSharedRing, peeked: Peeked, taken: bool)
    requires ring.Valid() && (taken ==> ring.IsHead(peeked))
    modifies ring`readPosition
    ensures ring.Valid()
    ensures taken ==> old(Readables(ring.Slots())) != []
    ensures var before := old(Readables(ring.Slots()));
            Readables(ring.Slots()) == if taken then before[1..] else before
  {
    if taken {
      CommitTaken(ring, peeked);
    }
  }

  // The scheduler's part of a round.
  method TakeOrLeave(connection: DeviceConnectionForOutput, c: ClientConnectionInServer, last: bool)
    returns (ok: bool, ghost burst: seq<Sent>)
    requires connection.Valid() && c in connection.clients && c.arriving == []
    modifies connection`sendCache, connection`currentSendCacheBytes, connection`driverOut, connection`log
    modifies c`ring, c`arriving, c`taken, c`pending
    ensures connection.Valid() && WentOn(old(StandOf(c)), StandOf(c)) && c.arriving == []
    ensures connection.Burst(old(connection.log), burst, connection.log)
    ensures |c.taken| == |old(c.taken)| + if ok then 1 else 0
    ensures last ==> !ok
    ensures !ok ==> last || c.ring == [] || (!IsImmediate(c.ring[0]) && c.IsPendingFull())
    ensures (ok ==> old(c.ring) != []) && c.ring == if ok then old(c.ring)[1..] else old(c.ring)
  {
    ok, burst := connection.DrainRound(c, last);
    TakesOne(old(StandOf(c)), StandOf(c), ok);
  }

  method CommitTaken(ring: MidiSharedRing, peeked: Peeked)
    requires ring.Valid() && ring.IsHead(peeked)
    modifies ring`readPosition
    ensures ring.Valid() && old(Readables(ring.Slots())) != []
    ensures Readables(ring.Slots()) == old(Readables(ring.Slots()))[1..]
  {
    ring.HeadIsTaken(peeked);
    var committed := ring.CommitRead(peeked);
  }

  // A peek leaves what can be read, and finds something exactly if there is something.
  method PeekShown(ring: MidiSharedRing) returns (status: Status, peeked: Peeked)
    requires ring.Valid() && HEADER_BYTES < ring.capacity
    modifies ring`readPosition
    ensures ring.Valid() && Readables(ring.Slots()) == old(Readables(ring.Slots()))
    ensures status == OK <==> Readables(ring.Slots()) != []
    ensures status == OK ==> ring.IsHead(peeked)
  {
    status, peeked := ring.PeekNext();
    assert [] + Readables(ring.Slots()) == Readables(ring.Slots());
  }

  // Nothing arrives: one event more was taken, or none.
  lemma TakesOne(s: Stand, s': Stand, ok: bool)
    requires WentOn(s, s') && s.arriving == [] && |s'.books.taken| == |s.books.taken| + if ok then 1 else 0
    ensures s'.arriving == [] && (ok ==> s.ring != [])
    ensures s'.ring == if ok then s.ring[1..] else s.ring
  {
    var drained := s'.books.taken[|s.books.taken|..];
    assert s'.books.taken == s.books.taken + drained && |drained| == if ok then 1 else 0;
    assert |Written(s)| == |s.books.taken| + |s.ring|;
    assert |Written(s')| == |s.books.taken| + |drained| + |s'.ring| + |s'.arriving|;
    assert s.ring == drained + s'.ring;
  }
}
