/** When the ring stops: an empty ring that refuses an acceptable event for ever, and a queue that no
    reader can enter any more. For each the exact condition, the reason it lasts, and a run. */
module RingStuck {
  import opened Words
  import opened RingLayout
  import opened RingWrites
  import opened SharedRing

  // ---------- Refused by an empty ring ----------

  // A record gets into a ring that is empty at position p at once, or after the reader has stepped
  // over the wrap marker that the refused try left behind.
  predicate TakenInTheEnd(capacity: nat, p: nat, total: nat) {
    Fits(capacity, p, p, total) || capacity - p >= HEADER_BYTES
  }

  // It gets in at every position if and only if it leaves room for a header besides it.
  lemma PolledRingTakes(capacity: nat, total: nat)
    requires HEADER_BYTES <= total < capacity && total % 8 == 0
    ensures (forall p: nat :: p < capacity && p % 8 == 0 ==> TakenInTheEnd(capacity, p, total)) <==>
            total + HEADER_BYTES <= capacity
  {
    var p := 8 * ((capacity - HEADER_BYTES) / 8 + 1);
    assert p % 8 == 0 && capacity - HEADER_BYTES < p < capacity;
    if total + HEADER_BYTES > capacity {
      assert total >= p;
      assert !TakenInTheEnd(capacity, p, total);
    }
  }

  // One try, one look by the reader, and if need be one more try: a ring that was empty at p takes the
  // event if and only if it fits at once, or a wrap marker fits behind p and gets published.
  method TryLookTry(ring: MidiSharedRing, event: InnerEvent) returns (first: Status, second: Status)
    requires ring.Valid() && ring.readPosition == ring.writePosition
    requires HEADER_BYTES < ring.capacity && Acceptable(event, ring.capacity)
    modifies ring.mem, ring`readPosition, ring`writePosition
    ensures ring.Valid()
    ensures var p, total := old(ring.readPosition), RecordBytes(|event.data.value|);
            && first in {OK, WOULD_BLOCK} && second in {OK, WOULD_BLOCK}
            && (first == OK <==> Fits(ring.capacity, p, p, total))
            && (second == OK <==>
                  || Fits(ring.capacity, p, p, total)
                  || (ring.capacity - p >= HEADER_BYTES
                      && Stale(old(ring.mem[..]), p / 8) !in {0xFFFF_FFFD, 0xFFFF_FFFE}))
            && (second != OK ==> Stuck(ring, total) && (ring.capacity - p < HEADER_BYTES ==> ring.Slots() == []))
            && ring.Queue() == if second == OK then [EventOf(event)] else []
  {
    ghost var p, m, total := ring.readPosition, ring.mem[..], RecordBytes(|event.data.value|);
    NothingUnread(ring);
    ghost var added;
    first, added := ring.TryWriteEvent(event);
    second := first;
    if first == OK {
      return;
    }
    RefusedAt(ring.capacity, p, total);
    PublishedSeqIsDeadExactly(Stale(m, p / 8));
    assert ring.Slots() == added;
    second := LookTry(ring, event);
  }

  // What is known where an empty ring refuses a record at p.
  lemma RefusedAt(capacity: nat, p: nat, total: nat)
    requires p < capacity && total < capacity && !Fits(capacity, p, p, total)
    ensures 0 < p <= total && capacity - p < total && NextWrite(capacity, p, p, total) == 0
    ensures LeavesMarker(capacity, p, p, total) <==> capacity - p >= HEADER_BYTES
    ensures Fits(capacity, 0, 0, total) && RingFree(p, 0, capacity) < total && !Fits(capacity, p, 0, total)
  {
  }

  // The second half: the writer is at 0, and at most a wrap marker is unread.
  method LookTry(ring: MidiSharedRing, event: InnerEvent) returns (second: Status)
    requires ring.Valid() && ring.writePosition == 0 < ring.readPosition && ring.Queue() == []
    requires HEADER_BYTES < ring.capacity && Acceptable(event, ring.capacity)
    requires ring.Slots() == [] || (|ring.Slots()| == 1 && ring.Slots()[0].wrap)
    requires ring.readPosition <= RecordBytes(|event.data.value|)
    modifies ring.mem, ring`readPosition, ring`writePosition
    ensures ring.Valid() && second == if AtMarker(old(ring.Slots())) then OK else WOULD_BLOCK
    ensures second != OK ==> Stuck(ring, RecordBytes(|event.data.value|)) && ring.Slots() == old(ring.Slots())
    ensures ring.Queue() == if second == OK then [EventOf(event)] else []
  {
    var status, peeked := ring.PeekNext();
    ghost var slots := ring.Slots();
    ghost var added;
    second, added := ring.TryWriteEvent(event);
    assert slots + [] == slots;
  }

  lemma NothingUnread(ring: MidiSharedRing)
    requires ring.Valid() && ring.readPosition == ring.writePosition
    ensures ring.Slots() == [] && ring.Queue() == []
  {
  }

  // ---------- Stuck ----------

  // Too few free bytes for a record of that size, and nothing a reader could take or step over.
  ghost predicate Stuck(ring: MidiSharedRing, total: nat)
    reads ring, ring.mem
  {
    && ring.Valid() && HEADER_BYTES < ring.capacity
    && RingFree(ring.readPosition, ring.writePosition, ring.capacity) < total
    && (ring.Slots() == [] || ring.Slots()[0].seqno == 0)
  }

  // What either side may do: write a batch, take one event, or drain.
  datatype Poll = Write(events: seq<InnerEvent>) | Read | Drain(maxEvents: nat)

  // A batch that does not begin with a smaller valid event.
  predicate BeginsLarge(poll: Poll, capacity: nat, total: nat) {
    poll.Write? && poll.events != [] && poll.events[0].data.Some? ==>
      RecordBytes(|poll.events[0].data.value|) >= total
  }

  method DoPoll(ring: MidiSharedRing, poll: Poll) returns (accepted: nat, taken: seq<Event>)
    requires ring.Valid() && HEADER_BYTES < ring.capacity
    modifies ring.mem, ring`readPosition, ring`writePosition
    ensures ring.Valid() && old(ring.Queue()) <= taken + ring.Queue()
    ensures poll.Write? ==> taken == [] && ring.readPosition == old(ring.readPosition)
                            && old(ring.Slots()) <= ring.Slots()
    ensures !poll.Write? && Readables(old(ring.Slots())) == [] && !AtMarker(old(ring.Slots())) ==>
              accepted == 0 && taken == [] && ring.Slots() == old(ring.Slots())
              && ring.readPosition == old(ring.readPosition) && ring.writePosition == old(ring.writePosition)
    ensures forall total: nat ::
              BeginsLarge(poll, ring.capacity, total) && poll.Write?
              && RingFree(old(ring.readPosition), old(ring.writePosition), ring.capacity) < total ==>
                accepted == 0 && ring.Slots() == old(ring.Slots()) && ring.writePosition == old(ring.writePosition)
  {
    accepted, taken := 0, [];
    match poll {
      case Write(events) =>
        var status;
        ghost var added;
        status, accepted, added := ring.TryWriteEvents(Some(events), |events|);
        assert ring.Slots() == old(ring.Slots()) + added;
      case Read =>
        var status, peeked := ring.PeekNext();
        if status == OK {
          ring.HeadIsTaken(peeked);
          var event := ring.CopyOut(peeked);
          var ok := ring.CommitRead(peeked);
          taken := [event];
        }
      case Drain(maxEvents) =>
        taken := ring.DrainToBatch(maxEvents);
    }
  }

  // Once stuck, a ring stays stuck whatever its reader does, as long as the writer does not turn to
  // smaller events.
  method StaysStuck(ring: MidiSharedRing, total: nat, polls: seq<Poll>) returns (accepted: nat, taken: seq<Event>)
    requires Stuck(ring, total) && forall poll <- polls :: BeginsLarge(poll, ring.capacity, total)
    modifies ring.mem, ring`readPosition, ring`writePosition
    ensures Stuck(ring, total) && accepted == 0 && taken == []
    ensures ring.Slots() == old(ring.Slots())
    ensures ring.readPosition == old(ring.readPosition) && ring.writePosition == old(ring.writePosition)
  {
    accepted, taken := 0, [];
    for i := 0 to |polls|
      invariant Stuck(ring, total) && accepted == 0 && taken == [] && ring.Slots() == old(ring.Slots())
      invariant ring.readPosition == old(ring.readPosition) && ring.writePosition == old(ring.writePosition)
    {
      var poll := polls[i];
      assert poll in polls;
      var more, out := DoPoll(ring, poll);
      accepted, taken := accepted + more, taken + out;
    }
  }

  // Behind a header published with number 0 no reader sees anything any more, whatever either side
  // does; the writer may still be told that its events were accepted.
  method StaysDead(ring: MidiSharedRing, polls: seq<Poll>) returns (accepted: nat, taken: seq<Event>)
    requires ring.Valid() && HEADER_BYTES < ring.capacity
    requires ring.Slots() != [] && ring.Slots()[0].seqno == 0
    modifies ring.mem, ring`readPosition, ring`writePosition
    ensures ring.Valid() && taken == []
    ensures old(ring.Slots()) <= ring.Slots() && ring.readPosition == old(ring.readPosition)
  {
    accepted, taken := 0, [];
    for i := 0 to |polls|
      invariant ring.Valid() && taken == []
      invariant old(ring.Slots()) <= ring.Slots() && ring.readPosition == old(ring.readPosition)
    {
      var more, out := DoPoll(ring, polls[i]);
      accepted, taken := accepted + more, taken + out;
    }
  }

  // ---------- Runs ----------

  // One event through a ring that is empty: written where it fits without a marker, then taken.
  method PassOne(ring: MidiSharedRing, event: InnerEvent) returns (ghost k: nat)
    requires ring.Valid() && ring.readPosition == ring.writePosition
    requires HEADER_BYTES < ring.capacity && Acceptable(event, ring.capacity)
    requires var p, total := ring.readPosition, RecordBytes(|event.data.value|);
             && Fits(ring.capacity, p, p, total) && !LeavesMarker(ring.capacity, p, p, total)
             && Stale(ring.mem[..], Restarted(ring.capacity, p, p, total) / 8) !in {0xFFFF_FFFD, 0xFFFF_FFFE}
    modifies ring.mem, ring`readPosition, ring`writePosition
    ensures ring.Valid() && ring.readPosition == ring.writePosition
    ensures var p, total := old(ring.readPosition), RecordBytes(|event.data.value|);
            && ring.readPosition == NextWrite(ring.capacity, p, p, total)
            && k == Restarted(ring.capacity, p, p, total) / 8
            && WriterMoved(old(ring.mem[..]), ring.mem[..], ring.end, p / 8, p / 8, ring.readPosition / 8)
    ensures var m, data := ring.mem[..], event.data.value;
            && 2 * k + 6 + |data| <= |m| && m[2 * k + 6 .. 2 * k + 6 + |data|] == data
            && Stale(m, k) == PublishedSeq(Stale(old(ring.mem[..]), k))
  {
    ghost var p, total := ring.readPosition, RecordBytes(|event.data.value|);
    k := Restarted(ring.capacity, p, p, total) / 8;
    WriteFirst(ring, event, k);
    ghost var m := ring.mem[..];
    TakeHead(ring);
    assert ring.mem[..] == m;
  }

  // The write into the empty ring, and where its words are.
  method WriteFirst(ring: MidiSharedRing, event: InnerEvent, ghost k: nat)
    requires ring.Valid() && ring.readPosition == ring.writePosition
    requires HEADER_BYTES < ring.capacity && Acceptable(event, ring.capacity)
    requires var p, total := ring.readPosition, RecordBytes(|event.data.value|);
             && Fits(ring.capacity, p, p, total) && !LeavesMarker(ring.capacity, p, p, total)
             && k == Restarted(ring.capacity, p, p, total) / 8
             && Stale(ring.mem[..], k) !in {0xFFFF_FFFD, 0xFFFF_FFFE}
    modifies ring.mem, ring`writePosition
    ensures ring.Valid()
    ensures var p, m := ring.readPosition, old(ring.mem[..]);
            && ring.writePosition == NextWrite(ring.capacity, p, p, RecordBytes(|event.data.value|))
            && ring.Slots() == [Slot(k, false, PublishedSeq(Stale(m, k)), EventOf(event))]
            && PublishedSeq(Stale(m, k)) != 0
            && WriterMoved(m, ring.mem[..], ring.end, p / 8, p / 8, ring.writePosition / 8)
    ensures var m, data := ring.mem[..], event.data.value;
            && 2 * k + 6 + |data| <= |m| && m[2 * k + 6 .. 2 * k + 6 + |data|] == data
            && Stale(m, k) == PublishedSeq(Stale(old(ring.mem[..]), k))
  {
    WriteOnly(ring, event, k);
    HeadNumber(ring);
  }

  method WriteOnly(ring: MidiSharedRing, event: InnerEvent, ghost k: nat)
    requires ring.Valid() && ring.readPosition == ring.writePosition
    requires HEADER_BYTES < ring.capacity && Acceptable(event, ring.capacity)
    requires var p, total := ring.readPosition, RecordBytes(|event.data.value|);
             && Fits(ring.capacity, p, p, total) && !LeavesMarker(ring.capacity, p, p, total)
             && k == Restarted(ring.capacity, p, p, total) / 8
             && Stale(ring.mem[..], k) !in {0xFFFF_FFFD, 0xFFFF_FFFE}
    modifies ring.mem, ring`writePosition
    ensures ring.Valid()
    ensures var p, m := ring.readPosition, old(ring.mem[..]);
            && ring.writePosition == NextWrite(ring.capacity, p, p, RecordBytes(|event.data.value|))
            && ring.Slots() == [Slot(k, false, PublishedSeq(Stale(m, k)), EventOf(event))]
            && PublishedSeq(Stale(m, k)) != 0
            && WriterMoved(m, ring.mem[..], ring.end, p / 8, p / 8, ring.writePosition / 8)
  {
    NothingUnread(ring);
    PublishedSeqIsDeadExactly(Stale(ring.mem[..], k));
    var status, added := ring.TryWriteEvent(event);
    assert ring.Slots() == added;
  }

  // Where the words and the number of the first header are.
  lemma HeadNumber(ring: MidiSharedRing)
    requires ring.Valid() && ring.Slots() != [] && !ring.Slots()[0].wrap && ring.Slots()[0].seqno != 0
    ensures var m, k, data := ring.mem[..], ring.Slots()[0].cell, ring.Slots()[0].event.data;
            && Stale(m, k) == ring.Slots()[0].seqno
            && 2 * k + 6 + |data| <= |m| && m[2 * k + 6 .. 2 * k + 6 + |data|] == data
  {
    HeadWords(ring.mem[..], ring.end, ring.readPosition / 8, ring.writePosition / 8);
    ChainFirst(ring.mem[..], ring.end, ring.readPosition / 8, ring.writePosition / 8);
  }

  // A peek and its commit.
  method TakeHead(ring: MidiSharedRing)
    requires ring.Valid() && HEADER_BYTES < ring.capacity
    requires ring.Slots() != [] && !ring.Slots()[0].wrap && ring.Slots()[0].seqno != 0
    modifies ring`readPosition
    ensures ring.Valid() && ring.Slots() == old(ring.Slots())[1..]
    ensures var slot := old(ring.Slots())[0];
            var stop := 8 * slot.cell + RecordBytes(|slot.event.data|);
            ring.readPosition == if stop >= ring.capacity then 0 else stop
  {
    assert Readables(ring.Slots()) != [];
    var status, peeked := ring.PeekNext();
    ring.HeadIsTaken(peeked);
    var ok := ring.CommitRead(peeked);
  }

  // In a ring of 64 bytes an event of six words passes once. The same event is refused from then on,
  // though the ring is empty.
  method SameEventNeverAgain(polls: seq<Poll>) returns (ring: MidiSharedRing, again: Status, accepted: nat)
    requires forall poll <- polls :: BeginsLarge(poll, 64, 48)
    ensures again == WOULD_BLOCK && accepted == 0 && fresh(ring) && fresh(ring.mem)
    ensures ring.capacity == 64 && Stuck(ring, 48) && ring.Slots() == []
  {
    ring := new MidiSharedRing(64);
    var event := Inner(0, Some([0, 0, 0, 0, 0, 0]));
    ghost var k := PassOne(ring, event);
    assert ring.readPosition == 48;
    var first;
    first, again := TryLookTry(ring, event);
    var taken;
    accepted, taken := StaysStuck(ring, 48, polls);
  }

  // In a ring of 80 bytes the third event's header falls on payload of the first one. It is accepted,
  // and neither it nor anything behind it is ever seen.
  method ThirdEventUnseen(polls: seq<Poll>) returns (ring: MidiSharedRing, third: Status, taken: seq<Event>)
    ensures third == OK && taken == [] && fresh(ring) && fresh(ring.mem)
    ensures ring.capacity == 80 && ring.Valid() && [Event(0, [])] <= ring.Queue()
  {
    ring := new MidiSharedRing(80);
    var poison := [0xFFFF_FFFE, 0xFFFF_FFFE, 0xFFFF_FFFE, 0xFFFF_FFFE, 0xFFFF_FFFE,
                   0xFFFF_FFFE, 0xFFFF_FFFE, 0xFFFF_FFFE, 0xFFFF_FFFE, 0xFFFF_FFFE];
    ghost var k := PassOne(ring, Inner(0, Some(poison)));
    ghost var m := ring.mem[..];
    assert ring.readPosition == 64 && Stale(m, 0) == 2;
    assert m[6..16] == poison;
    assert m[10] == m[6..16][4] == poison[4];
    k := PassOne(ring, Inner(0, Some([])));
    assert ring.readPosition == 24 && ring.mem[10] == 0xFFFF_FFFE;
    assert Stale(ring.mem[..], 3) == 0xFFFF_FFFE;
    NothingUnread(ring);
    var accepted;
    ghost var added;
    third, added := ring.TryWriteEvent(Inner(0, Some([])));
    assert [] + added == added;
    assert ring.Slots() == [Slot(3, false, 0, Event(0, []))];
    ghost var slots := ring.Slots();
    accepted, taken := StaysDead(ring, polls);
    EventsPrefix(slots, ring.Slots());
  }

  lemma EventsPrefix(a: seq<Slot>, b: seq<Slot>)
    requires a <= b
    ensures Events(a) <= Events(b)
  {
    assert b == a + b[|a|..];
    EventsAppend(a, b[|a|..]);
  }
}
