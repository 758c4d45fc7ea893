/** A client's input port: what it takes from the ring, cuts into packets, converts to the protocol the
    client speaks, and hands to the client's callback. */
module InputPort {
  import opened Words
  import opened UmpWords
  import opened RingLayout
  import opened SharedRing
  import opened UmpConvert

  // None is a port that converts nothing. What cannot be converted is handed on as it is.
  function PacketFor(direction: Option<Direction>, p: Packet): Packet {
    if direction.None? || Converted(direction.value, p).None? then p else Converted(direction.value, p).value
  }

  function PacketsFor(direction: Option<Direction>, ps: seq<Packet>): seq<Packet> {
    seq(|ps|, i requires 0 <= i < |ps| => PacketFor(direction, ps[i]))
  }

  function Timed(timestamp: stamp, ps: seq<Packet>): seq<Event> {
    seq(|ps|, i requires 0 <= i < |ps| => Event(timestamp, ps[i]))
  }

  // One event of the ring: its complete packets, each an event of its own at the same time.
  ghost function HandedOn(direction: Option<Direction>, e: Event): seq<Event> {
    Timed(e.timestamp, PacketsFor(direction, Split(e.data)))
  }

  ghost function AllHandedOn(direction: Option<Direction>, es: seq<Event>): seq<Event> {
    if es == [] then []
    else AllHandedOn(direction, es[..|es| - 1]) + HandedOn(direction, es[|es| - 1])
  }

  method DrainRingAndDispatch(ring: MidiSharedRing, direction: Option<Direction>)
    returns (callbackEvents: seq<Event>, ghost taken: seq<Event>)
    requires ring.Valid()
    modifies ring`readPosition
    ensures ring.Valid() && Took(old(ring.Slots()), taken, ring.Slots())
    ensures taken == if ring.capacity > HEADER_BYTES then Readables(old(ring.Slots())) else []
    ensures callbackEvents == AllHandedOn(direction, taken)
  {
    var midiEvents := ring.DrainToBatch(0);
    taken := midiEvents;
    callbackEvents := DispatchAll(direction, midiEvents);
  }

  method DispatchAll(direction: Option<Direction>, midiEvents: seq<Event>) returns (callbackEvents: seq<Event>)
    ensures callbackEvents == AllHandedOn(direction, midiEvents)
  {
    callbackEvents := [];
    for i := 0 to |midiEvents|
      invariant callbackEvents == AllHandedOn(direction, midiEvents[..i])
    {
      var more := Dispatch(direction, midiEvents[i]);
      assert midiEvents[..i + 1][..i] == midiEvents[..i];
      callbackEvents := callbackEvents + more;
    }
    assert midiEvents[..|midiEvents|] == midiEvents;
  }

  method Dispatch(direction: Option<Direction>, event: Event) returns (callbackEvents: seq<Event>)
    ensures callbackEvents == HandedOn(direction, event)
  {
    var packets := SplitUmpPackets(event.data);
    callbackEvents := [];
    for i := 0 to |packets|
      invariant callbackEvents == Timed(event.timestamp, PacketsFor(direction, packets))[..i]
    {
      var data := Convert(direction, packets[i]);
      callbackEvents := callbackEvents + [Event(event.timestamp, data)];
    }
  }

  method Convert(direction: Option<Direction>, p: Packet) returns (data: Packet)
    ensures data == PacketFor(direction, p)
  {
    data := p;
    if direction.Some? {
      var ok, out := ConvertOne(direction.value, Some(p), []);
      if ok {
        data := out;
      }
    }
  }

  // ---------- What the client gets ----------

  lemma PacketForIsFramed(direction: Option<Direction>, p: Packet)
    requires Framed(p)
    ensures Framed(PacketFor(direction, p))
  {
    if direction.Some? && Converted(direction.value, p).Some? {
      ConvertedIsFramed(direction.value, p);
    }
  }

  // Every event the client gets holds exactly one packet; and those of one ring event, put together again,
  // fall into the same packets.
  lemma HandedOnIsFramed(direction: Option<Direction>, e: Event)
    ensures forall x <- HandedOn(direction, e) :: Framed(x.data) && x.timestamp == e.timestamp
    ensures var ps := PacketsFor(direction, Split(e.data));
            AllFramed(ps) && Split(Join(ps)) == ps && Rest(Join(ps)) == []
  {
    var ps := PacketsFor(direction, Split(e.data));
    SplitIsExact(e.data);
    forall i | 0 <= i < |ps|
      ensures Framed(ps[i])
    {
      PacketForIsFramed(direction, Split(e.data)[i]);
    }
    SplitInvertsJoin(ps);
  }

  // Without a conversion the client gets every word but those of an incomplete packet at the end.
  lemma NothingConverted(e: Event)
    ensures Join(PacketsFor(None, Split(e.data))) + Rest(e.data) == e.data
  {
    SplitIsExact(e.data);
    assert PacketsFor(None, Split(e.data)) == Split(e.data);
  }

  // Up and down again gives back a packet exactly unless it is a MIDI 1.0 channel voice message in another
  // form than the canonical one, or a MIDI 2.0 one, which goes up unchanged and comes down converted.
  lemma UpThenDown(p: Packet)
    requires Framed(p)
    ensures var up := PacketFor(Some(Midi1ToMidi2), p);
            PacketFor(Some(Midi2ToMidi1), up) == p <==>
            (IsChannelVoice(Byte2(p[0]) / 16) ==>
               MessageType(p[0]) != MT_MIDI2_CHANNEL && (MessageType(p[0]) == MT_CHANNEL ==> Canonical(p[0])))
  {
    var voice := IsChannelVoice(Byte2(p[0]) / 16);
    ConvertedExactly(Midi1ToMidi2, p);
    ConvertedExactly(Midi2ToMidi1, p);
    if voice && MessageType(p[0]) == MT_CHANNEL {
      assert p == [p[0]];
      UpAndDown(p[0]);
    } else if voice && MessageType(p[0]) == MT_MIDI2_CHANNEL {
      assert p == [p[0], p[1]];
      DownMeans(p[0], p[1]);
    } else if MessageType(p[0]) in {MT_SYSTEM, MT_DATA} {
      SystemAndDataPass(Midi1ToMidi2, p);
      SystemAndDataPass(Midi2ToMidi1, p);
    }
  }
}
