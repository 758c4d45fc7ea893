/** MIDI over the Bluetooth link: framing MIDI 1.0 bytes with timestamps, and the whole way from
    bytes through the frame, the parser and the packets back to bytes. */
module BleLink {
  import opened Words
  import opened UmpWords
  import opened UmpParser
  import opened UmpReverse

  const TIMESTAMP_MODULUS := 0x2000

  type millis = t: int | 0 <= t < 0x1_0000

  function HeaderByte(t: millis): byte {
    0x80 + t % TIMESTAMP_MODULUS / 0x80 % 0x40
  }

  function TimestampByte(t: millis): byte {
    0x80 + t % TIMESTAMP_MODULUS % 0x80
  }

  // Header and timestamp bytes carry the 13 low bits of the time and are never data bytes.
  lemma TimestampIsCarried(t: millis)
    ensures HeaderByte(t) / 0x40 == 2 && TimestampByte(t) >= STATUS_START
    ensures HeaderByte(t) % 0x40 * 0x80 + TimestampByte(t) % 0x80 == t % TIMESTAMP_MODULUS
  {
    var ts := t % TIMESTAMP_MODULUS;
    assert ts / 0x80 < 0x40 && ts == ts / 0x80 * 0x80 + ts % 0x80;
  }

  // A timestamp in front of every status byte.
  function Stamped(stamp: byte, data: seq<byte>): seq<byte> {
    if data == [] then []
    else (if data[0] >= STATUS_START then [stamp, data[0]] else [data[0]]) + Stamped(stamp, data[1..])
  }

  // An event's bytes: one timestamp in front of the first byte, whatever it is, and one in front of
  // every later status byte.
  function EventFrame(t: millis, data: seq<byte>): seq<byte>
    requires data != []
  {
    [TimestampByte(t), data[0]] + Stamped(TimestampByte(t), data[1..])
  }

  method AppendFrame(packet: seq<byte>, t: millis, data: seq<byte>) returns (result: seq<byte>)
    requires data != []
    ensures result == packet + EventFrame(t, data)
  {
    result := packet + [TimestampByte(t)];
    ghost var front := packet + [TimestampByte(t), data[0]];
    var i := 0;
    while i < |data|
      invariant 0 <= i <= |data|
      invariant i == 0 ==> result == packet + [TimestampByte(t)]
      invariant i > 0 ==> result + Stamped(TimestampByte(t), data[i..]) == packet + EventFrame(t, data)
    {
      var b := data[i];
      ghost var before := result;
      if i > 0 && b >= STATUS_START {
        result := result + [TimestampByte(t)];
      }
      result := result + [b];
      i := i + 1;
      StampedFrom(TimestampByte(t), data, i - 1);
      if i == 1 {
        assert result + Stamped(TimestampByte(t), data[1..]) == packet + EventFrame(t, data);
      } else {
        assert result + Stamped(TimestampByte(t), data[i..]) == before + Stamped(TimestampByte(t), data[i - 1..]);
      }
    }
    assert data[i..] == [] && result + [] == result;
  }

  lemma StampedFrom(stamp: byte, data: seq<byte>, i: nat)
    requires i < |data|
    ensures Stamped(stamp, data[i..]) ==
            (if data[i] >= STATUS_START then [stamp, data[i]] else [data[i]]) + Stamped(stamp, data[i + 1..])
  {
    assert data[i..][1..] == data[i + 1..];
  }

  // None stands for a null pointer.
  function Encoded(midiData: Option<seq<byte>>, t: millis): seq<byte> {
    if midiData.None? || midiData.value == [] then []
    else [HeaderByte(t)] + EventFrame(t, midiData.value)
  }

  // The header and the first timestamp of a packet give the 13 low bits of the event's time.
  lemma PacketCarriesTime(data: seq<byte>, t: millis)
    requires data != []
    ensures var packet := Encoded(Some(data), t);
            && |packet| >= 3 && packet[0] / 0x40 == 2 && packet[1] >= STATUS_START
            && var high: int, low: int := packet[0] % 0x40, packet[1] % 0x80;
               high * 0x80 + low == t % TIMESTAMP_MODULUS
  {
    TimestampIsCarried(t);
  }

  method EncodeEvent(midiData: Option<seq<byte>>, t: millis) returns (result: seq<byte>)
    ensures result == Encoded(midiData, t)
  {
    if midiData.None? || midiData.value == [] {
      return [];
    }
    result := AppendFrame([HeaderByte(t)], t, midiData.value);
  }

  datatype TimedData = TimedData(data: seq<byte>, t: millis)

  // The frames of the non-empty events, one after the other.
  function Frames(events: seq<TimedData>): seq<byte> {
    if events == [] then []
    else (if events[0].data == [] then [] else EventFrame(events[0].t, events[0].data)) + Frames(events[1..])
  }

  function AllData(events: seq<TimedData>): seq<byte> {
    if events == [] then [] else events[0].data + AllData(events[1..])
  }

  // The header byte of the packet, from the first event that is not empty.
  function Header(events: seq<TimedData>): seq<byte> {
    if events == [] then []
    else if events[0].data == [] then Header(events[1..])
    else [HeaderByte(events[0].t)]
  }

  // The header byte of a batch is that of its first event with data.
  lemma {:induction false} BatchHeader(events: seq<TimedData>, i: nat)
    requires i < |events| && events[i].data != [] && forall j :: 0 <= j < i ==> events[j].data == []
    ensures Header(events) == [HeaderByte(events[i].t)]
  {
    if i > 0 {
      BatchHeader(events[1..], i - 1);
    }
  }

  lemma {:induction false} FramesSnoc(events: seq<TimedData>, e: TimedData)
    ensures Frames(events + [e]) == Frames(events) + if e.data == [] then [] else EventFrame(e.t, e.data)
    ensures Header(events + [e]) ==
            if Header(events) != [] then Header(events) else if e.data == [] then [] else [HeaderByte(e.t)]
    ensures Header(events) == [] ==> Frames(events) == []
  {
    if events == [] {
      assert events + [e] == [e] && [e][1..] == [];
    } else {
      assert (events + [e])[1..] == events[1..] + [e];
      FramesSnoc(events[1..], e);
      var first := if events[0].data == [] then [] else EventFrame(events[0].t, events[0].data);
      AssociateBytes(first, Frames(events[1..]), if e.data == [] then [] else EventFrame(e.t, e.data));
    }
  }

  lemma FramesUpTo(events: seq<TimedData>, i: nat)
    requires i < |events|
    ensures var e, head := events[i], Header(events[..i]);
            && Frames(events[..i + 1]) == Frames(events[..i]) + (if e.data == [] then [] else EventFrame(e.t, e.data))
            && Header(events[..i + 1]) == (if head != [] then head else if e.data == [] then [] else [HeaderByte(e.t)])
            && (head == [] ==> Frames(events[..i]) == [])
  {
    assert events[..i + 1] == events[..i] + [events[i]];
    FramesSnoc(events[..i], events[i]);
  }

  method EncodeEvents(events: seq<TimedData>) returns (result: seq<byte>)
    ensures result == Header(events) + Frames(events)
  {
    result := [];
    var firstEvent := true;
    var i := 0;
    ghost var head: seq<byte>, frames: seq<byte> := [], [];
    while i < |events|
      invariant 0 <= i <= |events| && head == Header(events[..i]) && frames == Frames(events[..i])
      invariant firstEvent == (head == []) && result == head + frames
    {
      FramesUpTo(events, i);
      var e := events[i];
      if e.data != [] {
        if firstEvent {
          head := [HeaderByte(e.t)];
          result := result + [HeaderByte(e.t)];
          firstEvent := false;
        }
        AssociateBytes(head, frames, EventFrame(e.t, e.data));
        frames := frames + EventFrame(e.t, e.data);
        result := AppendFrame(result, e.t, e.data);
      } else {
        assert frames + [] == frames;
      }
      i := i + 1;
    }
    assert events[..i] == events;
  }

  // ---------- What a receiver makes of a frame ----------

  lemma TokensPair(stamp: byte, b: byte, rest: seq<byte>)
    requires stamp >= STATUS_START
    ensures Tokens([stamp, b] + rest) ==
            if b >= STATUS_START then [b] + Tokens(rest) else [stamp] + Tokens([b] + rest)
  {
    assert ([stamp, b] + rest)[2..] == rest && ([stamp, b] + rest)[1..] == [b] + rest;
  }

  lemma TokensData(b: byte, rest: seq<byte>)
    requires b < STATUS_START
    ensures Tokens([b] + rest) == [b] + Tokens(rest)
  {
    assert ([b] + rest)[1..] == rest;
  }

  lemma {:induction false} StampedTokens(stamp: byte, data: seq<byte>, rest: seq<byte>)
    requires stamp >= STATUS_START
    ensures Tokens(Stamped(stamp, data) + rest) == data + Tokens(rest)
  {
    if data == [] {
      assert [] + rest == rest;
    } else {
      var b, tail := data[0], Stamped(stamp, data[1..]);
      StampedTokens(stamp, data[1..], rest);
      AssociateBytes(if b >= STATUS_START then [stamp, b] else [b], tail, rest);
      if b >= STATUS_START {
        TokensPair(stamp, b, tail + rest);
      } else {
        TokensData(b, tail + rest);
      }
      AssociateBytes([b], data[1..], Tokens(rest));
      assert [b] + data[1..] == data;
    }
  }

  // What a packet holds behind its header: data bytes, and status bytes each with a timestamp of its
  // own in front.
  datatype Item = Plain(b: byte) | Timed(stamp: byte, status: byte)

  predicate WellStamped(items: seq<Item>) {
    forall i :: 0 <= i < |items| ==>
      match items[i]
      case Plain(b) => b < STATUS_START
      case Timed(stamp, status) => stamp >= STATUS_START && status >= STATUS_START
  }

  function Wire(items: seq<Item>): seq<byte> {
    if items == [] then []
    else (if items[0].Plain? then [items[0].b] else [items[0].stamp, items[0].status]) + Wire(items[1..])
  }

  function Content(items: seq<Item>): seq<byte> {
    if items == [] then [] else [if items[0].Plain? then items[0].b else items[0].status] + Content(items[1..])
  }

  // Real-time bytes left out, together with their timestamps.
  function WithoutRealTime(items: seq<Item>): seq<Item> {
    if items == [] then []
    else (if items[0].Timed? && IsRealTime(items[0].status) then [] else [items[0]]) + WithoutRealTime(items[1..])
  }

  lemma {:induction false} WireTokens(items: seq<Item>, rest: seq<byte>)
    requires WellStamped(items)
    ensures Tokens(Wire(items) + rest) == Content(items) + Tokens(rest)
  {
    if items == [] {
      assert [] + rest == rest;
    } else {
      var item, tail := items[0], Wire(items[1..]);
      assert items == [item] + items[1..];
      WireTokens(items[1..], rest);
      if item.Plain? {
        AssociateBytes([item.b], tail, rest);
        TokensData(item.b, tail + rest);
        AssociateBytes([item.b], Content(items[1..]), Tokens(rest));
      } else {
        AssociateBytes([item.stamp, item.status], tail, rest);
        TokensPair(item.stamp, item.status, tail + rest);
        AssociateBytes([item.status], Content(items[1..]), Tokens(rest));
      }
    }
  }

  lemma WireIsContent(items: seq<Item>)
    requires WellStamped(items)
    ensures Tokens(Wire(items)) == Content(items)
  {
    WireTokens(items, []);
    assert Wire(items) + [] == Wire(items) && Content(items) + [] == Content(items);
  }

  lemma {:induction false} WithoutRealTimeContent(items: seq<Item>)
    requires WellStamped(items)
    ensures WellStamped(WithoutRealTime(items)) && Content(WithoutRealTime(items)) == OtherBytes(Content(items))
  {
    if items != [] {
      var item, rest := items[0], items[1..];
      assert items == [item] + rest;
      WithoutRealTimeContent(rest);
      assert Content(items)[1..] == Content(rest);
      if !(item.Timed? && IsRealTime(item.status)) {
        assert ([item] + WithoutRealTime(rest))[1..] == WithoutRealTime(rest);
      } else {
        assert [] + WithoutRealTime(rest) == WithoutRealTime(rest);
        assert [] + OtherBytes(Content(rest)) == OtherBytes(Content(rest));
      }
    }
  }

  // Whatever the timestamps are: leaving out the real-time bytes with theirs changes nothing else that
  // the parser emits, and the real-time packets are exactly those bytes.
  lemma RealTimeIsTransparentInFrames(g: group, mode: Mode, items: seq<Item>)
    requires ModeOk(mode) && WellStamped(items)
    ensures var all := Run(g, mode, Tokens(Wire(items)));
            var without := Run(g, mode, Tokens(Wire(WithoutRealTime(items))));
            && all.mode == without.mode && OtherPackets(all.packets) == without.packets
            && RealTimePackets(all.packets) == PacketsOf(g, RealTimeBytes(Content(items)))
  {
    WithoutRealTimeContent(items);
    WireIsContent(items);
    WireIsContent(WithoutRealTime(items));
    RealTimeIsTransparent(g, mode, Content(items));
  }

  function ItemsOf(stamp: byte, data: seq<byte>): seq<Item> {
    seq(|data|, i requires 0 <= i < |data| => if data[i] >= STATUS_START then Timed(stamp, data[i]) else Plain(data[i]))
  }

  function BatchItems(events: seq<TimedData>): seq<Item> {
    if events == [] then [] else ItemsOf(TimestampByte(events[0].t), events[0].data) + BatchItems(events[1..])
  }

  lemma {:induction false} WireAppend(a: seq<Item>, b: seq<Item>)
    ensures Wire(a + b) == Wire(a) + Wire(b)
  {
    if a == [] {
      assert a + b == b;
    } else {
      var first := if a[0].Plain? then [a[0].b] else [a[0].stamp, a[0].status];
      assert (a + b)[1..] == a[1..] + b;
      WireAppend(a[1..], b);
      AssociateBytes(first, Wire(a[1..]), Wire(b));
    }
  }

  lemma {:induction false} StampedIsWire(stamp: byte, data: seq<byte>)
    ensures Wire(ItemsOf(stamp, data)) == Stamped(stamp, data)
  {
    if data != [] {
      StampedIsWire(stamp, data[1..]);
      assert ItemsOf(stamp, data)[1..] == ItemsOf(stamp, data[1..]);
    }
  }

  // A packet of several events, each with its own time and beginning with a status byte, is of this
  // kind.
  lemma {:induction false} BatchIsWire(events: seq<TimedData>)
    requires forall e <- events :: e.data == [] || e.data[0] >= STATUS_START
    ensures Wire(BatchItems(events)) == Frames(events) && WellStamped(BatchItems(events))
  {
    if events != [] {
      var e, rest := events[0], events[1..];
      assert events == [e] + rest;
      BatchIsWire(rest);
      TimestampIsCarried(e.t);
      StampedIsWire(TimestampByte(e.t), e.data);
      WireAppend(ItemsOf(TimestampByte(e.t), e.data), BatchItems(rest));
    }
  }

  // A frame gives back its bytes; only when the first of them is a data byte is the timestamp in
  // front of it taken for a status byte as well.
  function Misread(t: millis, data: seq<byte>): seq<byte>
    requires data != []
  {
    if data[0] >= STATUS_START then data else [TimestampByte(t)] + data
  }

  lemma FrameTokens(t: millis, data: seq<byte>, rest: seq<byte>)
    requires data != []
    ensures Tokens(EventFrame(t, data) + rest) == Misread(t, data) + Tokens(rest)
  {
    TimestampIsCarried(t);
    var stamp, b, tail := TimestampByte(t), data[0], Stamped(TimestampByte(t), data[1..]);
    StampedTokens(stamp, data[1..], rest);
    AssociateBytes([stamp, b], tail, rest);
    TokensPair(stamp, b, tail + rest);
    AssociateBytes([b], data[1..], Tokens(rest));
    assert [b] + data[1..] == data;
    if b < STATUS_START {
      TokensData(b, tail + rest);
      AssociateBytes([stamp], data, Tokens(rest));
    }
  }

  // Framing is undone by the receiver exactly for data that starts with a status byte.
  lemma FramingIsExact(data: seq<byte>, t: millis)
    requires data != []
    ensures Tokens(Encoded(Some(data), t)[1..]) == data <==> data[0] >= STATUS_START
  {
    FrameTokens(t, data, []);
    assert EventFrame(t, data) + [] == EventFrame(t, data) == Encoded(Some(data), t)[1..];
    assert data + [] == data;
  }

  // The same for several events in one packet.
  lemma {:induction false} BatchFramingIsExact(events: seq<TimedData>)
    ensures |Tokens(Frames(events))| >= |AllData(events)|
    ensures Tokens(Frames(events)) == AllData(events) <==>
            forall e <- events :: e.data == [] || e.data[0] >= STATUS_START
  {
    if events != [] {
      var e, rest := events[0], events[1..];
      BatchFramingIsExact(rest);
      assert events == [e] + rest;
      if e.data == [] {
        assert Frames(events) == Frames(rest) && AllData(events) == AllData(rest);
      } else {
        FrameTokens(e.t, e.data, Frames(rest));
        SameBehind(Misread(e.t, e.data), e.data, Tokens(Frames(rest)), AllData(rest));
      }
    }
  }

  lemma SameBehind(m: seq<byte>, d: seq<byte>, x: seq<byte>, y: seq<byte>)
    requires |m| >= |d| && |x| >= |y|
    ensures m + x == d + y <==> m == d && x == y
  {
    if m + x == d + y {
      assert |m| == |d|;
      assert m == (m + x)[..|m|] && d == (d + y)[..|d|];
      assert x == (m + x)[|m|..] && y == (d + y)[|d|..];
    }
  }
}
