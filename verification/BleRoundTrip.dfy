/** From MIDI 1.0 bytes through a Bluetooth frame, the parser and the packets back to bytes. */
module BleRoundTrip {
  import opened Words
  import opened UmpWords
  import opened UmpParser
  import opened UmpReverse
  import opened BleLink
  import opened UmpProcessorModel

  const MAX_BLE_MIDI_DATA_SIZE := 512

  datatype Message = Short(bytes: seq<byte>) | Exclusive(data: seq<byte>)

  // A status byte that announces its data bytes, followed by exactly those.
  ghost predicate IsShort(bytes: seq<byte>) {
    && bytes != [] && bytes[0] >= STATUS_START && bytes[0] !in {SYSEX_START, SYSEX_END}
    && |bytes| == 1 + ExpectedLen(bytes[0])
    && forall i :: 1 <= i < |bytes| ==> bytes[i] < STATUS_START
  }

  // The two undefined system common status bytes.
  predicate IsUndefined(status: byte) {
    status == 0xF4 || status == 0xF5
  }

  ghost predicate Complete(m: Message) {
    match m
    case Short(bytes) => IsShort(bytes) && !IsUndefined(bytes[0])
    case Exclusive(data) => forall b <- data :: b < STATUS_START
  }

  function Bytes(m: Message): seq<byte> {
    match m
    case Short(bytes) => bytes
    case Exclusive(data) => [SYSEX_START] + (data + [SYSEX_END])
  }

  function Stream(ms: seq<Message>): seq<byte> {
    if ms == [] then [] else Bytes(ms[0]) + Stream(ms[1..])
  }

  // ---------- One message ----------

  // A short message becomes one packet of its own, whatever status was running before.
  lemma ShortMessage(g: group, running: byte, bytes: seq<byte>)
    requires IsShort(bytes) && ModeOk(Voice([], running))
    ensures var o := Run(g, Voice([], running), bytes);
            && o.packets == [MessagePacket(g, bytes)]
            && o.mode.Voice? && o.mode.pending == []
  {
    var first := Step(g, Voice([], running), bytes[0]);
    RunOfTail(g, Voice([], running), bytes);
    if |bytes| > 1 {
      RunOfTail(g, first.mode, bytes[1..]);
      assert [bytes[0]] + [bytes[1]] == bytes[..2];
      if |bytes| > 2 {
        RunOfTail(g, Voice(bytes[..2], first.mode.running), bytes[1..][1..]);
        assert bytes[..2] + [bytes[2]] == bytes;
      } else {
        assert bytes[..2] == bytes;
      }
    } else {
      assert bytes == [bytes[0]];
    }
  }

  lemma RunOfTail(g: group, mode: Mode, bytes: seq<byte>)
    requires ModeOk(mode)
    ensures Run(g, mode, []) == Out(mode, [])
    ensures bytes != [] ==>
              var first := Step(g, mode, bytes[0]);
              var rest := Run(g, first.mode, bytes[1..]);
              Run(g, mode, bytes) == Out(rest.mode, first.packets + rest.packets)
  {
  }

  // The packet of a short message gives back the message, unless its status byte is undefined: then
  // it gives nothing.
  lemma ShortMessageBytes(g: group, bytes: seq<byte>, active: bool)
    requires IsShort(bytes)
    ensures FromUmp(MessagePacket(g, bytes), active) == Rev(active, if IsUndefined(bytes[0]) then [] else bytes)
  {
    var p := MessagePacket(g, bytes);
    MessageFields(g, bytes);
    FromUmpOne(p, active);
    assert bytes == if |bytes| == 1 then [bytes[0]] else if |bytes| == 2 then [bytes[0], bytes[1]]
                    else [bytes[0], bytes[1], bytes[2]];
  }

  lemma ExclusivePacket(g: group, status: int, data: seq<byte>, active: bool)
    requires COMPLETE <= status <= END && |data| <= SYSEX_BUFFER_SIZE
    requires status == CONTINUE ==> active
    ensures FromUmp(SysExPacket(g, status, data), active) ==
            Rev(status in {START, CONTINUE},
                (if status <= START then [SYSEX_START] else []) + data +
                (if status in {COMPLETE, END} then [SYSEX_END] else []))
  {
    SysExFields(g, status, data);
    SysExRoundTrip(g, status, data);
    var p := SysExPacket(g, status, data);
    FromUmpOne(p, active);
    assert DataBytes(p[0], p[1]) == data;
    assert data + [] == data && [] + data == data;
    assert [SYSEX_START] + data + [] == [SYSEX_START] + data;
  }

  // What is still to come out of a system exclusive message that has reached `mode`.
  function StillToCome(mode: Mode, data: seq<byte>): seq<byte>
    requires mode.SysEx?
  {
    (if mode.started then [] else [SYSEX_START]) + mode.buffer + (data + [SYSEX_END])
  }

  lemma ExclusiveEnd(g: group, mode: Mode, active: bool)
    requires ModeOk(mode) && mode.SysEx? && (mode.started ==> active)
    ensures var o := Run(g, mode, [SYSEX_END]);
            o.mode == IDLE && FromPackets(o.packets, active) == Rev(false, StillToCome(mode, []))
  {
    var status := if mode.started then END else COMPLETE;
    var p := SysExPacket(g, status, mode.buffer);
    RunOfTail(g, mode, [SYSEX_END]);
    RunOfTail(g, IDLE, []);
    assert [SYSEX_END][1..] == [] && [p] + [] == [p] && [] + [SYSEX_END] == [SYSEX_END];
    ExclusivePacket(g, status, mode.buffer, active);
    FromPacketsOne(p, active);
  }

  // One data byte: whatever comes out now, with what is still to come afterwards, is what was still
  // to come before.
  lemma ExclusiveByte(g: group, mode: Mode, b: byte, data: seq<byte>, active: bool)
    requires ModeOk(mode) && mode.SysEx? && (mode.started ==> active) && b < STATUS_START
    ensures var o := Step(g, mode, b);
            var first := FromPackets(o.packets, active);
            && o.mode.SysEx? && (o.mode.started ==> first.active)
            && first.bytes + StillToCome(o.mode, data) == StillToCome(mode, [b] + data)
  {
    var o, open := Step(g, mode, b), if mode.started then [] else [SYSEX_START];
    AssociateBytes([b], data, [SYSEX_END]);
    if |mode.buffer| == 5 {
      var status := if mode.started then CONTINUE else START;
      var p := SysExPacket(g, status, mode.buffer + [b]);
      ExclusivePacket(g, status, mode.buffer + [b], active);
      FromPacketsOne(p, active);
      ShiftByte(open, mode.buffer, b, data + [SYSEX_END]);
      assert [] + [] + (data + [SYSEX_END]) == data + [SYSEX_END];
      assert open + (mode.buffer + [b]) + [] == open + (mode.buffer + [b]);
    } else {
      ShiftByte(open, mode.buffer, b, data + [SYSEX_END]);
      assert FromPackets([], active).bytes == [];
      assert [] + StillToCome(o.mode, data) == StillToCome(o.mode, data);
    }
  }

  lemma {:induction false} ExclusiveTail(g: group, mode: Mode, data: seq<byte>, active: bool)
    requires ModeOk(mode) && mode.SysEx? && (mode.started ==> active) && forall b <- data :: b < STATUS_START
    ensures var o := Run(g, mode, data + [SYSEX_END]);
            o.mode == IDLE && FromPackets(o.packets, active) == Rev(false, StillToCome(mode, data))
    decreases |data|
  {
    if data == [] {
      ExclusiveEnd(g, mode, active);
      assert [] + [SYSEX_END] == [SYSEX_END];
    } else {
      var b, tail := data[0], data[1..];
      var o := Step(g, mode, b);
      assert data == [b] + tail && (data + [SYSEX_END])[1..] == tail + [SYSEX_END];
      RunOfTail(g, mode, data + [SYSEX_END]);
      assert b in data && forall x <- tail :: x in data;
      ExclusiveByte(g, mode, b, tail, active);
      ExclusiveTail(g, o.mode, tail, FromPackets(o.packets, active).active);
      FromPacketsAppend(o.packets, Run(g, o.mode, tail + [SYSEX_END]).packets, active);
    }
  }

  lemma ShiftByte(open: seq<byte>, buffer: seq<byte>, b: byte, rest: seq<byte>)
    ensures open + (buffer + [b]) + rest == open + buffer + ([b] + rest)
  {
  }

  lemma OneMessageOver(g: group, running: byte, m: Message)
    requires Complete(m) && ModeOk(Voice([], running))
    ensures var o := Run(g, Voice([], running), Bytes(m));
            o.mode.Voice? && o.mode.pending == [] && FromPackets(o.packets, false) == Rev(false, Bytes(m))
  {
    match m
    case Short(bytes) =>
      ShortMessage(g, running, bytes);
      ShortMessageBytes(g, bytes, false);
      FromPacketsOne(MessagePacket(g, bytes), false);
    case Exclusive(data) =>
      var o := Run(g, SysEx([], false), data + [SYSEX_END]);
      RunOfTail(g, Voice([], running), Bytes(m));
      assert Bytes(m)[1..] == data + [SYSEX_END] && [] + o.packets == o.packets;
      ExclusiveTail(g, SysEx([], false), data, false);
      assert [SYSEX_START] + [] + (data + [SYSEX_END]) == Bytes(m);
  }

  lemma {:induction false} WholeStream(g: group, running: byte, ms: seq<Message>)
    requires (forall m <- ms :: Complete(m)) && ModeOk(Voice([], running))
    ensures var o := Run(g, Voice([], running), Stream(ms));
            o.mode.Voice? && o.mode.pending == [] && FromPackets(o.packets, false) == Rev(false, Stream(ms))
    decreases |ms|
  {
    if ms != [] {
      var o := Run(g, Voice([], running), Bytes(ms[0]));
      OneMessageOver(g, running, ms[0]);
      WholeStream(g, o.mode.running, ms[1..]);
      RunAppend(g, Voice([], running), Bytes(ms[0]), Stream(ms[1..]));
      FromPacketsAppend(o.packets, Run(g, o.mode, Stream(ms[1..])).packets, false);
    }
  }

  // ---------- The whole way ----------

  // What the receiver makes of a packet: the header byte is dropped, the rest is parsed, and the
  // words of all packets are read back as bytes.
  function Received(g: group, packet: seq<byte>): seq<byte>
    requires packet != []
  {
    FromUmp(Join(Run(g, IDLE, Tokens(packet[1..])).packets), false).bytes
  }

  // A notification from the device: the words of all packets that its bytes complete. Packets that
  // hold no more than a header, or too much, are ignored.
  method OnNotification(processor: UmpProcessor, src: seq<byte>) returns (words: seq<word>)
    requires processor.Valid()
    modifies processor`cvPos, processor`runningStatus, processor`expectedLen, processor`inSysEx,
             processor`sysexPos, processor`sysexHasStarted, processor.cvBuffer, processor.sysexBuffer
    ensures processor.Valid()
    ensures if 1 < |src| <= MAX_BLE_MIDI_DATA_SIZE
            then var o := Run(processor.group_, old(processor.Mode()), Tokens(src[1..]));
                 processor.Mode() == o.mode && words == Join(o.packets)
            else processor.Mode() == old(processor.Mode()) && words == []
  {
    words := [];
    if |src| <= 1 || |src| > MAX_BLE_MIDI_DATA_SIZE {
      return;
    }
    var packets := processor.ProcessBytes(src[1..]);
    words := WordsOf(packets);
  }

  method WordsOf(packets: seq<Packet>) returns (words: seq<word>)
    ensures words == Join(packets)
  {
    words := [];
    for i := 0 to |packets|
      invariant words == Join(packets[..i])
    {
      assert packets[..i + 1] == packets[..i] + [packets[i]];
      JoinAppend(packets[..i], [packets[i]]);
      assert Join([packets[i]]) == packets[i] + [];
      words := words + packets[i];
    }
    assert packets[..|packets|] == packets;
  }

  // Words on their way to the device: read back as MIDI 1.0 bytes and framed. Nothing to send gives
  // an empty packet.
  method SendUmp(processor: UmpProcessor, umpData: seq<word>, t: millis) returns (packet: seq<byte>)
    modifies processor`reverseSysexActive
    ensures var back := FromUmp(umpData, old(processor.reverseSysexActive));
            processor.reverseSysexActive == back.active && packet == Encoded(Some(back.bytes), t)
  {
    var midi1Buffer := processor.ProcessUmp(umpData);
    packet := EncodeEvent(Some(midi1Buffer), t);
  }

  // Complete messages that one object sent arrive unchanged at the other end.
  method AcrossTheLink(sender: UmpProcessor, receiver: UmpProcessor, reader: UmpProcessor,
                       umpData: seq<word>, ms: seq<Message>, t: millis)
    returns (bytes: seq<byte>)
    requires receiver.Valid() && receiver.Mode() == IDLE && !reader.reverseSysexActive
    requires ms != [] && forall m <- ms :: Complete(m)
    requires FromUmp(umpData, sender.reverseSysexActive).bytes == Stream(ms)
    requires |Encoded(Some(Stream(ms)), t)| <= MAX_BLE_MIDI_DATA_SIZE
    requires sender != receiver && reader != sender && reader != receiver
    modifies sender`reverseSysexActive, reader`reverseSysexActive
    modifies receiver`cvPos, receiver`runningStatus, receiver`expectedLen, receiver`inSysEx,
             receiver`sysexPos, receiver`sysexHasStarted, receiver.cvBuffer, receiver.sysexBuffer
    ensures bytes == Stream(ms)
  {
    LinkIsLossless(receiver.group_, ms, t);
    var packet := SendUmp(sender, umpData, t);
    var words := OnNotification(receiver, packet);
    bytes := reader.ProcessUmp(words);
  }

  lemma ReceivedIsReverse(g: group, data: seq<byte>, t: millis)
    requires data != [] && data[0] >= STATUS_START
    ensures Received(g, Encoded(Some(data), t)) == FromPackets(Run(g, IDLE, data).packets, false).bytes
  {
    FramingIsExact(data, t);
    EmittedPacketsAreFramed(g, IDLE, data);
    JoinedPackets(Run(g, IDLE, data).packets, false);
  }

  lemma StreamStartsWithStatus(ms: seq<Message>)
    requires ms != [] && forall m <- ms :: Complete(m)
    ensures Stream(ms) != [] && Stream(ms)[0] >= STATUS_START
  {
    assert Complete(ms[0]);
  }

  // Complete messages survive the link byte for byte, at any time stamp and in any group.
  lemma LinkIsLossless(g: group, ms: seq<Message>, t: millis)
    requires ms != [] && forall m <- ms :: Complete(m)
    ensures Stream(ms) != [] && Received(g, Encoded(Some(Stream(ms)), t)) == Stream(ms)
  {
    StreamStartsWithStatus(ms);
    ReceivedIsReverse(g, Stream(ms), t);
    WholeStream(g, 0, ms);
  }

  // ---------- With real-time bytes anywhere ----------

  // Only real-time packets give real-time bytes back.
  ghost predicate Tame(p: Packet) {
    Framed(p) && forall active :: NoRealTime(FromUmp(p, active).bytes)
  }

  ghost predicate NoRealTime(bytes: seq<byte>) {
    forall b <- bytes :: !IsRealTime(b)
  }

  // Every packet is one real-time byte or gives none back.
  ghost predicate Sorted(g: group, ps: seq<Packet>) {
    forall p <- ps :: if IsRealTimePacket(p) then p == RealTimePacket(g, Byte2(p[0])) else Tame(p)
  }

  // Only 7-bit data is waiting in the parser.
  ghost predicate SevenBit(mode: Mode) {
    match mode
    case Voice(pending, running) =>
      (forall i :: 1 <= i < |pending| ==> pending[i] < STATUS_START) && (pending != [] ==> !IsRealTime(pending[0]))
    case SysEx(buffer, _) => forall b <- buffer :: b < STATUS_START
  }

  lemma TameMessage(g: group, msg: seq<byte>)
    requires 1 <= |msg| <= 3 && !IsRealTime(msg[0]) && forall i :: 1 <= i < |msg| ==> msg[i] < STATUS_START
    ensures Tame(MessagePacket(g, msg))
  {
    var p := MessagePacket(g, msg);
    MessageFields(g, msg);
    forall active ensures NoRealTime(FromUmp(p, active).bytes) {
      FromUmpOne(p, active);
    }
  }

  lemma TameExclusive(g: group, status: int, data: seq<byte>)
    requires COMPLETE <= status <= END && |data| <= SYSEX_BUFFER_SIZE && forall b <- data :: b < STATUS_START
    ensures Tame(SysExPacket(g, status, data))
  {
    var p := SysExPacket(g, status, data);
    SysExFields(g, status, data);
    forall active ensures NoRealTime(FromUmp(p, active).bytes) {
      SysExRoundTrip(g, status, data);
      FromUmpOne(p, active);
      assert DataBytes(p[0], p[1]) == data;
    }
  }

  lemma StepSorts(g: group, mode: Mode, b: byte)
    requires ModeOk(mode) && SevenBit(mode)
    ensures SevenBit(Step(g, mode, b).mode) && Sorted(g, Step(g, mode, b).packets)
  {
    if b >= REALTIME_START {
      StepPacket(g, mode, b);
      Word0Fields(MT_SYSTEM, g, b, 0, 0);
    } else if b >= STATUS_START {
      StatusSorts(g, mode, b);
    } else if mode.SysEx? {
      ExclusiveSorts(g, mode, b);
    } else {
      DataSorts(g, mode, b);
    }
  }

  lemma StatusSorts(g: group, mode: Mode, b: byte)
    requires ModeOk(mode) && SevenBit(mode) && STATUS_START <= b < REALTIME_START
    ensures SevenBit(Step(g, mode, b).mode) && Sorted(g, Step(g, mode, b).packets)
  {
    StepPacket(g, mode, b);
    if b == SYSEX_END && mode.SysEx? {
      TameExclusive(g, if mode.started then END else COMPLETE, mode.buffer);
    } else {
      TameMessage(g, [b]);
    }
  }

  lemma ExclusiveSorts(g: group, mode: Mode, b: byte)
    requires ModeOk(mode) && SevenBit(mode) && mode.SysEx? && b < STATUS_START
    ensures SevenBit(Step(g, mode, b).mode) && Sorted(g, Step(g, mode, b).packets)
  {
    StepPacket(g, mode, b);
    if |mode.buffer| == 5 {
      TameExclusive(g, if mode.started then CONTINUE else START, mode.buffer + [b]);
    }
  }

  lemma DataSorts(g: group, mode: Mode, b: byte)
    requires ModeOk(mode) && SevenBit(mode) && mode.Voice? && b < STATUS_START
    ensures SevenBit(Step(g, mode, b).mode) && Sorted(g, Step(g, mode, b).packets)
  {
    StepPacket(g, mode, b);
    if mode.pending != [] || mode.running != 0 {
      TameMessage(g, (if mode.pending == [] then [mode.running] else mode.pending) + [b]);
    }
  }

  lemma {:induction false} RunSorts(g: group, mode: Mode, bytes: seq<byte>)
    requires ModeOk(mode) && SevenBit(mode)
    ensures Sorted(g, Run(g, mode, bytes).packets)
    decreases |bytes|
  {
    if bytes != [] {
      StepSorts(g, mode, bytes[0]);
      RunSorts(g, Step(g, mode, bytes[0]).mode, bytes[1..]);
    }
  }

  lemma {:induction false} FilterAppend(a: seq<byte>, b: seq<byte>)
    ensures OtherBytes(a + b) == OtherBytes(a) + OtherBytes(b)
    ensures RealTimeBytes(a + b) == RealTimeBytes(a) + RealTimeBytes(b)
  {
    if a == [] {
      assert a + b == b;
      assert [] + OtherBytes(b) == OtherBytes(b) && [] + RealTimeBytes(b) == RealTimeBytes(b);
    } else {
      var one := [a[0]];
      assert (a + b)[1..] == a[1..] + b;
      FilterAppend(a[1..], b);
      AssociateBytes(if IsRealTime(a[0]) then [] else one, OtherBytes(a[1..]), OtherBytes(b));
      AssociateBytes(if IsRealTime(a[0]) then one else [], RealTimeBytes(a[1..]), RealTimeBytes(b));
    }
  }

  lemma {:induction false} FilterNone(bytes: seq<byte>)
    requires NoRealTime(bytes)
    ensures OtherBytes(bytes) == bytes && RealTimeBytes(bytes) == []
  {
    if bytes != [] {
      FilterNone(bytes[1..]);
    }
  }

  // Read back, the real-time packets give the real-time bytes and the others give the rest.
  lemma {:induction false} SortedBytes(g: group, ps: seq<Packet>, active: bool)
    requires Sorted(g, ps)
    ensures var all, others := FromPackets(ps, active), FromPackets(OtherPackets(ps), active);
            && all.active == others.active && OtherBytes(all.bytes) == others.bytes
            && PacketsOf(g, RealTimeBytes(all.bytes)) == RealTimePackets(ps)
    decreases |ps|
  {
    if ps != [] {
      var p, rest := ps[0], ps[1..];
      var one := FromUmp(p, active);
      SortedOne(g, p, active);
      SortedBytes(g, rest, one.active);
      FilterAppend(one.bytes, FromPackets(rest, one.active).bytes);
      PacketsOfAppend(g, RealTimeBytes(one.bytes), RealTimeBytes(FromPackets(rest, one.active).bytes));
      if IsRealTimePacket(p) {
        assert OtherPackets(ps) == OtherPackets(rest);
        assert [] + OtherBytes(FromPackets(rest, one.active).bytes) == OtherBytes(FromPackets(rest, one.active).bytes);
      } else {
        FromPacketsAppend([p], OtherPackets(rest), active);
        FromPacketsOne(p, active);
        assert OtherPackets(ps) == [p] + OtherPackets(rest);
      }
    }
  }

  lemma SortedOne(g: group, p: Packet, active: bool)
    requires Sorted(g, [p])
    ensures var one := FromUmp(p, active);
            if IsRealTimePacket(p)
            then one.active == active && OtherBytes(one.bytes) == [] && PacketsOf(g, RealTimeBytes(one.bytes)) == [p]
            else OtherBytes(one.bytes) == one.bytes && RealTimeBytes(one.bytes) == []
  {
    assert p in [p];
    if IsRealTimePacket(p) {
      var b := Byte2(p[0]);
      Word0Fields(MT_SYSTEM, g, b, 0, 0);
      FromUmpOne(p, active);
      assert [b][1..] == [] && OtherBytes([]) == [] && RealTimeBytes([]) == [];
      assert RealTimeBytes([b]) == [b];
    } else {
      FilterNone(FromUmp(p, active).bytes);
    }
  }

  lemma {:induction false} PacketsOfAppend(g: group, a: seq<byte>, b: seq<byte>)
    ensures PacketsOf(g, a + b) == PacketsOf(g, a) + PacketsOf(g, b)
  {
    if a == [] {
      assert a + b == b;
    } else {
      assert (a + b)[1..] == a[1..] + b;
      PacketsOfAppend(g, a[1..], b);
    }
  }

  lemma PacketsOfIsInjective(g: group, a: seq<byte>, b: seq<byte>)
    requires PacketsOf(g, a) == PacketsOf(g, b)
    ensures a == b
  {
    PacketsOfAt(g, a);
    PacketsOfAt(g, b);
    forall i | 0 <= i < |a|
      ensures a[i] == b[i]
    {
      RealTimePacketIsInjective(g, a[i], b[i]);
    }
  }

  lemma {:induction false} PacketsOfAt(g: group, bytes: seq<byte>)
    ensures |PacketsOf(g, bytes)| == |bytes|
    ensures forall i :: 0 <= i < |bytes| ==> PacketsOf(g, bytes)[i] == RealTimePacket(g, bytes[i])
  {
    if bytes != [] {
      PacketsOfAt(g, bytes[1..]);
    }
  }

  lemma RealTimePacketIsInjective(g: group, x: byte, y: byte)
    requires RealTimePacket(g, x) == RealTimePacket(g, y)
    ensures x == y
  {
    Word0Fields(MT_SYSTEM, g, x, 0, 0);
    Word0Fields(MT_SYSTEM, g, y, 0, 0);
    assert RealTimePacket(g, x)[0] == RealTimePacket(g, y)[0];
  }

  // Real-time bytes mixed into complete messages at any place, even inside them: the messages and
  // the real-time bytes both survive the link.
  lemma LinkIsLosslessWithRealTime(g: group, data: seq<byte>, ms: seq<Message>, t: millis)
    requires data != [] && data[0] >= STATUS_START
    requires (forall m <- ms :: Complete(m)) && OtherBytes(data) == OtherBytes(Stream(ms))
    ensures var received := Received(g, Encoded(Some(data), t));
            OtherBytes(received) == OtherBytes(Stream(ms)) && RealTimeBytes(received) == RealTimeBytes(data)
  {
    ReceivedIsReverse(g, data, t);
    var ps, ps' := Run(g, IDLE, data).packets, Run(g, IDLE, Stream(ms)).packets;
    RealTimeIsTransparent(g, IDLE, data);
    RealTimeIsTransparent(g, IDLE, Stream(ms));
    RunSorts(g, IDLE, data);
    RunSorts(g, IDLE, Stream(ms));
    SortedBytes(g, ps, false);
    SortedBytes(g, ps', false);
    WholeStream(g, 0, ms);
    PacketsOfIsInjective(g, RealTimeBytes(FromPackets(ps, false).bytes), RealTimeBytes(data));
  }
}
