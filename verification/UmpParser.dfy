/** The MIDI 1.0 byte parser as a function: what each byte, after timestamps are removed, does to
    the parser's mode and which packets it emits. */
module UmpParser {
  import opened Words
  import opened UmpWords

  const STATUS_START := 0x80
  const SYSTEM_START := 0xF0
  const SYSEX_START := 0xF0
  const SYSEX_END := 0xF7
  const REALTIME_START := 0xF8
  const SYSEX_BUFFER_SIZE := 6

  const COMPLETE := 0
  const START := 1
  const CONTINUE := 2
  const END := 3

  // Either a channel or system common message is being collected (`running` is the status that
  // data bytes without a status belong to, 0 when there is none), or system exclusive data is.
  datatype Mode =
    | Voice(pending: seq<byte>, running: byte)
    | SysEx(buffer: seq<byte>, started: bool)

  datatype Out = Out(mode: Mode, packets: seq<Packet>)

  const IDLE := Voice([], 0)

  function ExpectedLen(status: byte): nat {
    if status < SYSTEM_START then (if status / 16 == 0xC || status / 16 == 0xD then 1 else 2)
    else if status == 0xF1 || status == 0xF3 then 1
    else if status == 0xF2 then 2
    else 0
  }

  type group = g: int | 0 <= g < 16

  function RealTimePacket(g: group, b: byte): Packet {
    [Word0(MT_SYSTEM, g, b, 0, 0)]
  }

  // A status byte with up to two data bytes.
  function MessagePacket(g: group, msg: seq<byte>): Packet
    requires 1 <= |msg| <= 3
  {
    [Word0(if msg[0] < SYSTEM_START then MT_CHANNEL else MT_SYSTEM, g, msg[0],
           if |msg| > 1 then msg[1] else 0, if |msg| > 2 then msg[2] else 0)]
  }

  function At(data: seq<byte>, i: nat): byte {
    if i < |data| then data[i] else 0
  }

  function SysExPacket(g: group, status: int, data: seq<byte>): Packet
    requires COMPLETE <= status <= END && |data| <= SYSEX_BUFFER_SIZE
  {
    [Word0(MT_DATA, g, status * 16 + |data|, At(data, 0), At(data, 1)),
     Word1(At(data, 2), At(data, 3), At(data, 4), At(data, 5))]
  }

  function OnStatus(g: group, mode: Mode, b: byte): Out
    requires ModeOk(mode)
  {
    if b == SYSEX_START then Out(SysEx([], false), [])
    else if b == SYSEX_END then
      Out(IDLE, if mode.SysEx? then [SysExPacket(g, if mode.started then END else COMPLETE, mode.buffer)] else [])
    else
      var running := if b < SYSTEM_START then b else 0;
      if ExpectedLen(b) == 0 then Out(Voice([], running), [MessagePacket(g, [b])])
      else Out(Voice([b], running), [])
  }

  function OnSysExData(g: group, mode: Mode, b: byte): Out
    requires ModeOk(mode) && mode.SysEx?
  {
    var buffer := mode.buffer + [b];
    if |buffer| == SYSEX_BUFFER_SIZE then
      Out(SysEx([], true), [SysExPacket(g, if mode.started then CONTINUE else START, buffer)])
    else Out(SysEx(buffer, mode.started), [])
  }

  function OnChannelData(g: group, mode: Mode, b: byte): Out
    requires ModeOk(mode) && mode.Voice?
  {
    if mode.pending == [] && mode.running == 0 then Out(mode, [])
    else
      var msg := (if mode.pending == [] then [mode.running] else mode.pending) + [b];
      if |msg| == ExpectedLen(msg[0]) + 1 then Out(Voice([], mode.running), [MessagePacket(g, msg)])
      else Out(Voice(msg, mode.running), [])
  }

  function Step(g: group, mode: Mode, b: byte): (o: Out)
    requires ModeOk(mode)
    ensures ModeOk(o.mode)
  {
    if b >= REALTIME_START then Out(mode, [RealTimePacket(g, b)])
    else if b >= STATUS_START then OnStatus(g, mode, b)
    else if mode.SysEx? then OnSysExData(g, mode, b)
    else OnChannelData(g, mode, b)
  }

  predicate ModeOk(mode: Mode) {
    match mode
    case Voice(pending, running) =>
      && (running == 0 || STATUS_START <= running < SYSTEM_START)
      && (pending == [] || (STATUS_START <= pending[0] && 1 <= |pending| <= ExpectedLen(pending[0])))
    case SysEx(buffer, _) => |buffer| < SYSEX_BUFFER_SIZE
  }

  function Run(g: group, mode: Mode, bytes: seq<byte>): (o: Out)
    requires ModeOk(mode)
    ensures ModeOk(o.mode)
    decreases |bytes|
  {
    if bytes == [] then Out(mode, [])
    else
      var first := Step(g, mode, bytes[0]);
      var rest := Run(g, first.mode, bytes[1..]);
      Out(rest.mode, first.packets + rest.packets)
  }

  lemma {:induction false} RunAppend(g: group, mode: Mode, a: seq<byte>, b: seq<byte>)
    requires ModeOk(mode)
    ensures var first := Run(g, mode, a);
            Run(g, mode, a + b) ==
            Out(Run(g, first.mode, b).mode, first.packets + Run(g, first.mode, b).packets)
    decreases |a|
  {
    if a == [] {
      assert a + b == b;
    } else {
      assert (a + b)[1..] == a[1..] + b;
      var one := Step(g, mode, a[0]);
      RunAppend(g, one.mode, a[1..], b);
      var mid := Run(g, one.mode, a[1..]);
      Associate(one.packets, mid.packets, Run(g, mid.mode, b).packets);
    }
  }

  lemma RunSnoc(g: group, mode: Mode, a: seq<byte>, b: byte)
    requires ModeOk(mode)
    ensures var first := Run(g, mode, a);
            Run(g, mode, a + [b]) ==
            Out(Step(g, first.mode, b).mode, first.packets + Step(g, first.mode, b).packets)
  {
    RunAppend(g, mode, a, [b]);
    var one := Step(g, Run(g, mode, a).mode, b);
    assert [b][1..] == [] && one.packets + [] == one.packets;
  }

  // Removes timestamps: of two bytes with the top bit set, the first is one. A byte with the top
  // bit set in front of a data byte, or at the very end, is taken for a status byte.
  function Tokens(data: seq<byte>): seq<byte> {
    if data == [] then []
    else if data[0] >= STATUS_START && |data| > 1 && data[1] >= STATUS_START then [data[1]] + Tokens(data[2..])
    else [data[0]] + Tokens(data[1..])
  }

  // Bytes of which no two neighbours have the top bit set hold no timestamps, and nothing is removed.
  lemma {:induction false} NoTimestamps(data: seq<byte>)
    requires forall i :: 0 <= i < |data| - 1 && data[i] >= STATUS_START ==> data[i + 1] < STATUS_START
    ensures Tokens(data) == data
    decreases |data|
  {
    if data != [] {
      NoTimestamps(data[1..]);
      assert data == [data[0]] + data[1..];
    }
  }

  lemma TokensFrom(data: seq<byte>, i: nat)
    requires i < |data|
    ensures if data[i] >= STATUS_START && i + 1 < |data| && data[i + 1] >= STATUS_START
            then Tokens(data[i..]) == [data[i + 1]] + Tokens(data[i + 2..])
            else Tokens(data[i..]) == [data[i]] + Tokens(data[i + 1..])
  {
    assert data[i..][1..] == data[i + 1..];
    if i + 1 < |data| {
      assert data[i..][2..] == data[i + 2..];
    }
  }

  // `done` are the tokens of the first i bytes.
  ghost predicate TokensSoFar(data: seq<byte>, i: nat, done: seq<byte>)
    requires i <= |data|
  {
    Tokens(data) == done + Tokens(data[i..])
  }

  lemma TokensStart(data: seq<byte>) returns (done: seq<byte>)
    ensures done == [] && TokensSoFar(data, 0, done)
  {
    done := [];
    assert data[0..] == data && done + Tokens(data) == Tokens(data);
  }

  lemma TokensMore(data: seq<byte>, i: nat, done: seq<byte>)
    requires i < |data| && TokensSoFar(data, i, done)
    ensures if data[i] >= STATUS_START && i + 1 < |data| && data[i + 1] >= STATUS_START
            then TokensSoFar(data, i + 2, done + [data[i + 1]])
            else TokensSoFar(data, i + 1, done + [data[i]])
  {
    TokensFrom(data, i);
    var pair := data[i] >= STATUS_START && i + 1 < |data| && data[i + 1] >= STATUS_START;
    var b, rest := if pair then data[i + 1] else data[i], Tokens(data[if pair then i + 2 else i + 1..]);
    assert done + ([b] + rest) == done + [b] + rest;
  }

  lemma TokensEnd(data: seq<byte>, done: seq<byte>)
    requires TokensSoFar(data, |data|, done)
    ensures Tokens(data) == done
  {
    assert data[|data|..] == [] && done + [] == done;
  }

  // ---------- What is emitted ----------

  predicate IsRealTime(b: byte) {
    b >= REALTIME_START
  }

  predicate IsRealTimePacket(p: Packet) {
    p != [] && MessageType(p[0]) == MT_SYSTEM && Byte2(p[0]) >= REALTIME_START
  }

  // Every packet has the length its first word announces.
  lemma {:induction false} EmittedPacketsAreFramed(g: group, mode: Mode, bytes: seq<byte>)
    requires ModeOk(mode)
    ensures AllFramed(Run(g, mode, bytes).packets)
    decreases |bytes|
  {
    if bytes != [] {
      StepPacket(g, mode, bytes[0]);
      EmittedPacketsAreFramed(g, Step(g, mode, bytes[0]).mode, bytes[1..]);
    }
  }

  // Every packet carries the group that was set.
  lemma {:induction false} EmittedPacketsCarryGroup(g: group, mode: Mode, bytes: seq<byte>)
    requires ModeOk(mode)
    ensures forall p <- Run(g, mode, bytes).packets :: p != [] && Group(p[0]) == g
    decreases |bytes|
  {
    if bytes != [] {
      StepPacket(g, mode, bytes[0]);
      EmittedPacketsCarryGroup(g, Step(g, mode, bytes[0]).mode, bytes[1..]);
    }
  }

  // What one byte emits: at most one packet, and which kind it is.
  lemma StepPacket(g: group, mode: Mode, b: byte)
    requires ModeOk(mode)
    ensures var ps := Step(g, mode, b).packets;
            && |ps| <= 1
            && (ps != [] ==> Framed(ps[0]) && Group(ps[0][0]) == g && IsRealTimePacket(ps[0]) == IsRealTime(b))
  {
    if b >= REALTIME_START {
      Word0Fields(MT_SYSTEM, g, b, 0, 0);
    } else if b == SYSEX_END && mode.SysEx? {
      SysExFields(g, if mode.started then END else COMPLETE, mode.buffer);
    } else if b >= STATUS_START {
      MessageFields(g, [b]);
    } else if mode.SysEx? {
      if |mode.buffer| == 5 {
        SysExFields(g, if mode.started then CONTINUE else START, mode.buffer + [b]);
      }
    } else if mode.pending != [] || mode.running != 0 {
      MessageFields(g, (if mode.pending == [] then [mode.running] else mode.pending) + [b]);
    }
  }

  lemma MessageFields(g: group, msg: seq<byte>)
    requires 1 <= |msg| <= 3
    ensures var w := MessagePacket(g, msg)[0];
            && MessageType(w) == (if msg[0] < SYSTEM_START then MT_CHANNEL else MT_SYSTEM)
            && Group(w) == g && Byte2(w) == msg[0] && Byte1(w) == At(msg, 1) && Byte0(w) == At(msg, 2)
  {
    Word0Fields(if msg[0] < SYSTEM_START then MT_CHANNEL else MT_SYSTEM, g, msg[0], At(msg, 1), At(msg, 2));
  }

  lemma SysExFields(g: group, status: int, data: seq<byte>)
    requires COMPLETE <= status <= END && |data| <= SYSEX_BUFFER_SIZE
    ensures var p := SysExPacket(g, status, data);
            && MessageType(p[0]) == MT_DATA && Group(p[0]) == g && Byte2(p[0]) == status * 16 + |data|
            && Byte1(p[0]) == At(data, 0) && Byte0(p[0]) == At(data, 1)
            && Byte3(p[1]) == At(data, 2) && Byte2(p[1]) == At(data, 3)
            && Byte1(p[1]) == At(data, 4) && Byte0(p[1]) == At(data, 5)
  {
    Word0Fields(MT_DATA, g, status * 16 + |data|, At(data, 0), At(data, 1));
    Word1Fields(At(data, 2), At(data, 3), At(data, 4), At(data, 5));
  }

  // ---------- Real-time bytes are transparent ----------

  function RealTimeBytes(bytes: seq<byte>): seq<byte> {
    if bytes == [] then []
    else (if IsRealTime(bytes[0]) then [bytes[0]] else []) + RealTimeBytes(bytes[1..])
  }

  function OtherBytes(bytes: seq<byte>): seq<byte> {
    if bytes == [] then []
    else (if IsRealTime(bytes[0]) then [] else [bytes[0]]) + OtherBytes(bytes[1..])
  }

  function RealTimePackets(ps: seq<Packet>): seq<Packet> {
    if ps == [] then []
    else (if IsRealTimePacket(ps[0]) then [ps[0]] else []) + RealTimePackets(ps[1..])
  }

  function OtherPackets(ps: seq<Packet>): seq<Packet> {
    if ps == [] then []
    else (if IsRealTimePacket(ps[0]) then [] else [ps[0]]) + OtherPackets(ps[1..])
  }

  function PacketsOf(g: group, realTime: seq<byte>): seq<Packet> {
    seq(|realTime|, i requires 0 <= i < |realTime| => RealTimePacket(g, realTime[i]))
  }

  // At most one packet in front of a list of packets.
  lemma PacketsInFront(first: seq<Packet>, rest: seq<Packet>)
    requires |first| <= 1
    ensures OtherPackets(first + rest) ==
            (if first != [] && !IsRealTimePacket(first[0]) then first else []) + OtherPackets(rest)
    ensures RealTimePackets(first + rest) ==
            (if first != [] && IsRealTimePacket(first[0]) then first else []) + RealTimePackets(rest)
  {
    if first == [] {
      assert first + rest == rest;
    } else {
      assert first == [first[0]] && (first + rest)[1..] == rest;
    }
  }

  lemma RealTimeStep(g: group, mode: Mode, b: byte, rest: seq<byte>)
    requires ModeOk(mode) && IsRealTime(b)
    ensures Step(g, mode, b) == Out(mode, [RealTimePacket(g, b)]) && IsRealTimePacket(RealTimePacket(g, b))
    ensures OtherBytes([b] + rest) == OtherBytes(rest) && RealTimeBytes([b] + rest) == [b] + RealTimeBytes(rest)
    ensures PacketsOf(g, [b] + RealTimeBytes(rest)) == [RealTimePacket(g, b)] + PacketsOf(g, RealTimeBytes(rest))
  {
    StepPacket(g, mode, b);
    RealTimeFirst(g, b, rest);
  }

  lemma RealTimeFirst(g: group, b: byte, rest: seq<byte>)
    requires IsRealTime(b)
    ensures OtherBytes([b] + rest) == OtherBytes(rest) && RealTimeBytes([b] + rest) == [b] + RealTimeBytes(rest)
    ensures PacketsOf(g, [b] + RealTimeBytes(rest)) == [RealTimePacket(g, b)] + PacketsOf(g, RealTimeBytes(rest))
  {
    assert ([b] + rest)[1..] == rest && ([b] + RealTimeBytes(rest))[1..] == RealTimeBytes(rest);
    assert [] + OtherBytes(rest) == OtherBytes(rest);
  }

  lemma OtherStep(g: group, mode: Mode, b: byte, rest: seq<byte>)
    requires ModeOk(mode) && !IsRealTime(b)
    ensures OtherBytes([b] + rest) == [b] + OtherBytes(rest) && RealTimeBytes([b] + rest) == RealTimeBytes(rest)
    ensures var o := Step(g, mode, b);
            var later := Run(g, o.mode, OtherBytes(rest));
            && |o.packets| <= 1 && (o.packets != [] ==> !IsRealTimePacket(o.packets[0]))
            && Run(g, mode, [b] + OtherBytes(rest)) == Out(later.mode, o.packets + later.packets)
  {
    StepPacket(g, mode, b);
    assert ([b] + rest)[1..] == rest && ([b] + OtherBytes(rest))[1..] == OtherBytes(rest);
  }

  // Real-time bytes come out as themselves, at once and in order, wherever they stand; leaving them
  // out changes neither the other packets nor the mode the parser ends in.
  lemma {:induction false} RealTimeIsTransparent(g: group, mode: Mode, bytes: seq<byte>)
    requires ModeOk(mode)
    ensures var all, without := Run(g, mode, bytes), Run(g, mode, OtherBytes(bytes));
            && all.mode == without.mode
            && OtherPackets(all.packets) == without.packets
            && RealTimePackets(all.packets) == PacketsOf(g, RealTimeBytes(bytes))
    decreases |bytes|
  {
    if bytes != [] {
      var b, rest := bytes[0], bytes[1..];
      assert bytes == [b] + rest;
      var o := Step(g, mode, b);
      RealTimeIsTransparent(g, o.mode, rest);
      if IsRealTime(b) {
        RealTimeStep(g, mode, b, rest);
      } else {
        OtherStep(g, mode, b, rest);
      }
      PacketsInFront(o.packets, Run(g, o.mode, rest).packets);
    }
  }

  // ---------- System exclusive segmentation ----------

  predicate IsSysExPacket(p: Packet) {
    |p| == 2 && MessageType(p[0]) == MT_DATA
  }

  function SysExStatus(p: Packet): int
    requires IsSysExPacket(p)
  {
    Byte2(p[0]) / 16
  }

  function SysExCount(p: Packet): nat
    requires IsSysExPacket(p)
  {
    Byte2(p[0]) % 16
  }

  function SysExData(p: Packet): seq<byte>
    requires IsSysExPacket(p) && SysExCount(p) <= SYSEX_BUFFER_SIZE
  {
    [Byte1(p[0]), Byte0(p[0]), Byte3(p[1]), Byte2(p[1]), Byte1(p[1]), Byte0(p[1])][..SysExCount(p)]
  }

  // Among system exclusive packets, CONTINUE and END directly follow START or CONTINUE (`open` tells
  // whether the last one before the list was such a packet), and no count exceeds six.
  ghost predicate Segmented(open: bool, ps: seq<Packet>)
    decreases |ps|
  {
    ps == [] ||
    if IsSysExPacket(ps[0]) then
      && SysExCount(ps[0]) <= SYSEX_BUFFER_SIZE && SysExStatus(ps[0]) <= END
      && (SysExStatus(ps[0]) in {CONTINUE, END} ==> open)
      && Segmented(SysExStatus(ps[0]) in {START, CONTINUE}, ps[1..])
    else Segmented(open, ps[1..])
  }

  lemma SysExRoundTrip(g: group, status: int, data: seq<byte>)
    requires COMPLETE <= status <= END && |data| <= SYSEX_BUFFER_SIZE
    ensures var p := SysExPacket(g, status, data);
            IsSysExPacket(p) && SysExStatus(p) == status && SysExCount(p) == |data| && SysExData(p) == data
  {
    SysExFields(g, status, data);
    Nibbles(status, |data|);
    var p := SysExPacket(g, status, data);
    var six := [Byte1(p[0]), Byte0(p[0]), Byte3(p[1]), Byte2(p[1]), Byte1(p[1]), Byte0(p[1])];
    assert six == [At(data, 0), At(data, 1), At(data, 2), At(data, 3), At(data, 4), At(data, 5)];
    FirstOfSix(data);
  }

  lemma FirstOfSix(data: seq<byte>)
    requires |data| <= SYSEX_BUFFER_SIZE
    ensures [At(data, 0), At(data, 1), At(data, 2), At(data, 3), At(data, 4), At(data, 5)][..|data|] == data
  {
  }

  lemma Nibbles(high: int, low: int)
    requires 0 <= low < 16
    ensures (high * 16 + low) / 16 == high && (high * 16 + low) % 16 == low
  {
  }

  // What a byte emits besides real-time and message packets: a system exclusive packet when the
  // buffer fills up or F7 closes the message.
  lemma StepSysEx(g: group, mode: Mode, b: byte)
    requires ModeOk(mode)
    ensures var o := Step(g, mode, b);
            if mode.SysEx? && b == SYSEX_END then
              o.mode == IDLE && o.packets == [SysExPacket(g, if mode.started then END else COMPLETE, mode.buffer)]
            else if mode.SysEx? && b < STATUS_START && |mode.buffer| == 5 then
              o == Out(SysEx([], true), [SysExPacket(g, if mode.started then CONTINUE else START, mode.buffer + [b])])
            else
              && (o.packets == [] || (|o.packets| == 1 && !IsSysExPacket(o.packets[0])))
              && (o.mode.SysEx? && o.mode.started ==> mode.SysEx? && mode.started)
  {
  }

  lemma SegmentedInFront(open: bool, p: Packet, rest: seq<Packet>)
    ensures Segmented(open, [p] + rest) ==
            if IsSysExPacket(p) then
              && SysExCount(p) <= SYSEX_BUFFER_SIZE && SysExStatus(p) <= END
              && (SysExStatus(p) in {CONTINUE, END} ==> open)
              && Segmented(SysExStatus(p) in {START, CONTINUE}, rest)
            else Segmented(open, rest)
  {
    assert ([p] + rest)[1..] == rest;
  }

  lemma {:induction false} SysExIsSegmented(g: group, mode: Mode, bytes: seq<byte>, open: bool)
    requires ModeOk(mode) && (mode.SysEx? && mode.started ==> open)
    ensures Segmented(open, Run(g, mode, bytes).packets)
    decreases |bytes|
  {
    if bytes != [] {
      var o, b := Step(g, mode, bytes[0]), bytes[0];
      StepSysEx(g, mode, b);
      var rest := Run(g, o.mode, bytes[1..]).packets;
      if mode.SysEx? && b == SYSEX_END {
        SysExRoundTrip(g, if mode.started then END else COMPLETE, mode.buffer);
        SysExIsSegmented(g, o.mode, bytes[1..], false);
        SegmentedInFront(open, o.packets[0], rest);
      } else if mode.SysEx? && b < STATUS_START && |mode.buffer| == 5 {
        SysExRoundTrip(g, if mode.started then CONTINUE else START, mode.buffer + [b]);
        SysExIsSegmented(g, o.mode, bytes[1..], true);
        SegmentedInFront(open, o.packets[0], rest);
      } else {
        SysExIsSegmented(g, o.mode, bytes[1..], open);
        if o.packets != [] {
          SegmentedInFront(open, o.packets[0], rest);
          assert o.packets == [o.packets[0]];
        } else {
          assert o.packets + rest == rest;
        }
      }
    }
  }

  function Payload(ps: seq<Packet>): seq<byte> {
    if ps == [] then []
    else (if IsSysExPacket(ps[0]) && SysExCount(ps[0]) <= SYSEX_BUFFER_SIZE then SysExData(ps[0]) else [])
         + Payload(ps[1..])
  }

  lemma PayloadInFront(first: seq<Packet>, rest: seq<Packet>)
    requires |first| <= 1
    ensures Payload(first + rest) == Payload(first) + Payload(rest)
  {
    if first == [] {
      assert first + rest == rest;
    } else {
      assert first == [first[0]] && (first + rest)[1..] == rest;
      assert Payload(first[1..]) == [];
    }
  }

  lemma PayloadOfOne(g: group, status: int, data: seq<byte>)
    requires COMPLETE <= status <= END && |data| <= SYSEX_BUFFER_SIZE
    ensures Payload([SysExPacket(g, status, data)]) == data
  {
    SysExRoundTrip(g, status, data);
    assert Payload([]) == [];
  }

  // No data byte is lost between the packets and the buffer.
  lemma StepKeepsData(g: group, mode: Mode, b: byte)
    requires ModeOk(mode) && mode.SysEx? && (b < STATUS_START || IsRealTime(b))
    ensures var o := Step(g, mode, b);
            && o.mode.SysEx? && |o.packets| <= 1
            && Payload(o.packets) + o.mode.buffer == mode.buffer + if IsRealTime(b) then [] else [b]
  {
    var o := Step(g, mode, b);
    if IsRealTime(b) {
      StepPacket(g, mode, b);
      assert Payload(o.packets[1..]) == [] && Payload(o.packets) == [];
    } else if |mode.buffer| == 5 {
      PayloadOfOne(g, if mode.started then CONTINUE else START, mode.buffer + [b]);
    }
  }

  // Data and real-time bytes between F0 and F7: the payloads of the packets, put together, are
  // exactly the data bytes, and the parser is idle again.
  lemma {:induction false} SysExKeepsData(g: group, mode: Mode, bytes: seq<byte>)
    requires ModeOk(mode) && mode.SysEx?
    requires forall b <- bytes :: b < STATUS_START || IsRealTime(b)
    ensures var o := Run(g, mode, bytes + [SYSEX_END]);
            o.mode == IDLE && Payload(o.packets) == mode.buffer + OtherBytes(bytes)
    decreases |bytes|
  {
    if bytes == [] {
      var o := Step(g, mode, SYSEX_END);
      PayloadOfOne(g, if mode.started then END else COMPLETE, mode.buffer);
      assert [] + [SYSEX_END] == [SYSEX_END] && [SYSEX_END][1..] == [];
      assert Run(g, mode, [SYSEX_END]).packets == o.packets + [];
    } else {
      var b, tail := bytes[0], bytes[1..];
      var o := Step(g, mode, b);
      StepKeepsData(g, mode, b);
      assert bytes + [SYSEX_END] == [b] + (tail + [SYSEX_END]);
      SysExKeepsData(g, o.mode, tail);
      PayloadInFront(o.packets, Run(g, o.mode, tail + [SYSEX_END]).packets);
      JoinData(Payload(o.packets), o.mode.buffer, mode.buffer, if IsRealTime(b) then [] else [b], OtherBytes(tail));
    }
  }

  lemma JoinData(p: seq<byte>, buffer': seq<byte>, buffer: seq<byte>, one: seq<byte>, rest: seq<byte>)
    requires p + buffer' == buffer + one
    ensures p + (buffer' + rest) == buffer + (one + rest)
  {
    assert p + (buffer' + rest) == (p + buffer') + rest;
  }
}
