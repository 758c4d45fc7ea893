/** Running status: a channel message whose status byte equals the last one may come without it. */
module RunningStatus {
  import opened Words
  import opened UmpWords
  import opened UmpParser
  import opened UmpReverse
  import opened BleLink
  import opened BleRoundTrip

  predicate IsChannelStatus(status: byte) {
    STATUS_START <= status < SYSTEM_START
  }

  // Data bytes that stand for a whole message under a running status.
  predicate IsDataOf(status: byte, data: seq<byte>) {
    |data| == ExpectedLen(status) && forall b <- data :: b < STATUS_START
  }

  // Under a running status the data bytes alone give what they give behind their status byte.
  lemma DataAlone(g: group, running: byte, status: byte, data: seq<byte>)
    requires IsChannelStatus(status) && IsDataOf(status, data) && ModeOk(Voice([], running))
    ensures Run(g, Voice([], status), data) == Out(Voice([], status), [MessagePacket(g, [status] + data)])
    ensures Run(g, Voice([], running), [status] + data) == Run(g, Voice([], status), data)
  {
    assert data[0] in data && forall b <- data[1..] :: b in data;
    if |data| == 1 {
      assert data == [data[0]];
      OneByte(g, status, data[0]);
    } else {
      assert data[1] in data && data == [data[0], data[1]];
      TwoBytes(g, status, data[0], data[1]);
    }
    RunOfTail(g, Voice([], running), [status] + data);
    assert ([status] + data)[1..] == data && ([status] + data)[0] == status;
    var o := Run(g, Voice([status], status), data);
    assert [] + o.packets == o.packets;
  }

  lemma OneByte(g: group, status: byte, b: byte)
    requires IsChannelStatus(status) && ExpectedLen(status) == 1 && b < STATUS_START
    ensures Run(g, Voice([], status), [b]) == Out(Voice([], status), [MessagePacket(g, [status] + [b])])
    ensures Run(g, Voice([status], status), [b]) == Run(g, Voice([], status), [b])
  {
    RunOfTail(g, Voice([], status), [b]);
    RunOfTail(g, Voice([status], status), [b]);
    assert [b][1..] == [];
  }

  lemma TwoBytes(g: group, status: byte, b: byte, c: byte)
    requires IsChannelStatus(status) && ExpectedLen(status) == 2 && b < STATUS_START && c < STATUS_START
    ensures Run(g, Voice([], status), [b, c]) == Out(Voice([], status), [MessagePacket(g, [status] + [b, c])])
    ensures Run(g, Voice([status], status), [b, c]) == Run(g, Voice([], status), [b, c])
  {
    RunOfTail(g, Voice([], status), [b, c]);
    RunOfTail(g, Voice([status], status), [b, c]);
    RunOfTail(g, Voice([status] + [b], status), [c]);
    assert [b, c][1..] == [c] && [c][1..] == [] && [status] + [b] + [c] == [status] + [b, c];
  }

  // The running status behind a message: real-time bytes leave it, a channel message sets it, every other
  // system message ends it.
  function RunningAfter(m: Message, running: byte): byte {
    match m
    case Exclusive(_) => 0
    case Short(bytes) =>
      if bytes == [] || bytes[0] >= REALTIME_START then running
      else if bytes[0] < SYSTEM_START then bytes[0] else 0
  }

  // The messages sent with some of the repeated status bytes left out, as `omit` says.
  function Omitted(running: byte, ms: seq<Message>, omit: seq<bool>): seq<byte>
    requires |omit| == |ms|
    decreases |ms|
  {
    if ms == [] then []
    else
      (if omit[0] && Repeats(running, ms[0]) then ms[0].bytes[1..] else Bytes(ms[0]))
      + Omitted(RunningAfter(ms[0], running), ms[1..], omit[1..])
  }

  predicate Repeats(running: byte, m: Message) {
    IsChannelStatus(running) && m.Short? && m.bytes != [] && m.bytes[0] == running
  }

  lemma ModeAfter(g: group, running: byte, m: Message)
    requires Complete(m) && ModeOk(Voice([], running))
    ensures Run(g, Voice([], running), Bytes(m)).mode == Voice([], RunningAfter(m, running))
    ensures ModeOk(Voice([], RunningAfter(m, running)))
  {
    match m
    case Short(bytes) =>
      if IsChannelStatus(bytes[0]) {
        assert bytes == [bytes[0]] + bytes[1..];
        DataAlone(g, running, bytes[0], bytes[1..]);
      } else {
        SystemMode(g, running, bytes);
      }
    case Exclusive(data) =>
      RunOfTail(g, Voice([], running), Bytes(m));
      assert Bytes(m)[1..] == data + [SYSEX_END];
      ExclusiveTail(g, SysEx([], false), data, false);
  }

  lemma SystemMode(g: group, running: byte, bytes: seq<byte>)
    requires IsShort(bytes) && bytes[0] >= SYSTEM_START && ModeOk(Voice([], running))
    ensures Run(g, Voice([], running), bytes).mode ==
            Voice([], if bytes[0] >= REALTIME_START then running else 0)
  {
    var first := Step(g, Voice([], running), bytes[0]);
    RunOfTail(g, Voice([], running), bytes);
    RunOfTail(g, first.mode, bytes[1..]);
    if |bytes| > 1 {
      RunOfTail(g, Step(g, first.mode, bytes[1]).mode, bytes[1..][1..]);
    }
  }

  // Whichever repeated status bytes are left out, the parser emits the same packets and ends in the same
  // mode.
  lemma {:induction false} RepeatedStatusesCanBeLeftOut(g: group, running: byte, ms: seq<Message>, omit: seq<bool>)
    requires |omit| == |ms| && (forall m <- ms :: Complete(m)) && ModeOk(Voice([], running))
    ensures Run(g, Voice([], running), Omitted(running, ms, omit)) == Run(g, Voice([], running), Stream(ms))
    decreases |ms|
  {
    if ms != [] {
      var mode, m, running' := Voice([], running), ms[0], RunningAfter(ms[0], running);
      var sent := if omit[0] && Repeats(running, m) then m.bytes[1..] else Bytes(m);
      ModeAfter(g, running, m);
      if omit[0] && Repeats(running, m) {
        assert m.bytes == [running] + m.bytes[1..];
        DataAlone(g, running, running, m.bytes[1..]);
      }
      assert Run(g, mode, sent) == Run(g, mode, Bytes(m));
      RepeatedStatusesCanBeLeftOut(g, running', ms[1..], omit[1..]);
      RunAppend(g, mode, sent, Omitted(running', ms[1..], omit[1..]));
      RunAppend(g, mode, Bytes(m), Stream(ms[1..]));
    }
  }

  // Data without a running status emits nothing and changes nothing.
  lemma {:induction false} OrphanData(g: group, data: seq<byte>)
    requires forall b <- data :: b < STATUS_START
    ensures Run(g, IDLE, data) == Out(IDLE, [])
    decreases |data|
  {
    if data != [] {
      assert data[0] in data && forall b <- data[1..] :: b in data;
      OrphanData(g, data[1..]);
    }
  }

  // Behind a system message other than a real-time one, data bytes give nothing, whatever was running.
  lemma SystemMessageEndsRunningStatus(g: group, running: byte, m: Message, data: seq<byte>)
    requires Complete(m) && ModeOk(Voice([], running)) && (forall b <- data :: b < STATUS_START)
    requires m.Short? ==> SYSTEM_START <= m.bytes[0] < REALTIME_START
    ensures Run(g, Voice([], running), Bytes(m) + data) == Out(IDLE, Run(g, Voice([], running), Bytes(m)).packets)
  {
    ModeAfter(g, running, m);
    RunAppend(g, Voice([], running), Bytes(m), data);
    OrphanData(g, data);
    var ps := Run(g, Voice([], running), Bytes(m)).packets;
    assert ps + [] == ps;
  }

  // Messages sent under running status arrive at the other end of the link with all their status bytes.
  lemma LinkRestoresStatuses(g: group, ms: seq<Message>, omit: seq<bool>, t: millis)
    requires ms != [] && |omit| == |ms| && forall m <- ms :: Complete(m)
    ensures var sent := Omitted(0, ms, omit);
            sent != [] && Received(g, Encoded(Some(sent), t)) == Stream(ms)
  {
    var sent := Omitted(0, ms, omit);
    assert Complete(ms[0]);
    assert sent[0] == Bytes(ms[0])[0] >= STATUS_START;
    ReceivedIsReverse(g, sent, t);
    RepeatedStatusesCanBeLeftOut(g, 0, ms, omit);
    WholeStream(g, 0, ms);
  }

  // ---------- Interruptions ----------

  // A status byte other than F7 drops whatever was being collected, with no packet for it, and starts as
  // if the parser had been idle; F7 closes an exclusive message and is otherwise dropped. Both end a
  // running status unless the byte sets its own.
  lemma StatusStartsAfresh(g: group, mode: Mode, b: byte)
    requires ModeOk(mode) && STATUS_START <= b < REALTIME_START
    ensures b != SYSEX_END || mode.Voice? ==> Step(g, mode, b) == Step(g, IDLE, b)
    ensures b == SYSEX_END ==> Step(g, mode, b).mode == IDLE
    ensures b == SYSEX_END && mode.Voice? ==> Step(g, mode, b).packets == []
    ensures IsChannelStatus(b) || Step(g, mode, b).mode.SysEx? || Step(g, mode, b).mode.running == 0
  {
  }
}
