/** The parser object: byte buffers with fill positions, updated in place, against the parser
    function; and the way back, against the reverse function. What is handed to the callback is
    returned. */
module UmpProcessorModel {
  import opened Words
  import opened UmpWords
  import opened UmpParser
  import opened UmpReverse

  class UmpProcessor {
    var group_: group
    const cvBuffer: array<byte>
    var cvPos: nat
    var runningStatus: byte
    var expectedLen: nat
    var inSysEx: bool
    const sysexBuffer: array<byte>
    var sysexPos: nat
    var sysexHasStarted: bool
    var reverseSysexActive: bool

    ghost predicate Shape()
      reads this
    {
      cvBuffer.Length == 3 && sysexBuffer.Length == SYSEX_BUFFER_SIZE && cvBuffer != sysexBuffer
      && cvPos <= 2 && sysexPos < SYSEX_BUFFER_SIZE
    }

    // The part of the fields that matters: bytes beyond a fill position never do.
    ghost function Mode(): UmpParser.Mode
      reads this, cvBuffer, sysexBuffer
      requires Shape()
    {
      if inSysEx then SysEx(sysexBuffer[..sysexPos], sysexHasStarted)
      else Voice(cvBuffer[..cvPos], runningStatus)
    }

    ghost predicate Valid()
      reads this, cvBuffer, sysexBuffer
    {
      && Shape() && ModeOk(Mode())
      && (!inSysEx && cvPos > 0 ==> expectedLen == ExpectedLen(cvBuffer[0]))
    }

    constructor ()
      ensures Valid() && Mode() == IDLE && group_ == 0 && !reverseSysexActive
      ensures fresh(cvBuffer) && fresh(sysexBuffer)
    {
      group_ := 0;
      cvBuffer := new byte[3](i => 0);
      sysexBuffer := new byte[SYSEX_BUFFER_SIZE](i => 0);
      cvPos, runningStatus, expectedLen := 0, 0, 0;
      inSysEx, sysexPos, sysexHasStarted, reverseSysexActive := false, 0, false, false;
    }

    method SetGroup(g: byte)
      requires Valid()
      modifies this`group_
      ensures Valid() && Mode() == old(Mode()) && group_ == if g <= 0x0F then g else old(group_)
    {
      if g <= 0x0F {
        group_ := g;
      }
    }

    method Reset()
      requires Valid()
      modifies this, cvBuffer, sysexBuffer
      ensures Valid() && Mode() == IDLE && !reverseSysexActive && group_ == old(group_)
    {
      cvPos, runningStatus, expectedLen := 0, 0, 0;
      inSysEx, sysexPos, sysexHasStarted := false, 0, false;
      for i := 0 to 3
        modifies cvBuffer
      {
        cvBuffer[i] := 0;
      }
      for i := 0 to SYSEX_BUFFER_SIZE
        modifies sysexBuffer
      {
        sysexBuffer[i] := 0;
      }
      reverseSysexActive := false;
    }

    method DispatchChannelMessage() returns (packet: Packet)
      requires Shape() && expectedLen <= 2
      ensures packet == MessagePacket(group_, cvBuffer[..expectedLen + 1])
    {
      var status := cvBuffer[0];
      var mt := if status < SYSTEM_START then MT_CHANNEL else MT_SYSTEM;
      var w0 := mt * 0x1000_0000 + group_ * 0x100_0000 + status * 0x1_0000;
      if expectedLen >= 1 {
        w0 := w0 + cvBuffer[1] * 0x100;
      }
      if expectedLen == 2 {
        w0 := w0 + cvBuffer[2];
      }
      return [w0];
    }

    // The first word of a system exclusive packet: its header fields and up to two data bytes.
    method SysExWord0(status: int, count: nat) returns (w0: word)
      requires Shape() && COMPLETE <= status <= END && count <= SYSEX_BUFFER_SIZE
      ensures w0 == SysExPacket(group_, status, sysexBuffer[..count])[0]
    {
      var data1, data2: byte := 0, 0;
      if count > 0 {
        data1 := sysexBuffer[0];
      }
      if count > 1 {
        data2 := sysexBuffer[1];
      }
      ghost var data := sysexBuffer[..count];
      assert |data| == count && data1 == At(data, 0) && data2 == At(data, 1);
      w0 := Word0(MT_DATA, group_, status * 16 + count, data1, data2);
      assert w0 == Word0(MT_DATA, group_, status * 16 + |data|, At(data, 0), At(data, 1));
    }

    // The second word: up to four more data bytes.
    method SysExWord1(count: nat) returns (w1: word)
      requires Shape() && count <= SYSEX_BUFFER_SIZE
      ensures w1 == SysExPacket(group_, COMPLETE, sysexBuffer[..count])[1]
    {
      var data3, data4, data5, data6: byte := 0, 0, 0, 0;
      if count > 2 {
        data3 := sysexBuffer[2];
      }
      if count > 3 {
        data4 := sysexBuffer[3];
      }
      if count > 4 {
        data5 := sysexBuffer[4];
      }
      if count > 5 {
        data6 := sysexBuffer[5];
      }
      ghost var data := sysexBuffer[..count];
      assert data3 == At(data, 2) && data4 == At(data, 3) && data5 == At(data, 4) && data6 == At(data, 5);
      return Word1(data3, data4, data5, data6);
    }

    method DispatchSysExPacket(status: int, count: nat) returns (packet: Packet)
      requires Shape() && COMPLETE <= status <= END && count <= SYSEX_BUFFER_SIZE
      ensures packet == SysExPacket(group_, status, sysexBuffer[..count])
    {
      var w0 := SysExWord0(status, count);
      var w1 := SysExWord1(count);
      return [w0, w1];
    }

    method HandleRealTime(b: byte) returns (handled: bool, packets: seq<Packet>)
      ensures handled == (b >= REALTIME_START)
      ensures packets == if handled then [RealTimePacket(group_, b)] else []
    {
      if b < REALTIME_START {
        return false, [];
      }
      return true, [[MT_SYSTEM * 0x1000_0000 + group_ * 0x100_0000 + b * 0x1_0000]];
    }

    method FinalizeSysEx() returns (packets: seq<Packet>)
      requires Shape()
      modifies this`sysexPos, this`sysexHasStarted
      ensures packets ==
              [SysExPacket(group_, if old(sysexHasStarted) then END else COMPLETE, sysexBuffer[..old(sysexPos)])]
      ensures sysexPos == 0 && !sysexHasStarted
    {
      var packet := DispatchSysExPacket(if sysexHasStarted then END else COMPLETE, sysexPos);
      sysexPos := 0;
      sysexHasStarted := false;
      return [packet];
    }

    method HandleStatusByte(b: byte) returns (packets: seq<Packet>)
      requires Valid() && STATUS_START <= b < REALTIME_START
      modifies this`cvPos, this`runningStatus, this`expectedLen, this`inSysEx, this`sysexPos, this`sysexHasStarted,
               cvBuffer
      ensures Valid() && Out(Mode(), packets) == Step(group_, old(Mode()), b)
    {
      packets := [];
      cvPos := 0;
      if b == SYSEX_START {
        inSysEx := true;
        sysexPos := 0;
        sysexHasStarted := false;
        runningStatus := 0;
        return;
      }
      if b == SYSEX_END {
        if inSysEx {
          packets := FinalizeSysEx();
          inSysEx := false;
        }
        runningStatus := 0;
        return;
      }
      inSysEx := false;
      cvBuffer[0] := b;
      cvPos := 1;
      expectedLen := ExpectedLen(b);
      runningStatus := if b < SYSTEM_START then b else 0;
      if expectedLen == 0 {
        var packet := DispatchChannelMessage();
        packets := [packet];
        cvPos := 0;
        assert cvBuffer[..1] == [b];
      }
      assert !inSysEx && cvBuffer[..cvPos] == if cvPos == 0 then [] else [b];
    }

    method ProcessSysExData(b: byte) returns (packets: seq<Packet>)
      requires Valid() && inSysEx && b < STATUS_START
      modifies this`sysexPos, this`sysexHasStarted, sysexBuffer
      ensures Valid() && Out(Mode(), packets) == Step(group_, old(Mode()), b)
    {
      packets := [];
      ghost var buffer := sysexBuffer[..sysexPos];
      sysexBuffer[sysexPos] := b;
      assert sysexBuffer[..sysexPos + 1] == buffer + [b];
      if sysexPos + 1 == SYSEX_BUFFER_SIZE {
        var packet := DispatchSysExPacket(if sysexHasStarted then CONTINUE else START, SYSEX_BUFFER_SIZE);
        packets := [packet];
        sysexPos := 0;
        sysexHasStarted := true;
      } else {
        sysexPos := sysexPos + 1;
      }
    }

    method HandleChannelData(b: byte) returns (packets: seq<Packet>)
      requires Valid() && !inSysEx && b < STATUS_START
      modifies this`cvPos, this`expectedLen, cvBuffer
      ensures Valid() && Out(Mode(), packets) == Step(group_, old(Mode()), b)
    {
      packets := [];
      ghost var pending := cvBuffer[..cvPos];
      var pos := cvPos;
      if cvPos == 0 && runningStatus != 0 {
        cvBuffer[0] := runningStatus;
        cvBuffer[1] := b;
        pos := 2;
        expectedLen := ExpectedLen(runningStatus);
        assert cvBuffer[..2] == [runningStatus, b];
      } else if cvPos > 0 {
        cvBuffer[cvPos] := b;
        pos := cvPos + 1;
        assert cvBuffer[..pos] == pending + [b];
      } else {
        return;
      }
      if pos == expectedLen + 1 {
        var packet := DispatchChannelMessage();
        packets := [packet];
        pos := 0;
      }
      cvPos := pos;
    }

    method HandleDataByte(b: byte) returns (packets: seq<Packet>)
      requires Valid() && b < STATUS_START
      modifies this`cvPos, this`expectedLen, this`sysexPos, this`sysexHasStarted, cvBuffer, sysexBuffer
      ensures Valid() && Out(Mode(), packets) == Step(group_, old(Mode()), b)
    {
      if inSysEx {
        packets := ProcessSysExData(b);
      } else {
        packets := HandleChannelData(b);
      }
    }

    method HandleByte(b: byte) returns (packets: seq<Packet>)
      requires Valid()
      modifies this`cvPos, this`runningStatus, this`expectedLen, this`inSysEx, this`sysexPos, this`sysexHasStarted,
               cvBuffer, sysexBuffer
      ensures Valid() && Out(Mode(), packets) == Step(group_, old(Mode()), b)
    {
      if b >= STATUS_START {
        var handled;
        handled, packets := HandleRealTime(b);
        if !handled {
          packets := HandleStatusByte(b);
        }
      } else {
        packets := HandleDataByte(b);
      }
    }

    method ProcessBytes(data: seq<byte>) returns (packets: seq<Packet>)
      requires Valid()
      modifies this`cvPos, this`runningStatus, this`expectedLen, this`inSysEx, this`sysexPos, this`sysexHasStarted,
               cvBuffer, sysexBuffer
      ensures Valid() && Out(Mode(), packets) == Run(group_, old(Mode()), Tokens(data))
    {
      packets := [];
      ghost var mode := Mode();
      ghost var done: seq<byte> := TokensStart(data);
      var i := 0;
      while i < |data|
        invariant 0 <= i <= |data| && Valid()
        invariant TokensSoFar(data, i, done)
        invariant Out(Mode(), packets) == Run(group_, mode, done)
      {
        TokensMore(data, i, done);
        var b := data[i];
        if b >= STATUS_START && i + 1 < |data| && data[i + 1] >= STATUS_START {
          i := i + 1;
          b := data[i];
        }
        i := i + 1;
        var more := HandleByte(b);
        RunSnoc(group_, mode, done, b);
        packets := packets + more;
        done := done + [b];
      }
      TokensEnd(data, done);
    }

    // ---------- Packets back to bytes ----------

    method ProcessUmpType1(word0: word) returns (output: seq<byte>)
      ensures output == SystemBytes(word0)
    {
      var status := Byte2(word0);
      output := [];
      if status == 0xF1 || status == 0xF3 {
        output := [status];
        output := output + [Byte1(word0)];
      } else if status == 0xF2 {
        output := [status];
        output := output + [Byte1(word0)];
        output := output + [Byte0(word0)];
      } else if status == 0xF6 || status >= REALTIME_START {
        output := [status];
      }
    }

    method ProcessUmpType2(word0: word) returns (output: seq<byte>)
      ensures output == ChannelBytes(word0)
    {
      var status := Byte2(word0);
      output := [status] + [Byte1(word0)];
      var cmd := status / 16;
      if cmd != 0xC && cmd != 0xD {
        output := output + [Byte0(word0)];
      }
    }

    method PushData(output: seq<byte>, data: seq<byte>, count: nat) returns (result: seq<byte>)
      requires |data| == SYSEX_BUFFER_SIZE
      ensures result == output + data[..if count <= SYSEX_BUFFER_SIZE then count else SYSEX_BUFFER_SIZE]
    {
      result := output;
      var i := 0;
      while i < count && i < SYSEX_BUFFER_SIZE
        invariant 0 <= i <= count && i <= SYSEX_BUFFER_SIZE
        invariant result == output + data[..i]
      {
        result := result + [data[i]];
        assert data[..i + 1] == data[..i] + [data[i]];
        i := i + 1;
      }
    }

    method ProcessUmpType3(word0: word, word1: word) returns (output: seq<byte>)
      modifies this`reverseSysexActive
      ensures Rev(reverseSysexActive, output) == DataMessageBytes(word0, word1, old(reverseSysexActive))
    {
      var status, count := Byte2(word0) / 16, Byte2(word0) % 16;
      var data := [Byte1(word0), Byte0(word0), Byte3(word1), Byte2(word1), Byte1(word1), Byte0(word1)];
      output := [];
      if status == COMPLETE {
        output := PushData([SYSEX_START], data, count);
        output := output + [SYSEX_END];
        reverseSysexActive := false;
      } else if status == START {
        output := PushData([SYSEX_START], data, count);
        reverseSysexActive := true;
      } else if status == CONTINUE {
        if reverseSysexActive {
          output := PushData([], data, count);
          assert [] + DataBytes(word0, word1) == DataBytes(word0, word1);
        }
      } else if status == END {
        output := PushData([], data, count);
        assert [] + DataBytes(word0, word1) == DataBytes(word0, word1);
        output := output + [SYSEX_END];
        reverseSysexActive := false;
      } else {
        reverseSysexActive := false;
      }
    }

    // One round of ProcessUmp's loop: the packet at word i, and where the next one starts.
    method ProcessUmpAt(packets: seq<word>, i: nat) returns (output: seq<byte>, next: nat)
      requires i < |packets|
      modifies this`reverseSysexActive
      ensures Rev(reverseSysexActive, output) ==
              PacketBytes(packets[i], if i + 1 < |packets| then packets[i + 1] else 0, old(reverseSysexActive))
      ensures next > i && Onwards(packets, next) == Onwards(packets, i + GetUmpWordCount(packets[i]))
    {
      var word0 := packets[i];
      var mt := MessageType(word0);
      if mt == MT_SYSTEM {
        output := ProcessUmpType1(word0);
        next := i + 1;
      } else if mt == MT_CHANNEL {
        output := ProcessUmpType2(word0);
        next := i + 1;
      } else if mt == MT_DATA {
        if i + 1 < |packets| {
          output := ProcessUmpType3(word0, packets[i + 1]);
          next := i + 2;
        } else {
          output := ProcessUmpType3(word0, 0);
          next := i + 1;
        }
      } else {
        output, next := [], i + GetUmpWordCount(word0);
      }
    }

    method ProcessUmp(packets: seq<word>) returns (output: seq<byte>)
      modifies this`reverseSysexActive
      ensures Rev(reverseSysexActive, output) == FromUmp(packets, old(reverseSysexActive))
    {
      output := [];
      ghost var end := FromUmp(packets, reverseSysexActive);
      assert [] + end.bytes == end.bytes && packets[0..] == packets;
      var i := 0;
      while i < |packets|
        invariant 0 <= i && OnTheWay(packets, i, Rev(reverseSysexActive, output), end)
        decreases |packets| - i
      {
        OnePacketOn(packets, i, Rev(reverseSysexActive, output), end);
        var out, next := ProcessUmpAt(packets, i);
        output, i := output + out, next;
      }
      assert output + [] == output;
    }

    // Packet objects hold at most four words.
    method ProcessUmpPacket(packet: Packet) returns (output: seq<byte>)
      requires |packet| <= 4
      modifies this`reverseSysexActive
      ensures Rev(reverseSysexActive, output) == FromUmp(packet, old(reverseSysexActive))
    {
      if |packet| == 0 {
        return [];
      }
      output := ProcessUmp(packet);
    }
  }
}
