/** System exclusive data on its way to a Bluetooth device: every packet a client's data was cut into is
    an event of its own, read back by the device's processor and framed with its own timestamp. */
module SysExLink {
  import opened Words
  import opened UmpWords
  import opened UmpParser
  import opened UmpReverse
  import opened UmpProcessorModel
  import opened BleLink
  import opened BleRoundTrip
  import opened SysExSend

  // What the processor makes of each event in turn.
  function ReadOut(list: seq<Packet>, active: bool, times: seq<millis>): seq<TimedData>
    requires |times| == |list|
  {
    seq(|list|, i requires 0 <= i < |list| =>
          TimedData(FromUmp(list[i], FromPackets(list[..i], active).active).bytes, times[i]))
  }

  // The Bluetooth packets; an event that gives no bytes gives no packet.
  function Packets(events: seq<TimedData>): seq<seq<byte>> {
    if events == [] then []
    else
      var e := events[|events| - 1];
      Packets(events[..|events| - 1]) + if e.data == [] then [] else [Encoded(Some(e.data), e.t)]
  }

  // What the device finds in them, behind the header of each.
  function Arrived(packets: seq<seq<byte>>): seq<byte> {
    if packets == [] then []
    else
      var p := packets[|packets| - 1];
      Arrived(packets[..|packets| - 1]) + if p == [] then [] else Tokens(p[1..])
  }

  // The output loop of the driver.
  method HandleUmpInput(processor: UmpProcessor, list: seq<Packet>, times: seq<millis>)
    returns (packets: seq<seq<byte>>)
    requires |times| == |list|
    modifies processor`reverseSysexActive
    ensures packets == Packets(ReadOut(list, old(processor.reverseSysexActive), times))
    ensures processor.reverseSysexActive == FromPackets(list, old(processor.reverseSysexActive)).active
  {
    packets := [];
    ghost var active := processor.reverseSysexActive;
    for i := 0 to |list|
      invariant packets == Packets(ReadOut(list, active, times)[..i])
      invariant processor.reverseSysexActive == FromPackets(list[..i], active).active
    {
      OneMoreRead(list, i, active);
      OneMorePacket(ReadOut(list, active, times), i);
      var blePacket := SendUmp(processor, list[i], times[i]);
      if blePacket != [] {
        packets := packets + [blePacket];
      }
    }
    assert list[..|list|] == list && ReadOut(list, active, times)[..|list|] == ReadOut(list, active, times);
  }

  lemma OneMorePacket(events: seq<TimedData>, i: nat)
    requires i < |events|
    ensures Packets(events[..i + 1]) ==
            Packets(events[..i]) + if events[i].data == [] then [] else [Encoded(Some(events[i].data), events[i].t)]
  {
    assert events[..i + 1][..i] == events[..i];
  }

  lemma OneMoreRead(list: seq<Packet>, i: nat, active: bool)
    requires i < |list|
    ensures var before := FromPackets(list[..i], active);
            FromPackets(list[..i + 1], active) ==
            Rev(FromUmp(list[i], before.active).active, before.bytes + FromUmp(list[i], before.active).bytes)
  {
    assert list[..i + 1] == list[..i] + [list[i]];
    FromPacketsAppend(list[..i], [list[i]], active);
    FromPacketsOne(list[i], FromPackets(list[..i], active).active);
  }

  // ---------- What arrives ----------

  function DataOf(events: seq<TimedData>): seq<byte> {
    if events == [] then [] else DataOf(events[..|events| - 1]) + events[|events| - 1].data
  }

  predicate StartsWithStatus(data: seq<byte>) {
    data == [] || data[0] >= STATUS_START
  }

  // An event that starts with a data byte brings one byte too many; no other does.
  lemma {:induction false} ArrivedExactly(events: seq<TimedData>)
    ensures |Arrived(Packets(events))| >= |DataOf(events)|
    ensures |Arrived(Packets(events))| == |DataOf(events)| <==> forall e <- events :: StartsWithStatus(e.data)
    ensures (forall e <- events :: StartsWithStatus(e.data)) ==> Arrived(Packets(events)) == DataOf(events)
  {
    if events != [] {
      var init, e := events[..|events| - 1], events[|events| - 1];
      assert events == init + [e];
      ArrivedExactly(init);
      if e.data != [] {
        var p := Encoded(Some(e.data), e.t);
        ArrivedOne(e.data, e.t);
        assert (Packets(init) + [p])[..|Packets(init)|] == Packets(init);
      } else {
        assert Packets(init) + [] == Packets(init) && DataOf(init) + [] == DataOf(init);
      }
    }
  }

  lemma ArrivedOne(data: seq<byte>, t: millis)
    requires data != []
    ensures Encoded(Some(data), t) != []
    ensures Tokens(Encoded(Some(data), t)[1..]) == Misread(t, data)
  {
    FrameTokens(t, data, []);
    assert EventFrame(t, data) + [] == EventFrame(t, data) == Encoded(Some(data), t)[1..];
    assert Misread(t, data) + [] == Misread(t, data);
  }

  lemma {:induction false} ReadOutData(list: seq<Packet>, active: bool, times: seq<millis>)
    requires |times| == |list|
    ensures DataOf(ReadOut(list, active, times)) == FromPackets(list, active).bytes
    decreases |list|
  {
    if list != [] {
      var n, events := |list| - 1, ReadOut(list, active, times);
      ReadOutData(list[..n], active, times[..n]);
      ReadOutPrefix(list, active, times, n);
      OneMoreRead(list, n, active);
      assert list[..n + 1] == list;
    }
  }

  lemma ReadOutPrefix(list: seq<Packet>, active: bool, times: seq<millis>, n: nat)
    requires |times| == |list| && n <= |list|
    ensures ReadOut(list, active, times)[..n] == ReadOut(list[..n], active, times[..n])
  {
    assert forall i :: 0 <= i < n ==> list[..n][..i] == list[..i];
  }

  // What arrives of a client's data.
  function ArrivedOf(ps: seq<Packet>, times: seq<millis>): seq<byte>
    requires |times| == |ps|
  {
    Arrived(Packets(ReadOut(ps, false, times)))
  }

  // An event of a message reads as its chunk, behind F0 if it is the first.
  lemma EventRead(ps: seq<Packet>, chunks: seq<seq<byte>>, times: seq<millis>, i: nat)
    requires |times| == |ps| == |chunks| && i < |ps| && Cut(chunks) && chunks[i] != []
    requires forall j :: 0 <= j < |ps| ==> ReadsAs(ps[j], GetSysexStatus(j, |ps|), chunks[j])
    ensures OnlyFirst(ReadOut(ps, false, times)[i], chunks[i], i)
  {
    var status, chunk := GetSysexStatus(i, |ps|), chunks[i];
    assert ReadsAs(ps[i], status, chunk);
    if i > 0 {
      PacketsReadBack(|ps|, chunks[..i], ps[..i]);
    }
    FromPacketsOne(ps[i], i > 0);
    assert ReadOut(ps, false, times)[i].data == ReadBack(status, Swapped(chunk)).bytes;
  }

  // Every chunk reads the same in both orders, and all but the first start with a status byte.
  predicate Unbroken(chunks: seq<seq<byte>>) {
    (forall c <- chunks :: Symmetric(c)) && forall i :: 1 <= i < |chunks| ==> At(chunks[i], 0) >= STATUS_START
  }

  // A device gets the data between F0 and F7 if and only if every chunk reads the same in both orders and
  // all chunks but the first start with what the receiver takes for a status byte.
  lemma SentDataArrives(data: seq<byte>, ps: seq<Packet>, times: seq<millis>)
    requires Carries(ps, data) && |times| == |ps|
    ensures ArrivedOf(ps, times) == [SYSEX_START] + data + [SYSEX_END] <==> Unbroken(Chunks(data))
  {
    CarriedReadBack(ps, data);
    ReadOutData(ps, false, times);
    SentStarts(data, ps, times);
    ArrivesWhole(ReadOut(ps, false, times), [SYSEX_START] + data + [SYSEX_END]);
  }

  lemma ArrivesWhole(events: seq<TimedData>, whole: seq<byte>)
    requires |DataOf(events)| == |whole|
    ensures Arrived(Packets(events)) == whole <==>
            DataOf(events) == whole && forall e <- events :: StartsWithStatus(e.data)
  {
    ArrivedExactly(events);
  }

  lemma SentStarts(data: seq<byte>, ps: seq<Packet>, times: seq<millis>)
    requires Carries(ps, data) && |times| == |ps|
    ensures Unbroken(Chunks(data)) <==>
            && (forall e <- ReadOut(ps, false, times) :: StartsWithStatus(e.data))
            && forall c <- Chunks(data) :: Symmetric(c)
  {
    var events, chunks := ReadOut(ps, false, times), Chunks(data);
    forall i | 0 <= i < |events|
      ensures chunks[i] != [] && OnlyFirst(events[i], chunks[i], i)
    {
      EventRead(ps, chunks, times, i);
    }
    UnbrokenExactly(events, chunks);
  }

  ghost predicate OnlyFirst(e: TimedData, chunk: seq<byte>, i: nat) {
    StartsWithStatus(e.data) <==> i == 0 || At(chunk, 1) >= STATUS_START
  }

  lemma UnbrokenExactly(events: seq<TimedData>, chunks: seq<seq<byte>>)
    requires |events| == |chunks|
    requires forall i :: 0 <= i < |events| ==> chunks[i] != [] && OnlyFirst(events[i], chunks[i], i)
    ensures Unbroken(chunks) <==>
            (forall e <- events :: StartsWithStatus(e.data)) && forall c <- chunks :: Symmetric(c)
  {
    forall i | 0 <= i < |events| && Symmetric(chunks[i])
      ensures StartsWithStatus(events[i].data) <==> i == 0 || At(chunks[i], 0) >= STATUS_START
    {
      assert OnlyFirst(events[i], chunks[i], i) && chunks[i] in chunks;
    }
    if Unbroken(chunks) {
      forall e | e in events
        ensures StartsWithStatus(e.data)
      {
        var i :| 0 <= i < |events| && events[i] == e;
        assert Symmetric(chunks[i]);
      }
    } else if forall c <- chunks :: Symmetric(c) {
      var i :| 1 <= i < |chunks| && At(chunks[i], 0) < STATUS_START;
      assert Symmetric(chunks[i]) && events[i] in events;
    }
  }

  // So data of seven-bit bytes arrives if and only if it fits one packet and reads the same in both orders.
  lemma SevenBitDataArrives(data: seq<byte>, ps: seq<Packet>, times: seq<millis>)
    requires Carries(ps, data) && |times| == |ps| && forall b <- data :: b < STATUS_START
    ensures ArrivedOf(ps, times) == [SYSEX_START] + data + [SYSEX_END] <==>
            |data| <= MAX_PACKET_BYTES && Symmetric(data)
  {
    SentDataArrives(data, ps, times);
    FewChunks(data);
    SevenBitChunks(data, Chunks(data));
  }

  lemma SevenBitChunks(data: seq<byte>, chunks: seq<seq<byte>>)
    requires forall b <- data :: b < STATUS_START
    requires |data| <= MAX_PACKET_BYTES ==> chunks == [data]
    requires |data| > MAX_PACKET_BYTES ==> |chunks| > 1 && At(chunks[1], 0) == data[MAX_PACKET_BYTES]
    ensures Unbroken(chunks) <==> |data| <= MAX_PACKET_BYTES && Symmetric(data)
  {
    if |data| > MAX_PACKET_BYTES {
      assert data[MAX_PACKET_BYTES] in data;
    }
  }

  lemma FewChunks(data: seq<byte>)
    requires data != []
    ensures |data| <= MAX_PACKET_BYTES ==> Chunks(data) == [data]
    ensures |data| > MAX_PACKET_BYTES ==> |Chunks(data)| > 1 && At(Chunks(data)[1], 0) == data[MAX_PACKET_BYTES]
  {
    var n := PacketCount(|data|);
    PacketCountBounds(|data|, 0);
    PacketCountBounds(|data|, 1);
    if |data| <= MAX_PACKET_BYTES {
      assert n == 1;
      assert Chunk(data, 0) == data;
    } else {
      assert n > 1;
      assert Chunk(data, 1)[0] == data[MAX_PACKET_BYTES];
    }
  }

  // One byte that is not 0 arrives as 0.
  lemma OneByteIsLost(data: seq<byte>, ps: seq<Packet>, times: seq<millis>)
    requires |data| == 1 && Carries(ps, data) && |times| == |ps|
    ensures ArrivedOf(ps, times) == [SYSEX_START, 0, SYSEX_END]
  {
    FewChunks(data);
    OneByteSwapped(data, Chunks(data));
    CarriedReadBack(ps, data);
    ReadOutData(ps, false, times);
    EventRead(ps, Chunks(data), times, 0);
    ArrivesWhole(ReadOut(ps, false, times), [SYSEX_START, 0, SYSEX_END]);
  }

  lemma OneByteSwapped(data: seq<byte>, chunks: seq<seq<byte>>)
    requires |data| == 1 && chunks == [data]
    ensures [SYSEX_START] + SwappedAll(chunks) + [SYSEX_END] == [SYSEX_START, 0, SYSEX_END]
  {
    assert SwappedAll(chunks[..0]) == [] && Swapped(data) == [0];
    assert SwappedAll(chunks) == [0];
  }

  // The whole way: a client's data is cut and packed, the driver reads each packet back and frames it.
  method SysExToDevice(processor: UmpProcessor, g: group, data: seq<byte>, times: seq<millis>)
    returns (packets: seq<seq<byte>>)
    requires data != [] && |times| == PacketCount(|data|) && !processor.reverseSysexActive
    modifies processor`reverseSysexActive
    ensures Arrived(packets) == [SYSEX_START] + data + [SYSEX_END] <==> Unbroken(Chunks(data))
    ensures (forall b <- data :: b < STATUS_START) ==>
              (Arrived(packets) == [SYSEX_START] + data + [SYSEX_END] <==>
               |data| <= MAX_PACKET_BYTES && Symmetric(data))
    ensures |data| == 1 ==> Arrived(packets) == [SYSEX_START, 0, SYSEX_END]
    ensures !processor.reverseSysexActive
  {
    var innerEvents := PrepareSysExPackets(g, data);
    ghost var ps := Prepared(g, data);
    var list := seq(|innerEvents|, i requires 0 <= i < |innerEvents| =>
                      if innerEvents[i].data.Some? then innerEvents[i].data.value else []);
    assert list == ps;
    PreparedCarries(g, data);
    CarriedReadBack(list, data);
    packets := HandleUmpInput(processor, list, times);
    SentDataArrives(data, list, times);
    if forall b <- data :: b < STATUS_START {
      SevenBitDataArrives(data, list, times);
    }
    if |data| == 1 {
      OneByteIsLost(data, list, times);
    }
  }
}
