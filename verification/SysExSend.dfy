/** Sending system exclusive data: cut into packets, packed, and written to the ring with retries
    while the consumer makes progress of its own. */
module SysExSend {
  import opened Words
  import opened UmpWords
  import opened UmpParser
  import opened UmpReverse
  import opened RingLayout
  import opened RingWrites
  import opened SharedRing

  const MAX_PACKET_BYTES := 6
  const SYSEX7_WORD_COUNT := 2
  const MAX_SYSEX_BYTE_SIZE := 65535
  const PORT_GROUP_RANGE := 16

  function GetSysexStatus(pktIndex: nat, totalPkts: nat): (status: int)
    ensures COMPLETE <= status <= END
  {
    if totalPkts == 1 then COMPLETE
    else if pktIndex == 0 then START
    else if pktIndex + 1 == totalPkts then END
    else CONTINUE
  }

  // One message: COMPLETE alone, or START, any number of CONTINUE, END.
  ghost predicate OneMessage(statuses: seq<int>) {
    || statuses == [COMPLETE]
    || (|statuses| >= 2 && statuses[0] == START && statuses[|statuses| - 1] == END
        && forall i :: 1 <= i < |statuses| - 1 ==> statuses[i] == CONTINUE)
  }

  // ---------- Packing ----------

  // The sender's own layout: the bytes of each word start at the low end.
  function Packed(g: group, status: int, data: seq<byte>): Packet
    requires COMPLETE <= status <= END && |data| <= MAX_PACKET_BYTES
  {
    [Word0(MT_DATA, g, status * 16 + |data|, At(data, 1), At(data, 0)),
     Word1(At(data, 5), At(data, 4), At(data, 3), At(data, 2))]
  }

  function Unpacked(words: seq<word>): seq<byte>
    requires |words| == 2
  {
    var w0, w1 := words[0], words[1];
    var count := Byte2(w0) % 16;
    [Byte0(w0), Byte1(w0), Byte0(w1), Byte1(w1), Byte2(w1), Byte3(w1)][..if count <= 6 then count else 6]
  }

  lemma PackedFields(g: group, status: int, data: seq<byte>)
    requires COMPLETE <= status <= END && |data| <= MAX_PACKET_BYTES
    ensures var p := Packed(g, status, data);
            && MessageType(p[0]) == MT_DATA && Group(p[0]) == g && Byte2(p[0]) == status * 16 + |data|
            && Byte0(p[0]) == At(data, 0) && Byte1(p[0]) == At(data, 1)
            && Byte0(p[1]) == At(data, 2) && Byte1(p[1]) == At(data, 3)
            && Byte2(p[1]) == At(data, 4) && Byte3(p[1]) == At(data, 5)
  {
    Word0Fields(MT_DATA, g, status * 16 + |data|, At(data, 1), At(data, 0));
    Word1Fields(At(data, 5), At(data, 4), At(data, 3), At(data, 2));
  }

  lemma PackingIsReversible(g: group, status: int, data: seq<byte>)
    requires COMPLETE <= status <= END && |data| <= MAX_PACKET_BYTES
    ensures var p := Packed(g, status, data);
            Framed(p) && MessageType(p[0]) == MT_DATA && SysExStatus(p) == status && Unpacked(p) == data
  {
    PackedFields(g, status, data);
    Nibbles(status, |data|);
    var six := [At(data, 0), At(data, 1), At(data, 2), At(data, 3), At(data, 4), At(data, 5)];
    assert Unpacked(Packed(g, status, data)) == six[..|data|];
  }

  // The bytes of a packed packet as the reverse parser reads them, each word from its high end.
  function Swapped(data: seq<byte>): seq<byte>
    requires |data| <= MAX_PACKET_BYTES
  {
    [At(data, 1), At(data, 0), At(data, 5), At(data, 4), At(data, 3), At(data, 2)][..|data|]
  }

  // The data reads the same in both orders.
  predicate Symmetric(data: seq<byte>) {
    && (|data| >= 1 ==> At(data, 0) == At(data, 1))
    && (|data| >= 3 ==> At(data, 2) == At(data, 5))
    && (|data| >= 4 ==> At(data, 3) == At(data, 4))
  }

  // The reverse parser gets the packed bytes back if and only if they do.
  lemma ReverseParserSwaps(g: group, status: int, data: seq<byte>)
    requires COMPLETE <= status <= END && |data| <= MAX_PACKET_BYTES
    ensures var p := Packed(g, status, data);
            && DataBytes(p[0], p[1]) == Swapped(data)
            && (DataBytes(p[0], p[1]) == data <==> Symmetric(data))
  {
    PackedFields(g, status, data);
    Nibbles(status, |data|);
    SwappedIsSame(data);
  }

  lemma SwappedIsSame(data: seq<byte>)
    requires |data| <= MAX_PACKET_BYTES
    ensures Swapped(data) == data <==> Symmetric(data)
  {
    var swapped := Swapped(data);
    if swapped == data {
      assert |data| >= 1 ==> swapped[0] == data[0];
      assert |data| >= 3 ==> swapped[2] == data[2];
      assert |data| >= 4 ==> swapped[3] == data[3];
    }
  }

  // ---------- Cutting ----------

  function PacketCount(byteSize: nat): nat {
    (byteSize + (MAX_PACKET_BYTES - 1)) / MAX_PACKET_BYTES
  }

  lemma PacketCountBounds(byteSize: nat, i: nat)
    ensures i < PacketCount(byteSize) <==> i * MAX_PACKET_BYTES < byteSize
  {
  }

  function Chunk(data: seq<byte>, i: nat): (chunk: seq<byte>)
    requires i < PacketCount(|data|)
    ensures 1 <= |chunk| <= MAX_PACKET_BYTES
  {
    PacketCountBounds(|data|, i);
    var offset := i * MAX_PACKET_BYTES;
    data[offset..if |data| - offset < MAX_PACKET_BYTES then |data| else offset + MAX_PACKET_BYTES]
  }

  function PreparedPacket(g: group, data: seq<byte>, i: nat): Packet
    requires i < PacketCount(|data|)
  {
    Packed(g, GetSysexStatus(i, PacketCount(|data|)), Chunk(data, i))
  }

  function Prepared(g: group, data: seq<byte>): seq<Packet> {
    seq(PacketCount(|data|), i requires 0 <= i < PacketCount(|data|) => PreparedPacket(g, data, i))
  }

  lemma ChunkFollows(data: seq<byte>, n: nat)
    requires 0 < n <= PacketCount(|data|)
    ensures 6 * (n - 1) < |data|
    ensures data[..6 * (n - 1)] + Chunk(data, n - 1) == data[..if 6 * n <= |data| then 6 * n else |data|]
  {
    PacketCountBounds(|data|, n - 1);
  }

  function Chunks(data: seq<byte>): (chunks: seq<seq<byte>>)
    ensures Cut(chunks)
  {
    seq(PacketCount(|data|), i requires 0 <= i < PacketCount(|data|) => Chunk(data, i))
  }

  predicate Cut(chunks: seq<seq<byte>>) {
    forall c <- chunks :: |c| <= MAX_PACKET_BYTES
  }

  function Concat(chunks: seq<seq<byte>>): seq<byte> {
    if chunks == [] then [] else Concat(chunks[..|chunks| - 1]) + chunks[|chunks| - 1]
  }

  lemma {:induction false} ChunksUpTo(data: seq<byte>, n: nat)
    requires n <= PacketCount(|data|)
    ensures Concat(Chunks(data)[..n]) == data[..if 6 * n <= |data| then 6 * n else |data|]
  {
    if n > 0 {
      ChunksUpTo(data, n - 1);
      assert Chunks(data)[..n][..n - 1] == Chunks(data)[..n - 1];
      ChunkFollows(data, n);
    }
  }

  lemma ChunksMakeData(data: seq<byte>)
    ensures Concat(Chunks(data)) == data
  {
    var n := PacketCount(|data|);
    PacketCountBounds(|data|, n);
    ChunksUpTo(data, n);
    assert Chunks(data)[..n] == Chunks(data) && data[..|data|] == data;
  }

  // The data packets' bytes, put together.
  function Assembled(ps: seq<Packet>): seq<byte>
    requires forall p <- ps :: |p| == 2
  {
    Concat(AllUnpacked(ps))
  }

  function AllUnpacked(ps: seq<Packet>): seq<seq<byte>>
    requires forall p <- ps :: |p| == 2
  {
    seq(|ps|, i requires 0 <= i < |ps| => Unpacked(ps[i]))
  }

  function Statuses(ps: seq<Packet>): seq<int> {
    seq(|ps|, i requires 0 <= i < |ps| => if ps[i] == [] then COMPLETE else Byte2(ps[i][0]) / 16)
  }

  // The packets, unpacked and put together, are the data, and their statuses form one message.
  lemma PreparationIsLossless(g: group, data: seq<byte>)
    requires data != []
    ensures var ps := Prepared(g, data);
            && AllUnpacked(ps) == Chunks(data) && Assembled(ps) == data && AllFramed(ps)
            && OneMessage(Statuses(ps))
  {
    var ps := Prepared(g, data);
    forall i | 0 <= i < |ps|
      ensures Framed(ps[i]) && Statuses(ps)[i] == GetSysexStatus(i, |ps|) && Unpacked(ps[i]) == Chunks(data)[i]
    {
      PackingIsReversible(g, GetSysexStatus(i, |ps|), Chunk(data, i));
    }
    assert AllUnpacked(ps) == Chunks(data);
    ChunksMakeData(data);
    StatusesFormOneMessage(Statuses(ps));
  }

  lemma StatusesFormOneMessage(statuses: seq<int>)
    requires |statuses| > 0 && forall i :: 0 <= i < |statuses| ==> statuses[i] == GetSysexStatus(i, |statuses|)
    ensures OneMessage(statuses)
  {
  }

  // ---------- What the reverse parser gets ----------

  // The chunks as the reverse parser reads them.
  function SwappedAll(chunks: seq<seq<byte>>): seq<byte>
    requires Cut(chunks)
  {
    if chunks == [] then []
    else SwappedAll(chunks[..|chunks| - 1]) + Swapped(chunks[|chunks| - 1])
  }

  // One data packet as bytes.
  function ReadBack(status: int, data: seq<byte>): Rev {
    Rev(status in {START, CONTINUE},
        (if status <= START then [SYSEX_START] else []) + data
        + (if status in {COMPLETE, END} then [SYSEX_END] else []))
  }

  lemma PacketReadBack(g: group, status: int, data: seq<byte>, active: bool)
    requires COMPLETE <= status <= END && |data| <= MAX_PACKET_BYTES && (status == CONTINUE ==> active)
    ensures FromPackets([Packed(g, status, data)], active) == ReadBack(status, Swapped(data))
  {
    PackingIsReversible(g, status, data);
    ReverseParserSwaps(g, status, data);
    DataPacketReadBack(Packed(g, status, data), status, Swapped(data), active);
  }

  lemma DataPacketReadBack(p: Packet, status: int, data: seq<byte>, active: bool)
    requires Framed(p) && |p| == 2 && MessageType(p[0]) == MT_DATA
    requires SysExStatus(p) == status && DataBytes(p[0], p[1]) == data
    requires COMPLETE <= status <= END && (status == CONTINUE ==> active)
    ensures FromPackets([p], active) == ReadBack(status, data)
  {
    FromPacketsOne(p, active);
    FromUmpOne(p, active);
    assert data + [] == data && [] + data == data;
    assert [SYSEX_START] + data + [] == [SYSEX_START] + data;
  }

  ghost predicate ReadsAs(p: Packet, status: int, chunk: seq<byte>)
    requires |chunk| <= MAX_PACKET_BYTES
  {
    forall active :: (status == CONTINUE ==> active) ==> FromPackets([p], active) == ReadBack(status, Swapped(chunk))
  }

  // The first packets of a message of `count` packets, and what they read as.
  lemma {:induction false} PacketsReadBack(count: nat, chunks: seq<seq<byte>>, ps: seq<Packet>)
    requires Cut(chunks) && 0 < |ps| == |chunks| <= count
    requires forall i :: 0 <= i < |ps| ==> ReadsAs(ps[i], GetSysexStatus(i, count), chunks[i])
    ensures var more := |ps| < count;
            FromPackets(ps, false) == Rev(more, [SYSEX_START] + SwappedAll(chunks) + if more then [] else [SYSEX_END])
    decreases |ps|
  {
    var n := |ps| - 1;
    var status := GetSysexStatus(n, count);
    assert ps == ps[..n] + [ps[n]];
    assert ReadsAs(ps[n], status, chunks[n]);
    if n == 0 {
      assert ps == [ps[0]] && SwappedAll(chunks) == Swapped(chunks[0]);
    } else {
      PacketsReadBack(count, chunks[..n], ps[..n]);
      OneMoreReadBack(ps[..n], ps[n], SwappedAll(chunks[..n]), Swapped(chunks[n]), status);
    }
  }

  lemma OneMoreReadBack(ps: seq<Packet>, p: Packet, front: seq<byte>, chunk: seq<byte>, status: int)
    requires FromPackets(ps, false) == Rev(true, [SYSEX_START] + front + [])
    requires status in {CONTINUE, END} && FromPackets([p], true) == ReadBack(status, chunk)
    ensures FromPackets(ps + [p], false) ==
            Rev(status == CONTINUE, [SYSEX_START] + (front + chunk) + if status == END then [SYSEX_END] else [])
  {
    FromPacketsAppend(ps, [p], false);
    Regroup([SYSEX_START], front, chunk, if status == END then [SYSEX_END] else []);
  }

  lemma Regroup(open: seq<byte>, front: seq<byte>, chunk: seq<byte>, close: seq<byte>)
    ensures open + front + [] + ([] + chunk + close) == open + (front + chunk) + close
  {
  }

  lemma {:induction false} SymmetricChunks(chunks: seq<seq<byte>>)
    requires Cut(chunks)
    ensures |SwappedAll(chunks)| == |Concat(chunks)|
    ensures SwappedAll(chunks) == Concat(chunks) <==> forall c <- chunks :: Symmetric(c)
  {
    if chunks != [] {
      var front, last := chunks[..|chunks| - 1], chunks[|chunks| - 1];
      assert chunks == front + [last];
      SymmetricChunks(front);
      SwappedIsSame(last);
      SameParts(SwappedAll(front), Swapped(last), Concat(front), last);
    }
  }

  lemma SameParts(a: seq<byte>, b: seq<byte>, c: seq<byte>, d: seq<byte>)
    requires |a| == |c|
    ensures a + b == c + d <==> a == c && b == d
  {
    if a + b == c + d {
      assert a == (a + b)[..|a|] && c == (c + d)[..|c|];
      assert b == (a + b)[|a|..] && d == (c + d)[|c|..];
    }
  }

  // The packets read as the chunks of the data, one message.
  ghost predicate Carries(ps: seq<Packet>, data: seq<byte>) {
    && data != [] && |ps| == |Chunks(data)| > 0
    && forall i :: 0 <= i < |ps| ==> ReadsAs(ps[i], GetSysexStatus(i, |ps|), Chunks(data)[i])
  }

  lemma PreparedCarries(g: group, data: seq<byte>)
    requires data != []
    ensures Carries(Prepared(g, data), data)
  {
    var ps, count, chunks := Prepared(g, data), PacketCount(|data|), Chunks(data);
    PacketCountBounds(|data|, 0);
    forall i | 0 <= i < |ps|
      ensures ReadsAs(ps[i], GetSysexStatus(i, count), chunks[i])
    {
      PacketReadsAs(g, GetSysexStatus(i, count), chunks[i]);
    }
  }

  lemma PacketReadsAs(g: group, status: int, chunk: seq<byte>)
    requires COMPLETE <= status <= END && |chunk| <= MAX_PACKET_BYTES
    ensures ReadsAs(Packed(g, status, chunk), status, chunk)
  {
    forall active: bool | status == CONTINUE ==> active
      ensures FromPackets([Packed(g, status, chunk)], active) == ReadBack(status, Swapped(chunk))
    {
      PacketReadBack(g, status, chunk, active);
    }
  }

  // The packets of a client's data, turned to bytes one after the other: each chunk swapped, between
  // one start and one end byte. The data comes back unchanged if and only if all its chunks read the same
  // in both orders.
  lemma SentDataReadBack(g: group, data: seq<byte>)
    requires data != []
    ensures var back := FromPackets(Prepared(g, data), false);
            && back == Rev(false, [SYSEX_START] + SwappedAll(Chunks(data)) + [SYSEX_END])
            && (back.bytes == [SYSEX_START] + data + [SYSEX_END] <==> forall c <- Chunks(data) :: Symmetric(c))
  {
    PreparedCarries(g, data);
    CarriedReadBack(Prepared(g, data), data);
  }

  lemma CarriedReadBack(ps: seq<Packet>, data: seq<byte>)
    requires Carries(ps, data)
    ensures FromPackets(ps, false) == Rev(false, [SYSEX_START] + SwappedAll(Chunks(data)) + [SYSEX_END])
    ensures |SwappedAll(Chunks(data))| == |data|
    ensures [SYSEX_START] + SwappedAll(Chunks(data)) + [SYSEX_END] == [SYSEX_START] + data + [SYSEX_END] <==>
            forall c <- Chunks(data) :: Symmetric(c)
  {
    PacketsReadBack(|ps|, Chunks(data), ps);
    ChunksMakeData(data);
    SymmetricChunks(Chunks(data));
    SameMiddle([SYSEX_START], SwappedAll(Chunks(data)), data, [SYSEX_END]);
  }

  lemma SameMiddle(open: seq<byte>, a: seq<byte>, b: seq<byte>, close: seq<byte>)
    requires |a| == |b|
    ensures open + a + close == open + b + close <==> a == b
  {
    if open + a + close == open + b + close {
      assert a == (open + a + close)[|open|..|open| + |a|];
      assert b == (open + b + close)[|open|..|open| + |b|];
    }
  }

  // ---------- The packing loops ----------

  function Shifted(b: int, bytes: nat): int
    requires bytes < 4
  {
    if bytes == 0 then b
    else if bytes == 1 then b * 0x100
    else if bytes == 2 then b * 0x1_0000
    else b * 0x100_0000
  }

  // The first n bytes from position `from` on, packed from the low end.
  function Little(b: seq<byte>, from: nat, n: nat): int
    requires from + n <= |b| && n <= 4
  {
    if n == 0 then 0 else Little(b, from, n - 1) + Shifted(b[from + n - 1], n - 1)
  }

  lemma LittleIsWord(b: seq<byte>)
    requires |b| == 6
    ensures Little(b, 0, 2) == Word1(0, 0, b[1], b[0])
    ensures Little(b, 2, 4) == Word1(b[5], b[4], b[3], b[2])
  {
    assert Little(b, 2, 4) == Little(b, 2, 3) + Shifted(b[5], 3);
    assert Little(b, 2, 3) == Little(b, 2, 2) + Shifted(b[4], 2);
    assert Little(b, 2, 2) == Little(b, 2, 1) + Shifted(b[3], 1);
    assert Little(b, 2, 1) == Little(b, 2, 0) + Shifted(b[2], 0);
    assert Little(b, 0, 1) == Little(b, 0, 0) + Shifted(b[0], 0);
  }

  lemma HeaderAndBytes(g: group, status: int, count: nat, b1: byte, b0: byte)
    requires COMPLETE <= status <= END && count <= MAX_PACKET_BYTES
    ensures Word0(MT_DATA, g, status * 16 + count, 0, 0) + Word1(0, 0, b1, b0) ==
            Word0(MT_DATA, g, status * 16 + count, b1, b0)
  {
  }

  // A group number that is too large is cut to four bits.
  method PackSysEx7Ump64(g: byte, status: int, bytes: seq<byte>) returns (words: seq<word>)
    requires COMPLETE <= status <= END && |bytes| <= MAX_PACKET_BYTES
    ensures words == Packed(g % 16, status, bytes)
  {
    var b := new byte[MAX_PACKET_BYTES](i => 0);
    for i := 0 to |bytes|
      invariant forall j :: 0 <= j < b.Length ==> b[j] == if j < i then bytes[j] else 0
    {
      b[i] := bytes[i];
    }
    var low, w1 := 0, 0;
    for i := 0 to SYSEX7_WORD_COUNT
      invariant low == Little(b[..], 0, i)
    {
      low := low + Shifted(b[i], i);
    }
    for i := SYSEX7_WORD_COUNT to MAX_PACKET_BYTES
      invariant w1 == Little(b[..], 2, i - 2)
    {
      w1 := w1 + Shifted(b[i], i - SYSEX7_WORD_COUNT);
    }
    PackedBytes(g % 16, status, bytes, b[..]);
    words := [Word0(MT_DATA, g % 16, status * 16 + |bytes|, 0, 0) + low, w1];
  }

  lemma PackedBytes(g: group, status: int, bytes: seq<byte>, b: seq<byte>)
    requires COMPLETE <= status <= END && |bytes| <= MAX_PACKET_BYTES
    requires |b| == 6 && forall j :: 0 <= j < 6 ==> b[j] == if j < |bytes| then bytes[j] else 0
    ensures Packed(g, status, bytes) ==
            [Word0(MT_DATA, g, status * 16 + |bytes|, 0, 0) + Little(b, 0, 2), Little(b, 2, 4)]
  {
    LittleIsWord(b);
    Padded(bytes, b);
    HeaderAndBytes(g, status, |bytes|, b[1], b[0]);
  }

  lemma Padded(bytes: seq<byte>, b: seq<byte>)
    requires |b| == 6 && forall j :: 0 <= j < 6 ==> b[j] == if j < |bytes| then bytes[j] else 0
    ensures b[0] == At(bytes, 0) && b[1] == At(bytes, 1) && b[2] == At(bytes, 2)
    ensures b[3] == At(bytes, 3) && b[4] == At(bytes, 4) && b[5] == At(bytes, 5)
  {
  }

  function EventOfPacket(p: Packet): InnerEvent {
    Inner(0, Some(p))
  }

  function EventsOfPackets(ps: seq<Packet>): seq<InnerEvent> {
    seq(|ps|, i requires 0 <= i < |ps| => EventOfPacket(ps[i]))
  }

  method PrepareSysExPackets(g: group, data: seq<byte>) returns (innerEvents: seq<InnerEvent>)
    ensures innerEvents == EventsOfPackets(Prepared(g, data))
  {
    innerEvents := [];
    var totalPkts := PacketCount(|data|);
    for i := 0 to totalPkts
      invariant innerEvents == EventsOfPackets(Prepared(g, data)[..i])
    {
      var event := PrepareOne(g, data, i);
      assert Prepared(g, data)[..i + 1] == Prepared(g, data)[..i] + [PreparedPacket(g, data, i)];
      innerEvents := innerEvents + [event];
    }
    assert Prepared(g, data)[..totalPkts] == Prepared(g, data);
  }

  // The body of that loop.
  method PrepareOne(g: group, data: seq<byte>, i: nat) returns (event: InnerEvent)
    requires i < PacketCount(|data|)
    ensures event == EventOfPacket(PreparedPacket(g, data, i))
  {
    var chunk := CutOne(data, i);
    var payload := PackSysEx7Ump64(g, GetSysexStatus(i, PacketCount(|data|)), chunk);
    assert g % 16 == g;
    event := EventOfPacket(payload);
  }

  method CutOne(data: seq<byte>, i: nat) returns (chunk: seq<byte>)
    requires i < PacketCount(|data|)
    ensures chunk == Chunk(data, i)
  {
    PacketCountBounds(|data|, i);
    var offset := i * MAX_PACKET_BYTES;
    var remain := |data| - offset;
    var nbytes := if remain < MAX_PACKET_BYTES then remain else MAX_PACKET_BYTES;
    chunk := data[offset..offset + nbytes];
  }

  // ---------- Sending ----------

  datatype FutexCode = FUTEX_SUCCESS | FUTEX_TIMEOUT | FUTEX_INVALID_PARAMS | FUTEX_OPERATION_FAILED

  datatype SendStatus = SENT | TIMEOUT | SYSTEM_ERROR | INVALID | INVALID_PORT

  // What happens around one try before the deadline: the consumer takes nothing, or all it can
  // (`Some(0)`), or up to so many events; and how the wait for space would end.
  datatype Turn = Turn(drain: Option<nat>, wait: FutexCode)

  // `sent` events were appended to the queue, in order, while `taken` came out at the other end.
  ghost predicate Delivered(before: seq<Event>, after: seq<Event>, taken: seq<Event>, sent: seq<Event>) {
    taken + after == before + sent
  }

  // One try: the unread headers and the count of written events before it; what the consumer took in its
  // turn, what that left, and the positions then; and the headers and the count after the write.
  datatype Try = Try(slots: seq<Slot>, written: nat, out: seq<Event>, rest: seq<Slot>, read: nat, write: nat,
                     slots': seq<Slot>, written': nat)

  // What the consumer takes in its turn.
  ghost function Takes(capacity: nat, drain: Option<nat>, slots: seq<Slot>): seq<Event> {
    var all := Readables(slots);
    if drain.None? || capacity <= HEADER_BYTES then []
    else if drain.value == 0 || |all| <= drain.value then all else all[..drain.value]
  }

  // Nothing is unread at these positions.
  predicate EmptyAt(capacity: nat, r: nat, w: nat) {
    r == w || (w == 0 && capacity - r < HEADER_BYTES)
  }

  // What the positions of a try mean, and that a consumer that drains live headers leaves nothing.
  ghost predicate AtPositions(capacity: nat, turn: Turn, t: Try) {
    && t.read % 8 == 0 && t.read < capacity
    && (t.rest == [] ==> EmptyAt(capacity, t.read, t.write))
    && (turn.drain == Some(0) && Live(t.slots) ==> t.rest == [])
  }

  // The consumer took what its turn says; then as many events were written as found room, no more.
  ghost predicate Tried(capacity: nat, events: seq<InnerEvent>, turn: Turn, t: Try) {
    && t.out == Takes(capacity, turn.drain, t.slots) && Took(t.slots, t.out, t.rest)
    && Wrote(capacity, events, t.written, t.written', t.read, t.write, t.rest, t.slots')
    && (capacity > HEADER_BYTES ==> AtPositions(capacity, turn, t))
  }

  // From the n-th event on, as many were written as found room at the positions; they stand behind the rest.
  ghost predicate Wrote(capacity: nat, events: seq<InnerEvent>, n: nat, n': nat, read: nat, write: nat,
                        rest: seq<Slot>, slots': seq<Slot>) {
    && n <= n' <= |events|
    && n' == n + (if capacity <= HEADER_BYTES then 0 else CountFit(capacity, read, write, events[n..]))
    && rest <= slots' && Events(slots') == Events(rest) + EventsOf(events[n..n'])
  }

  // Something is left, and the wait for space, if there was one, did not fail.
  predicate GoesOn(capacity: nat, events: seq<InnerEvent>, turn: Turn, t: Try) {
    && t.written' < |events| && capacity > HEADER_BYTES
    && (t.written' > t.written || turn.wait in {FUTEX_SUCCESS, FUTEX_TIMEOUT})
  }

  // The tries of one call, one for each turn used, each beginning where the one before it ended and went on.
  ghost predicate Tries(capacity: nat, events: seq<InnerEvent>, turns: seq<Turn>, slots: seq<Slot>, tries: seq<Try>) {
    && |tries| <= |turns|
    && forall i {:trigger TryIs(capacity, events, turns, slots, tries, i)} :: 0 <= i < |tries| ==>
         TryIs(capacity, events, turns, slots, tries, i)
  }

  ghost predicate TryIs(capacity: nat, events: seq<InnerEvent>, turns: seq<Turn>, slots: seq<Slot>, tries: seq<Try>,
                        i: nat)
    requires i < |tries| <= |turns|
  {
    && Tried(capacity, events, turns[i], tries[i])
    && tries[i].slots == (if i == 0 then slots else tries[i - 1].slots')
    && tries[i].written == (if i == 0 then 0 else tries[i - 1].written')
    && (i > 0 ==> GoesOn(capacity, events, turns[i - 1], tries[i - 1]))
  }

  lemma FewerTries(capacity: nat, events: seq<InnerEvent>, turns: seq<Turn>, slots: seq<Slot>, tries: seq<Try>)
    requires Tries(capacity, events, turns, slots, tries) && tries != []
    ensures Tries(capacity, events, turns, slots, tries[..|tries| - 1])
    ensures TryIs(capacity, events, turns, slots, tries, |tries| - 1)
  {
    var init := tries[..|tries| - 1];
    forall i | 0 <= i < |init|
      ensures TryIs(capacity, events, turns, slots, init, i)
    {
      assert TryIs(capacity, events, turns, slots, tries, i);
    }
  }

  function WrittenBy(tries: seq<Try>): nat {
    if tries == [] then 0 else tries[|tries| - 1].written'
  }

  function SlotsAfter(slots: seq<Slot>, tries: seq<Try>): seq<Slot> {
    if tries == [] then slots else tries[|tries| - 1].slots'
  }

  // The state between two tries.
  ghost predicate SoFar(capacity: nat, events: seq<InnerEvent>, turns: seq<Turn>, slots: seq<Slot>, tries: seq<Try>,
                        round: nat, written: nat, now: seq<Slot>) {
    && Tries(capacity, events, turns, slots, tries) && |tries| == round
    && written == WrittenBy(tries) && now == SlotsAfter(slots, tries)
    && (round > 0 && written < |events| ==> GoesOn(capacity, events, turns[round - 1], tries[round - 1]))
  }

  lemma TriedOnce(capacity: nat, events: seq<InnerEvent>, turns: seq<Turn>, slots: seq<Slot>, tries: seq<Try>,
                  round: nat, written: nat, t: Try)
    requires SoFar(capacity, events, turns, slots, tries, round, written, t.slots)
    requires round < |turns| && written == t.written < |events| && Tried(capacity, events, turns[round], t)
    ensures Tries(capacity, events, turns, slots, tries + [t])
    ensures t.written' == |events| || GoesOn(capacity, events, turns[round], t) ==>
              SoFar(capacity, events, turns, slots, tries + [t], round + 1, t.written', t.slots')
  {
    var tries' := tries + [t];
    forall i | 0 <= i < |tries'|
      ensures TryIs(capacity, events, turns, slots, tries', i)
    {
      assert i < |tries| ==> TryIs(capacity, events, turns, slots, tries, i);
    }
  }

  // The turns are those before the deadline. Whatever the consumer does in them, what was appended
  // is a prefix of the prepared events: each once, in order, and all of them exactly on success. Every try
  // writes all that finds room; the deadline is the reason only when every turn was used, and an error
  // only when a wait failed or the ring takes no events at all.
  method SendSysExPackets(ring: MidiSharedRing, innerEvents: seq<InnerEvent>, turns: seq<Turn>)
    returns (status: SendStatus, ghost written: nat, ghost taken: seq<Event>, ghost tries: seq<Try>)
    requires ring.Valid()
    modifies ring.mem, ring`readPosition, ring`writePosition
    ensures ring.Valid() && written <= |innerEvents|
    ensures Delivered(old(ring.Queue()), ring.Queue(), taken, EventsOf(innerEvents[..written]))
    ensures status == SENT <==> written == |innerEvents|
    ensures status in {SENT, TIMEOUT, SYSTEM_ERROR}
    ensures Ended(ring.capacity, innerEvents, turns, old(ring.Slots()), tries, status)
    ensures written == WrittenBy(tries) && ring.Slots() == SlotsAfter(old(ring.Slots()), tries)
    ensures status == TIMEOUT && turns != [] ==> ring.Refused(innerEvents[written])
  {
    status, tries := SendTries(ring, innerEvents, turns);
    written, taken := WrittenBy(tries), Outs(tries);
    TriesDeliver(ring.capacity, innerEvents, turns, old(ring.Slots()), tries);
  }

  // The loop.
  method SendTries(ring: MidiSharedRing, innerEvents: seq<InnerEvent>, turns: seq<Turn>)
    returns (status: SendStatus, ghost tries: seq<Try>)
    requires ring.Valid()
    modifies ring.mem, ring`readPosition, ring`writePosition
    ensures ring.Valid() && status in {SENT, TIMEOUT, SYSTEM_ERROR}
    ensures Ended(ring.capacity, innerEvents, turns, old(ring.Slots()), tries, status)
    ensures ring.Slots() == SlotsAfter(old(ring.Slots()), tries)
    ensures status == TIMEOUT && turns != [] ==>
              WrittenBy(tries) < |innerEvents| && ring.Refused(innerEvents[WrittenBy(tries)])
  {
    var writtenInBatch := 0;
    tries := [];
    var round := 0;
    while writtenInBatch < |innerEvents|
      invariant ring.Valid() && 0 <= writtenInBatch <= |innerEvents| && 0 <= round <= |turns|
      invariant SoFar(ring.capacity, innerEvents, turns, old(ring.Slots()), tries, round, writtenInBatch, ring.Slots())
      invariant round > 0 ==> writtenInBatch < |innerEvents| && ring.Refused(innerEvents[writtenInBatch])
      decreases |turns| - round
    {
      if round == |turns| {
        return TIMEOUT, tries;
      }
      var outcome;
      outcome, writtenInBatch, tries :=
        SendRound(ring, innerEvents, turns, round, writtenInBatch, old(ring.Slots()), tries);
      if outcome.Some? {
        return outcome.value, tries;
      }
      round := round + 1;
    }
    return SENT, tries;
  }

  // What the consumer took in all tries.
  function Outs(tries: seq<Try>): seq<Event> {
    if tries == [] then [] else Outs(tries[..|tries| - 1]) + tries[|tries| - 1].out
  }

  lemma {:induction false} TriesDeliver(capacity: nat, events: seq<InnerEvent>, turns: seq<Turn>, slots: seq<Slot>,
                                        tries: seq<Try>)
    requires Tries(capacity, events, turns, slots, tries)
    ensures WrittenBy(tries) <= |events|
    ensures Delivered(Events(slots), Events(SlotsAfter(slots, tries)), Outs(tries),
                      EventsOf(events[..WrittenBy(tries)]))
    decreases |tries|
  {
    if tries != [] {
      var init, t := tries[..|tries| - 1], tries[|tries| - 1];
      FewerTries(capacity, events, turns, slots, tries);
      TriesDeliver(capacity, events, turns, slots, init);
      DeliverMore(Events(slots), events, t, Outs(init));
    } else {
      assert EventsOf(events[..0]) == [];
    }
  }

  lemma DeliverMore(before: seq<Event>, events: seq<InnerEvent>, t: Try, taken: seq<Event>)
    requires t.written <= t.written' <= |events|
    requires Delivered(before, Events(t.slots), taken, EventsOf(events[..t.written]))
    requires Events(t.slots) == t.out + Events(t.rest)
    requires Events(t.slots') == Events(t.rest) + EventsOf(events[t.written..t.written'])
    ensures Delivered(before, Events(t.slots'), taken + t.out, EventsOf(events[..t.written']))
  {
    OneDrained(before, Events(t.slots), Events(t.rest), taken, t.out, EventsOf(events[..t.written]));
    assert events[t.written..][..t.written' - t.written] == events[t.written..t.written'];
    Extended(before, Events(t.rest), taken + t.out, events, t.written, t.written' - t.written);
  }

  // How a call ended, seen from its tries.
  ghost predicate Ended(capacity: nat, events: seq<InnerEvent>, turns: seq<Turn>, slots: seq<Slot>, tries: seq<Try>,
                        status: SendStatus) {
    && Tries(capacity, events, turns, slots, tries)
    && (status == SENT <==> WrittenBy(tries) == |events|)
    && (status == TIMEOUT ==>
          |tries| == |turns| && (tries != [] ==> GoesOn(capacity, events, turns[|tries| - 1], tries[|tries| - 1])))
    && (status == SYSTEM_ERROR ==>
          && tries != [] && WrittenBy(tries) < |events|
          && !GoesOn(capacity, events, turns[|tries| - 1], tries[|tries| - 1]))
  }

  // A try that finds room for everything still unwritten is the last one, and the call succeeds.
  lemma RoomForAllSends(capacity: nat, events: seq<InnerEvent>, turns: seq<Turn>, slots: seq<Slot>, tries: seq<Try>,
                        status: SendStatus, i: nat)
    requires Ended(capacity, events, turns, slots, tries, status) && capacity > HEADER_BYTES
    requires i < |tries| && tries[i].written <= |events|
    requires CountFit(capacity, tries[i].read, tries[i].write, events[tries[i].written..]) ==
             |events| - tries[i].written
    ensures i == |tries| - 1 && status == SENT
  {
    assert TryIs(capacity, events, turns, slots, tries, i);
    assert i + 1 < |tries| ==> TryIs(capacity, events, turns, slots, tries, i + 1);
    assert TryIs(capacity, events, turns, slots, tries, |tries| - 1);
  }

  // One try more: the call goes on, or ends with it.
  lemma TriedMore(capacity: nat, events: seq<InnerEvent>, turns: seq<Turn>, slots: seq<Slot>, tries: seq<Try>,
                  round: nat, written: nat, t: Try) returns (tries': seq<Try>)
    requires SoFar(capacity, events, turns, slots, tries, round, written, t.slots)
    requires round < |turns| && written == t.written < |events| && Tried(capacity, events, turns[round], t)
    ensures SlotsAfter(slots, tries') == t.slots'
    ensures t.written' == |events| ==> Ended(capacity, events, turns, slots, tries', SENT)
    ensures t.written' < |events| ==>
              if GoesOn(capacity, events, turns[round], t)
              then SoFar(capacity, events, turns, slots, tries', round + 1, t.written', t.slots')
              else Ended(capacity, events, turns, slots, tries', SYSTEM_ERROR)
  {
    TriedOnce(capacity, events, turns, slots, tries, round, written, t);
    tries' := tries + [t];
  }

  // One try as part of a call.
  method SendAgain(ring: MidiSharedRing, innerEvents: seq<InnerEvent>, turns: seq<Turn>, round: nat, n: nat,
                   ghost slots: seq<Slot>, ghost tries: seq<Try>)
    returns (ret: Status, writtenThis: nat, ghost tries': seq<Try>)
    requires ring.Valid() && n < |innerEvents| && round < |turns|
    requires SoFar(ring.capacity, innerEvents, turns, slots, tries, round, n, ring.Slots())
    modifies ring.mem, ring`readPosition, ring`writePosition
    ensures ring.Valid() && n + writtenThis <= |innerEvents| && SlotsAfter(slots, tries') == ring.Slots()
    ensures ret == if ring.capacity <= HEADER_BYTES then SHM_BROKEN
                   else if n + writtenThis == |innerEvents| then OK else WOULD_BLOCK
    ensures ret == WOULD_BLOCK ==> ring.Refused(innerEvents[n + writtenThis])
    ensures n + writtenThis == |innerEvents| ==> Ended(ring.capacity, innerEvents, turns, slots, tries', SENT)
    ensures n + writtenThis < |innerEvents| ==>
              if ret == WOULD_BLOCK && (writtenThis > 0 || turns[round].wait in {FUTEX_SUCCESS, FUTEX_TIMEOUT})
              then SoFar(ring.capacity, innerEvents, turns, slots, tries', round + 1, n + writtenThis, ring.Slots())
              else Ended(ring.capacity, innerEvents, turns, slots, tries', SYSTEM_ERROR)
  {
    ghost var t;
    ret, writtenThis, t := SendOnce(ring, innerEvents, n, turns[round]);
    tries' := TriedMore(ring.capacity, innerEvents, turns, slots, tries, round, n, t);
  }

  // The body of the loop: one try, and whether it was the last one.
  method SendRound(ring: MidiSharedRing, innerEvents: seq<InnerEvent>, turns: seq<Turn>, round: nat, n: nat,
                   ghost slots: seq<Slot>, ghost tries: seq<Try>)
    returns (outcome: Option<SendStatus>, writtenInBatch: nat, ghost tries': seq<Try>)
    requires ring.Valid() && n < |innerEvents| && round < |turns|
    requires SoFar(ring.capacity, innerEvents, turns, slots, tries, round, n, ring.Slots())
    modifies ring.mem, ring`readPosition, ring`writePosition
    ensures ring.Valid() && writtenInBatch <= |innerEvents| && SlotsAfter(slots, tries') == ring.Slots()
    ensures match outcome
            case Some(status) =>
              status in {SENT, SYSTEM_ERROR} && Ended(ring.capacity, innerEvents, turns, slots, tries', status)
            case None =>
              && SoFar(ring.capacity, innerEvents, turns, slots, tries', round + 1, writtenInBatch, ring.Slots())
              && writtenInBatch < |innerEvents| && ring.Refused(innerEvents[writtenInBatch])
  {
    var ret, writtenThis;
    ret, writtenThis, tries' := SendAgain(ring, innerEvents, turns, round, n, slots, tries);
    writtenInBatch := n + writtenThis;
    outcome := AfterTry(ret, writtenInBatch == |innerEvents|, writtenThis, turns[round].wait);
  }

  // Whether the call ends after a try: None to go on.
  method AfterTry(ret: Status, done: bool, writtenThis: nat, wait: FutexCode) returns (outcome: Option<SendStatus>)
    ensures outcome == if done then Some(SENT)
                       else if ret != WOULD_BLOCK then Some(SYSTEM_ERROR)
                       else if writtenThis > 0 || wait in {FUTEX_SUCCESS, FUTEX_TIMEOUT} then None
                       else Some(SYSTEM_ERROR)
  {
    if done {
      return Some(SENT);
    }
    if ret != WOULD_BLOCK {
      return Some(SYSTEM_ERROR);
    }
    if writtenThis == 0 {
      if wait == FUTEX_TIMEOUT {
        return None;
      }
      if wait != FUTEX_SUCCESS {
        return Some(SYSTEM_ERROR);
      }
    }
    return None;
  }

  // One try: the consumer's turn, then the write of what is left.
  method SendOnce(ring: MidiSharedRing, innerEvents: seq<InnerEvent>, n: nat, turn: Turn)
    returns (ret: Status, written: nat, ghost t: Try)
    requires ring.Valid() && n < |innerEvents|
    modifies ring.mem, ring`readPosition, ring`writePosition
    ensures ring.Valid() && n + written <= |innerEvents|
    ensures ret == if ring.capacity <= HEADER_BYTES then SHM_BROKEN
                   else if n + written == |innerEvents| then OK else WOULD_BLOCK
    ensures ret == WOULD_BLOCK ==> ring.Refused(innerEvents[n + written])
    ensures Tried(ring.capacity, innerEvents, turn, t) && t.slots == old(ring.Slots()) && t.slots' == ring.Slots()
    ensures t.written == n && t.written' == n + written
  {
    ghost var slots := ring.Slots();
    var out := TakeTurn(ring, turn);
    ret, written, t := FinishTry(ring, innerEvents, n, turn, slots, out);
  }

  // The write, when the consumer has had its turn.
  method FinishTry(ring: MidiSharedRing, innerEvents: seq<InnerEvent>, n: nat, ghost turn: Turn,
                   ghost slots: seq<Slot>, ghost out: seq<Event>)
    returns (ret: Status, written: nat, ghost t: Try)
    requires ring.Valid() && n < |innerEvents| && out == Takes(ring.capacity, turn.drain, slots)
    requires Took(slots, out, ring.Slots())
    requires ring.capacity > HEADER_BYTES ==> FoundAt(ring, turn, slots)
    modifies ring.mem, ring`writePosition
    ensures ring.Valid() && n + written <= |innerEvents|
    ensures ret == if ring.capacity <= HEADER_BYTES then SHM_BROKEN
                   else if n + written == |innerEvents| then OK else WOULD_BLOCK
    ensures ret == WOULD_BLOCK ==> ring.Refused(innerEvents[n + written])
    ensures Tried(ring.capacity, innerEvents, turn, t) && t.slots == slots && t.slots' == ring.Slots()
    ensures t.written == n && t.written' == n + written
  {
    ghost var rest, read, write := ring.Slots(), ring.readPosition, ring.writePosition;
    ret, written := WriteRest(ring, innerEvents, n);
    t := Try(slots, n, out, rest, read, write, ring.Slots(), n + written);
  }

  // What the consumer's turn leaves.
  ghost predicate FoundAt(ring: MidiSharedRing, turn: Turn, slots: seq<Slot>)
    requires ring.Valid()
    reads ring, ring.mem
  {
    && ring.readPosition % 8 == 0 && ring.readPosition < ring.capacity
    && (ring.Slots() == [] ==> EmptyAt(ring.capacity, ring.readPosition, ring.writePosition))
    && (turn.drain == Some(0) && Live(slots) ==> ring.Slots() == [])
  }

  method TakeTurn(ring: MidiSharedRing, turn: Turn) returns (out: seq<Event>)
    requires ring.Valid()
    modifies ring`readPosition
    ensures ring.Valid() && Took(old(ring.Slots()), out, ring.Slots())
    ensures out == Takes(ring.capacity, turn.drain, old(ring.Slots()))
    ensures ring.capacity > HEADER_BYTES ==> FoundAt(ring, turn, old(ring.Slots()))
  {
    out := Consume(ring, turn.drain);
    NothingAt(ring);
  }

  method WriteRest(ring: MidiSharedRing, innerEvents: seq<InnerEvent>, n: nat) returns (ret: Status, written: nat)
    requires ring.Valid() && n < |innerEvents|
    modifies ring.mem, ring`writePosition
    ensures ring.Valid() && n + written <= |innerEvents|
    ensures ret == if ring.capacity <= HEADER_BYTES then SHM_BROKEN
                   else if n + written == |innerEvents| then OK else WOULD_BLOCK
    ensures ret == WOULD_BLOCK ==> ring.Refused(innerEvents[n + written])
    ensures Wrote(ring.capacity, innerEvents, n, n + written, ring.readPosition, old(ring.writePosition),
                  old(ring.Slots()), ring.Slots())
  {
    ghost var slots, added := ring.Slots(), [];
    ret, written, added := ring.TryWriteEvents(Some(innerEvents[n..]), |innerEvents| - n);
    assert ring.Slots() == slots + added;
    assert innerEvents[n..][..written] == innerEvents[n..n + written];
  }

  lemma NothingAt(ring: MidiSharedRing)
    requires ring.Valid()
    ensures ring.capacity > HEADER_BYTES ==>
              && ring.readPosition % 8 == 0 && ring.readPosition < ring.capacity
              && (ring.Slots() == [] ==> EmptyAt(ring.capacity, ring.readPosition, ring.writePosition))
  {
    ChainHead(ring.mem[..], ring.end, ring.readPosition / 8, ring.writePosition / 8);
  }

  method Consume(ring: MidiSharedRing, drain: Option<nat>) returns (out: seq<Event>)
    requires ring.Valid()
    modifies ring`readPosition
    ensures ring.Valid() && Took(old(ring.Slots()), out, ring.Slots())
    ensures out == Takes(ring.capacity, drain, old(ring.Slots()))
    ensures ring.capacity > HEADER_BYTES && drain == Some(0) && Live(old(ring.Slots())) ==> ring.Slots() == []
  {
    out := [];
    ghost var slots := ring.Slots();
    if drain.Some? {
      out := ring.DrainToBatch(drain.value);
    }
    if ring.capacity > HEADER_BYTES && drain == Some(0) && Live(slots) {
      LiveReadsAll(slots);
      NothingLeft(ring.Slots());
    } else if out == [] {
      NothingTaken(slots);
    }
  }

  lemma NothingLeft(slots: seq<Slot>)
    requires Live(slots) && Events(slots) == [] && !AtMarker(slots)
    ensures slots == []
  {
  }

  lemma NothingTaken(slots: seq<Slot>)
    ensures Took(slots, [], slots)
  {
    assert [] + Events(slots) == Events(slots) && [] + Readables(slots) == Readables(slots);
  }

  lemma OneDrained(before: seq<Event>, queue: seq<Event>, queue': seq<Event>, taken: seq<Event>, out: seq<Event>,
                sent: seq<Event>)
    requires Delivered(before, queue, taken, sent) && queue == out + queue'
    ensures Delivered(before, queue', taken + out, sent)
  {
    assert taken + (out + queue') == taken + out + queue';
  }

  lemma Extended(before: seq<Event>, queue: seq<Event>, taken: seq<Event>, events: seq<InnerEvent>, i: nat, n: nat)
    requires i + n <= |events| && Delivered(before, queue, taken, EventsOf(events[..i]))
    ensures Delivered(before, queue + EventsOf(events[i..][..n]), taken, EventsOf(events[..i + n]))
  {
    var more := EventsOf(events[i..][..n]);
    assert EventsOf(events[..i + n]) == EventsOf(events[..i]) + more;
    assert taken + (queue + more) == (taken + queue) + more;
  }

  function Payloads(events: seq<Event>): seq<Packet> {
    seq(|events|, i requires 0 <= i < |events| => events[i].data)
  }

  // From data to ring: on success, what was appended unpacks to the data; otherwise to a prefix of it. How
  // it ended is seen from the tries, and after a timeout the ring has no room for one more packet.
  method SendSysEx(ring: Option<MidiSharedRing>, portIndex: nat, data: Option<seq<byte>>, turns: seq<Turn>)
    returns (status: SendStatus, ghost sent: seq<Event>, ghost taken: seq<Event>, ghost tries: seq<Try>)
    requires ring.Some? ==> ring.value.Valid()
    modifies if ring.Some? then {ring.value, ring.value.mem} else {}
    ensures var accepted := data.Some? && 0 < |data.value| <= MAX_SYSEX_BYTE_SIZE && ring.Some?;
            if !accepted then status == INVALID
            else if portIndex >= PORT_GROUP_RANGE then status == INVALID_PORT
            else
              && ring.value.Valid() && status in {SENT, TIMEOUT, SYSTEM_ERROR}
              && Delivered(old(ring.value.Queue()), ring.value.Queue(), taken, sent)
              && (forall e <- sent :: e.timestamp == 0 && |e.data| == 2)
              && Assembled(Payloads(sent)) <= data.value
              && (status == SENT <==> Assembled(Payloads(sent)) == data.value)
              && Ended(ring.value.capacity, EventsOfPackets(Prepared(portIndex, data.value)), turns,
                       old(ring.value.Slots()), tries, status)
              && (status == TIMEOUT && turns != [] ==> NoRoomForPacket(ring.value))
              && (Drained(ring.value.capacity, turns, tries) && |turns| >= PacketCount(|data.value|) ==> status == SENT)
  {
    sent, taken, tries := [], [], [];
    if data.None? || |data.value| == 0 || |data.value| > MAX_SYSEX_BYTE_SIZE || ring.None? {
      return INVALID, sent, taken, tries;
    }
    if portIndex >= PORT_GROUP_RANGE {
      return INVALID_PORT, sent, taken, tries;
    }
    status, sent, taken, tries := SendAccepted(ring.value, portIndex, data.value, turns);
  }

  // Not one more packet of two words fits.
  ghost predicate NoRoomForPacket(ring: MidiSharedRing)
    reads ring
  {
    ring.capacity <= RecordBytes(2) || !Fits(ring.capacity, ring.readPosition, ring.writePosition, RecordBytes(2))
  }

  method SendAccepted(ring: MidiSharedRing, g: group, data: seq<byte>, turns: seq<Turn>)
    returns (status: SendStatus, ghost sent: seq<Event>, ghost taken: seq<Event>, ghost tries: seq<Try>)
    requires ring.Valid() && data != []
    modifies ring.mem, ring`readPosition, ring`writePosition
    ensures ring.Valid() && status in {SENT, TIMEOUT, SYSTEM_ERROR}
    ensures Delivered(old(ring.Queue()), ring.Queue(), taken, sent)
    ensures forall e <- sent :: e.timestamp == 0 && |e.data| == 2
    ensures Assembled(Payloads(sent)) <= data && (status == SENT <==> Assembled(Payloads(sent)) == data)
    ensures Ended(ring.capacity, EventsOfPackets(Prepared(g, data)), turns, old(ring.Slots()), tries, status)
    ensures status == TIMEOUT && turns != [] ==> NoRoomForPacket(ring)
    ensures Drained(ring.capacity, turns, tries) && |turns| >= PacketCount(|data|) ==> status == SENT
  {
    var innerEvents := PrepareSysExPackets(g, data);
    PreparationIsLossless(g, data);
    status, sent, taken, tries := SendPrepared(ring, innerEvents, Prepared(g, data), Chunks(data), turns);
  }

  method SendPrepared(ring: MidiSharedRing, innerEvents: seq<InnerEvent>, ghost ps: seq<Packet>,
                      ghost chunks: seq<seq<byte>>, turns: seq<Turn>)
    returns (status: SendStatus, ghost sent: seq<Event>, ghost taken: seq<Event>, ghost tries: seq<Try>)
    requires ring.Valid() && innerEvents == EventsOfPackets(ps)
    requires (forall p <- ps :: |p| == 2) && AllUnpacked(ps) == chunks && forall c <- chunks :: c != []
    modifies ring.mem, ring`readPosition, ring`writePosition
    ensures ring.Valid() && status in {SENT, TIMEOUT, SYSTEM_ERROR}
    ensures Delivered(old(ring.Queue()), ring.Queue(), taken, sent)
    ensures forall e <- sent :: e.timestamp == 0 && |e.data| == 2
    ensures Assembled(Payloads(sent)) <= Concat(chunks)
    ensures status == SENT <==> Assembled(Payloads(sent)) == Concat(chunks)
    ensures Ended(ring.capacity, innerEvents, turns, old(ring.Slots()), tries, status)
    ensures status == TIMEOUT && turns != [] ==> NoRoomForPacket(ring)
    ensures Drained(ring.capacity, turns, tries) && |turns| >= |ps| ==> status == SENT
  {
    ghost var written;
    status, written, taken, tries := SendSysExPackets(ring, innerEvents, turns);
    sent := EventsOf(innerEvents[..written]);
    SentPrefix(ps, chunks, written);
    PacketsAreSmall(ps);
    WhenDrained(ring.capacity, innerEvents, turns, old(ring.Slots()), tries, status);
  }

  lemma PacketsAreSmall(ps: seq<Packet>)
    requires forall p <- ps :: |p| == 2
    ensures SmallEvents(EventsOfPackets(ps))
    ensures forall event <- EventsOfPackets(ps) :: event.data.Some? && |event.data.value| == 2
  {
  }

  lemma WhenDrained(capacity: nat, events: seq<InnerEvent>, turns: seq<Turn>, slots: seq<Slot>, tries: seq<Try>,
                    status: SendStatus)
    requires Ended(capacity, events, turns, slots, tries, status) && status in {SENT, TIMEOUT, SYSTEM_ERROR}
    requires SmallEvents(events)
    ensures Drained(capacity, turns, tries) && |turns| >= |events| ==> status == SENT
  {
    if Drained(capacity, turns, tries) && |turns| >= |events| {
      DrainedTriesSend(capacity, events, turns, slots, tries, status);
    }
  }

  // ---------- When everything gets out ----------

  // In a ring with room for two packets the consumer takes all it can at every turn, no wait fails, and
  // the headers are live at every try.
  ghost predicate Drained(capacity: nat, turns: seq<Turn>, tries: seq<Try>) {
    && capacity >= 64 && capacity % 8 == 0
    && (forall turn <- turns :: turn.drain == Some(0) && turn.wait in {FUTEX_SUCCESS, FUTEX_TIMEOUT})
    && forall t <- tries :: Live(t.slots)
  }

  ghost predicate SmallEvents(events: seq<InnerEvent>) {
    forall event <- events :: event.data.Some? && |event.data.value| <= 2
  }

  lemma EmptyHasRoom(capacity: nat, r: nat, w: nat, total: nat)
    requires capacity >= 64 && capacity % 8 == 0 && 0 < total <= 32 && total % 8 == 0
    requires r % 8 == 0 && r < capacity && EmptyAt(capacity, r, w)
    ensures Fits(capacity, r, w, total)
  {
    if r == w {
      EmptyRingTakes(capacity, total);
    }
  }

  // Then every try writes something, so as many tries as there are events write them all.
  lemma {:induction false} EachTryWrites(capacity: nat, events: seq<InnerEvent>, turns: seq<Turn>, slots: seq<Slot>,
                                         tries: seq<Try>)
    requires Tries(capacity, events, turns, slots, tries) && Drained(capacity, turns, tries) && SmallEvents(events)
    ensures WrittenBy(tries) >= |tries| || WrittenBy(tries) == |events|
    decreases |tries|
  {
    if tries != [] {
      var init, t, k := tries[..|tries| - 1], tries[|tries| - 1], |tries| - 1;
      assert t in tries && turns[k] in turns && forall x <- init :: x in tries;
      FewerTries(capacity, events, turns, slots, tries);
      EachTryWrites(capacity, events, turns, slots, init);
      if t.written < |events| {
        var rest := events[t.written..];
        assert rest[0] in events;
        EmptyHasRoom(capacity, t.read, t.write, RecordBytes(|rest[0].data.value|));
      }
    }
  }

  lemma DrainedTriesSend(capacity: nat, events: seq<InnerEvent>, turns: seq<Turn>, slots: seq<Slot>,
                         tries: seq<Try>, status: SendStatus)
    requires Ended(capacity, events, turns, slots, tries, status) && Drained(capacity, turns, tries)
    requires SmallEvents(events) && |turns| >= |events| && status in {SENT, TIMEOUT, SYSTEM_ERROR}
    ensures status == SENT
  {
    EachTryWrites(capacity, events, turns, slots, tries);
    if tries != [] {
      assert turns[|tries| - 1] in turns;
    }
  }

  lemma SentAre(ps: seq<Packet>, written: nat)
    requires written <= |ps| && forall p <- ps :: |p| == 2
    ensures var sent := EventsOf(EventsOfPackets(ps)[..written]);
            Payloads(sent) == ps[..written] && forall e <- sent :: e.timestamp == 0 && |e.data| == 2
  {
  }

  // What a prefix of the packets holds: nothing but the front of what they all hold.
  lemma SentPrefix(ps: seq<Packet>, chunks: seq<seq<byte>>, written: nat)
    requires written <= |ps| && (forall p <- ps :: |p| == 2)
    requires AllUnpacked(ps) == chunks && forall c <- chunks :: c != []
    ensures var sent := EventsOf(EventsOfPackets(ps)[..written]);
            && (forall e <- sent :: e.timestamp == 0 && |e.data| == 2)
            && Assembled(Payloads(sent)) <= Concat(chunks)
            && (Assembled(Payloads(sent)) == Concat(chunks) <==> written == |ps|)
  {
    SentAre(ps, written);
    assert AllUnpacked(ps[..written]) == chunks[..written];
    ConcatPrefix(chunks, written);
  }

  lemma {:induction false} ConcatPrefix(chunks: seq<seq<byte>>, n: nat)
    requires n <= |chunks| && forall c <- chunks :: c != []
    ensures Concat(chunks[..n]) <= Concat(chunks) && (Concat(chunks[..n]) == Concat(chunks) <==> n == |chunks|)
    decreases |chunks|
  {
    if n < |chunks| {
      var init := chunks[..|chunks| - 1];
      assert forall c <- init :: c in chunks;
      ConcatPrefix(init, n);
      assert init[..n] == chunks[..n] && chunks[|chunks| - 1] in chunks;
    } else {
      assert chunks[..n] == chunks;
    }
  }
}
