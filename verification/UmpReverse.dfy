/** Packets back to MIDI 1.0 bytes. `active` tells whether a multi-packet system exclusive message
    has been started and not ended. */
module UmpReverse {
  import opened Words
  import opened UmpWords
  import opened UmpParser

  datatype Rev = Rev(active: bool, bytes: seq<byte>)

  function SystemBytes(w: word): seq<byte> {
    var status := Byte2(w);
    if status == 0xF1 || status == 0xF3 then [status, Byte1(w)]
    else if status == 0xF2 then [status, Byte1(w), Byte0(w)]
    else if status == 0xF6 || status >= REALTIME_START then [status]
    else []
  }

  function ChannelBytes(w: word): seq<byte> {
    var status := Byte2(w);
    if status / 16 == 0xC || status / 16 == 0xD then [status, Byte1(w)]
    else [status, Byte1(w), Byte0(w)]
  }

  // The data bytes a system exclusive packet announces, at most six of them.
  function DataBytes(w0: word, w1: word): seq<byte> {
    var count := Byte2(w0) % 16;
    [Byte1(w0), Byte0(w0), Byte3(w1), Byte2(w1), Byte1(w1), Byte0(w1)][..if count <= 6 then count else 6]
  }

  function DataMessageBytes(w0: word, w1: word, active: bool): Rev {
    var status, data := Byte2(w0) / 16, DataBytes(w0, w1);
    if status == COMPLETE then Rev(false, [SYSEX_START] + data + [SYSEX_END])
    else if status == START then Rev(true, [SYSEX_START] + data)
    else if status == CONTINUE then Rev(active, if active then data else [])
    else if status == END then Rev(false, data + [SYSEX_END])
    else Rev(false, [])
  }

  // One packet, given its first two words; types other than 1, 2 and 3 are passed over.
  function PacketBytes(w0: word, w1: word, active: bool): Rev {
    if MessageType(w0) == MT_SYSTEM then Rev(active, SystemBytes(w0))
    else if MessageType(w0) == MT_CHANNEL then Rev(active, ChannelBytes(w0))
    else if MessageType(w0) == MT_DATA then DataMessageBytes(w0, w1, active)
    else Rev(active, [])
  }

  function Advance(words: seq<word>): (n: nat)
    requires words != []
    ensures 1 <= n <= |words|
  {
    if GetUmpWordCount(words[0]) <= |words| then GetUmpWordCount(words[0]) else |words|
  }

  // A whole word stream. A data packet whose second word is missing is read as if it were 0.
  function FromUmp(words: seq<word>, active: bool): Rev
    decreases |words|
  {
    if words == [] then Rev(active, [])
    else
      var first := PacketBytes(words[0], if |words| > 1 then words[1] else 0, active);
      var rest := FromUmp(words[Advance(words)..], first.active);
      Rev(rest.active, first.bytes + rest.bytes)
  }

  // The words from position i on; i may lie beyond the end.
  function Onwards(words: seq<word>, i: nat): seq<word> {
    if i <= |words| then words[i..] else []
  }

  // `output` already came out and word i is next: the same bytes come out in the end.
  ghost predicate OnTheWay(words: seq<word>, i: nat, now: Rev, end: Rev) {
    var rest := FromUmp(Onwards(words, i), now.active);
    end == Rev(rest.active, now.bytes + rest.bytes)
  }

  lemma OnePacketOn(words: seq<word>, i: nat, now: Rev, end: Rev)
    requires i < |words| && OnTheWay(words, i, now, end)
    ensures var first := PacketBytes(words[i], if i + 1 < |words| then words[i + 1] else 0, now.active);
            OnTheWay(words, i + GetUmpWordCount(words[i]), Rev(first.active, now.bytes + first.bytes), end)
  {
    var tail, next := words[i..], i + GetUmpWordCount(words[i]);
    var first := PacketBytes(words[i], if i + 1 < |words| then words[i + 1] else 0, now.active);
    assert tail[Advance(tail)..] == Onwards(words, next);
    AssociateBytes(now.bytes, first.bytes, FromUmp(Onwards(words, next), first.active).bytes);
  }

  function FromPackets(ps: seq<Packet>, active: bool): Rev
    decreases |ps|
  {
    if ps == [] then Rev(active, [])
    else
      var first := FromUmp(ps[0], active);
      var rest := FromPackets(ps[1..], first.active);
      Rev(rest.active, first.bytes + rest.bytes)
  }

  lemma FromUmpFirst(p: Packet, words: seq<word>, active: bool)
    requires Framed(p)
    ensures var first := FromUmp(p, active);
            FromUmp(p + words, active) ==
            Rev(FromUmp(words, first.active).active, first.bytes + FromUmp(words, first.active).bytes)
  {
    assert (p + words)[0] == p[0] && (p + words)[|p|..] == words && p[|p|..] == [];
    assert |p| > 1 ==> (p + words)[1] == p[1];
    if |p| == 1 {
      assert MessageType(p[0]) != MT_DATA;
    }
    var bytes := PacketBytes(p[0], if |p| > 1 then p[1] else 0, active).bytes;
    assert bytes + [] == bytes;
  }

  // Reading a stream word by word is reading its complete packets one by one, then whatever
  // incomplete packet is left at the end.
  lemma {:induction false} StreamIsPackets(words: seq<word>, active: bool)
    ensures var whole, tail := FromPackets(Split(words), active), Rest(words);
            var last := FromUmp(tail, whole.active);
            FromUmp(words, active) == Rev(last.active, whole.bytes + last.bytes)
    decreases |words|
  {
    if words == [] || |words| < GetUmpWordCount(words[0]) {
      assert [] + FromUmp(words, active).bytes == FromUmp(words, active).bytes;
    } else {
      var n := GetUmpWordCount(words[0]);
      var p, words' := words[..n], words[n..];
      assert words == p + words';
      SplitFirst(p, words');
      FromUmpFirst(p, words', active);
      var first := FromUmp(p, active);
      StreamIsPackets(words', first.active);
      var whole := FromPackets(Split(words'), first.active);
      AssociateBytes(first.bytes, whole.bytes, FromUmp(Rest(words'), whole.active).bytes);
    }
  }

  lemma AssociateBytes(a: seq<byte>, b: seq<byte>, c: seq<byte>)
    ensures a + (b + c) == a + b + c
  {
  }

  lemma {:induction false} FromPacketsAppend(a: seq<Packet>, b: seq<Packet>, active: bool)
    ensures var first := FromPackets(a, active);
            FromPackets(a + b, active) ==
            Rev(FromPackets(b, first.active).active, first.bytes + FromPackets(b, first.active).bytes)
    decreases |a|
  {
    if a == [] {
      assert a + b == b;
      assert [] + FromPackets(b, active).bytes == FromPackets(b, active).bytes;
    } else {
      assert (a + b)[1..] == a[1..] + b;
      var one := FromUmp(a[0], active);
      FromPacketsAppend(a[1..], b, one.active);
      var mid := FromPackets(a[1..], one.active);
      AssociateBytes(one.bytes, mid.bytes, FromPackets(b, mid.active).bytes);
    }
  }

  lemma FromUmpOne(p: Packet, active: bool)
    requires Framed(p)
    ensures FromUmp(p, active) == PacketBytes(p[0], if |p| > 1 then p[1] else 0, active)
  {
    var bytes := PacketBytes(p[0], if |p| > 1 then p[1] else 0, active).bytes;
    assert p[|p|..] == [] && bytes + [] == bytes;
  }

  lemma FromPacketsOne(p: Packet, active: bool)
    ensures FromPackets([p], active) == FromUmp(p, active)
  {
    var one := FromUmp(p, active);
    assert [p][1..] == [] && one.bytes + [] == one.bytes;
  }

  // The words of well-formed packets, joined and read as a stream, give what the packets give.
  lemma JoinedPackets(ps: seq<Packet>, active: bool)
    requires AllFramed(ps)
    ensures FromUmp(Join(ps), active) == FromPackets(ps, active)
  {
    SplitInvertsJoin(ps);
    StreamIsPackets(Join(ps), active);
    var whole := FromPackets(ps, active);
    assert whole.bytes + [] == whole.bytes;
  }

  // Packets of the types that have no MIDI 1.0 form, whatever their words hold, give nothing and leave
  // what follows as it is.
  lemma PassedOver(p: Packet, words: seq<word>, active: bool)
    requires Framed(p) && MessageType(p[0]) !in {MT_SYSTEM, MT_CHANNEL, MT_DATA}
    ensures FromUmp(p + words, active) == FromUmp(words, active)
  {
    FromUmpFirst(p, words, active);
    FromUmpOne(p, active);
    assert [] + FromUmp(words, active).bytes == FromUmp(words, active).bytes;
  }

  // So a two-word MIDI 2.0 channel message is skipped with its value.
  lemma Midi2IsPassedOver(w0: word, w1: word, words: seq<word>, active: bool)
    requires MessageType(w0) == 0x4
    ensures FromUmp([w0, w1] + words, active) == FromUmp(words, active)
  {
    PassedOver([w0, w1], words, active);
  }

  // A data packet gives at most six data bytes however many it announces; a CONTINUE gives nothing outside
  // an open message, and any status but START and an accepted CONTINUE leaves no message open.
  lemma DataPacketBounds(w0: word, w1: word, active: bool)
    ensures var status, r := Byte2(w0) / 16, DataMessageBytes(w0, w1, active);
            && |DataBytes(w0, w1)| <= 6 && (Byte2(w0) % 16 <= 6 ==> |DataBytes(w0, w1)| == Byte2(w0) % 16)
            && |r.bytes| <= 8
            && (status == CONTINUE && !active ==> r == Rev(false, []))
            && (r.active <==> status == START || (status == CONTINUE && active))
            && (status > END ==> r.bytes == [])
  {
  }

  // A packet cut off at the end of the stream: a data packet without its second word is read as if that
  // were 0, any other type that needs more words gives nothing.
  lemma CutOff(w0: word, active: bool)
    requires GetUmpWordCount(w0) > 1
    ensures FromUmp([w0], active) ==
            if MessageType(w0) == MT_DATA then FromUmp([w0, 0], active) else Rev(active, [])
  {
    if MessageType(w0) == MT_DATA {
      FromUmpOne([w0, 0], active);
    }
  }
}
