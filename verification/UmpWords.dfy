/** Universal MIDI Packets as 32-bit words. The source assembles words with shifts and ORs over
    disjoint bit fields, which is addition; reading a field is division and remainder. */
module UmpWords {
  import opened Words

  type Packet = seq<word>

  const MT_SYSTEM := 0x1
  const MT_CHANNEL := 0x2
  const MT_DATA := 0x3

  // [MT:4][Group:4][b2:8][b1:8][b0:8]
  function Word0(mt: int, group: int, b2: byte, b1: byte, b0: byte): word
    requires 0 <= mt < 16 && 0 <= group < 16
  {
    mt * 0x1000_0000 + group * 0x100_0000 + b2 * 0x1_0000 + b1 * 0x100 + b0
  }

  function Word1(b3: byte, b2: byte, b1: byte, b0: byte): word {
    b3 * 0x100_0000 + b2 * 0x1_0000 + b1 * 0x100 + b0
  }

  function MessageType(w: word): (mt: int)
    ensures 0 <= mt < 16
  {
    w / 0x1000_0000
  }

  function Group(w: word): (group: int)
    ensures 0 <= group < 16
  {
    w / 0x100_0000 % 16
  }

  function Byte3(w: word): byte { w / 0x100_0000 }
  function Byte2(w: word): byte { w / 0x1_0000 % 0x100 }
  function Byte1(w: word): byte { w / 0x100 % 0x100 }
  function Byte0(w: word): byte { w % 0x100 }

  lemma Word0Fields(mt: int, group: int, b2: byte, b1: byte, b0: byte)
    requires 0 <= mt < 16 && 0 <= group < 16
    ensures var w := Word0(mt, group, b2, b1, b0);
            MessageType(w) == mt && Group(w) == group && Byte2(w) == b2 && Byte1(w) == b1 && Byte0(w) == b0
  {
    var w := Word0(mt, group, b2, b1, b0);
    assert w / 0x100 == mt * 0x10_0000 + group * 0x1_0000 + b2 * 0x100 + b1;
    assert w / 0x1_0000 == mt * 0x1000 + group * 0x100 + b2;
    assert w / 0x100_0000 == mt * 0x10 + group;
  }

  lemma Word1Fields(b3: byte, b2: byte, b1: byte, b0: byte)
    ensures var w := Word1(b3, b2, b1, b0);
            Byte3(w) == b3 && Byte2(w) == b2 && Byte1(w) == b1 && Byte0(w) == b0
  {
    var w := Word1(b3, b2, b1, b0);
    assert w / 0x100 == b3 * 0x1_0000 + b2 * 0x100 + b1;
    assert w / 0x1_0000 == b3 * 0x100 + b2;
  }

  // Words per packet by message type. Every entry is positive, so the "unknown type" answer 0 that
  // callers provide for never occurs.
  const UMP_WORD_COUNT: seq<nat> := [1, 1, 1, 2, 2, 4, 1, 1, 2, 2, 2, 3, 3, 4, 4, 4]

  // The size by type, and for flex data by format: 32, 64, 96 or 128 bits.
  function WordsOfType(mt: int, format: int): nat {
    if mt <= 0x2 || mt in {0x6, 0x7} then 1
    else if mt in {0x3, 0x4} || 0x8 <= mt <= 0xA || (mt == 0xD && format < 8) then 2
    else if mt in {0xB, 0xC} then 3
    else 4
  }

  function GetUmpWordCount(word0: word): (count: nat)
    ensures 1 <= count <= 4 && count == WordsOfType(MessageType(word0), word0 / 0x10_0000 % 16)
  {
    var mt := MessageType(word0);
    if mt == 0xD then
      var format := word0 / 0x10_0000 % 16;
      if format < 8 then 2 else 4
    else UMP_WORD_COUNT[mt]
  }

  // ---------- Packet lists and word streams ----------

  ghost predicate Framed(p: Packet) {
    p != [] && |p| == GetUmpWordCount(p[0])
  }

  ghost predicate AllFramed(ps: seq<Packet>) {
    forall p <- ps :: Framed(p)
  }

  function Join(ps: seq<Packet>): seq<word> {
    if ps == [] then [] else ps[0] + Join(ps[1..])
  }

  lemma {:induction false} JoinAppend(a: seq<Packet>, b: seq<Packet>)
    ensures Join(a + b) == Join(a) + Join(b)
  {
    if a == [] {
      assert a + b == b;
    } else {
      assert (a + b)[1..] == a[1..] + b;
      JoinAppend(a[1..], b);
    }
  }

  lemma Associate(a: seq<Packet>, b: seq<Packet>, c: seq<Packet>)
    ensures a + (b + c) == a + b + c
  {
  }

  // The complete packets at the front of a word stream.
  ghost function Split(words: seq<word>): seq<Packet> {
    if words == [] || |words| < GetUmpWordCount(words[0]) then []
    else [words[..GetUmpWordCount(words[0])]] + Split(words[GetUmpWordCount(words[0])..])
  }

  // The words of an incomplete packet at the end of a word stream.
  ghost function Rest(words: seq<word>): seq<word> {
    if words == [] || |words| < GetUmpWordCount(words[0]) then words
    else Rest(words[GetUmpWordCount(words[0])..])
  }

  lemma SplitFirst(p: Packet, words: seq<word>)
    requires Framed(p)
    ensures Split(p + words) == [p] + Split(words) && Rest(p + words) == Rest(words)
  {
    assert (p + words)[0] == p[0] && (p + words)[..|p|] == p && (p + words)[|p|..] == words;
  }

  lemma {:induction false} SplitIsExact(words: seq<word>)
    ensures words == Join(Split(words)) + Rest(words) && AllFramed(Split(words))
    ensures Rest(words) != [] ==> |Rest(words)| < GetUmpWordCount(Rest(words)[0])
  {
    if words != [] && |words| >= GetUmpWordCount(words[0]) {
      var p, words' := words[..GetUmpWordCount(words[0])], words[GetUmpWordCount(words[0])..];
      SplitIsExact(words');
      SplitFirst(p, words');
      assert words == p + words';
      assert p + (Join(Split(words')) + Rest(words')) == p + Join(Split(words')) + Rest(words');
    }
  }

  lemma {:induction false} SplitInvertsJoin(ps: seq<Packet>)
    requires AllFramed(ps)
    ensures Split(Join(ps)) == ps && Rest(Join(ps)) == []
  {
    if ps != [] {
      assert Framed(ps[0]);
      SplitInvertsJoin(ps[1..]);
      SplitFirst(ps[0], Join(ps[1..]));
      assert ps == [ps[0]] + ps[1..];
    }
  }

  lemma SplitFrom(data: seq<word>, offset: nat)
    requires offset < |data|
    ensures var next := offset + GetUmpWordCount(data[offset]);
            Split(data[offset..]) ==
            if next > |data| then [] else [data[offset..next]] + Split(data[next..])
  {
    var next := offset + GetUmpWordCount(data[offset]);
    if next <= |data| {
      assert data[offset..] == data[offset..next] + data[next..];
      SplitFirst(data[offset..next], data[next..]);
    }
  }

  method SplitUmpPackets(data: seq<word>) returns (outPackets: seq<Packet>)
    ensures outPackets == Split(data)
  {
    outPackets := [];
    assert data[0..] == data && [] + Split(data) == Split(data);
    ghost var rest := Split(data);
    var offset := 0;
    while offset < |data|
      invariant 0 <= offset <= |data| && rest == Split(data[offset..])
      invariant Split(data) == outPackets + rest
    {
      SplitFrom(data, offset);
      var pktLen := GetUmpWordCount(data[offset]);
      if offset + pktLen > |data| {
        break;
      }
      var packet := data[offset .. offset + pktLen];
      rest := Split(data[offset + pktLen..]);
      Associate(outPackets, [packet], rest);
      outPackets := outPackets + [packet];
      offset := offset + pktLen;
    }
    assert outPackets + [] == outPackets;
  }
}
