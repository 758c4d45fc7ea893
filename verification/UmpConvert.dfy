/** Conversion of channel voice packets between the MIDI 1.0 and MIDI 2.0 protocols. */
module UmpConvert {
  import opened Words
  import opened UmpWords

  const MT_MIDI2_CHANNEL := 0x4

  const STATUS_NOTE_OFF := 0x8
  const STATUS_NOTE_ON := 0x9
  const STATUS_POLY_PRESSURE := 0xA
  const STATUS_CC := 0xB
  const STATUS_PROGRAM := 0xC
  const STATUS_CH_PRESSURE := 0xD
  const STATUS_PITCH_BEND := 0xE

  const STEP_7 := 0x200_0000  // 2^25: between neighbouring 7-bit values
  const STEP_14 := 0x4_0000   // 2^18: between neighbouring 14-bit values

  datatype Direction = Midi1ToMidi2 | Midi2ToMidi1

  // ---------- Scaling ----------

  function U7ToU32(v7: int): word
    requires 0 <= v7 < 0x80
  {
    v7 * STEP_7
  }

  function U14ToU32(v14: int): word
    requires 0 <= v14 < 0x4000
  {
    v14 * STEP_14
  }

  // The rounding addition is a 32-bit one and wraps.
  function U32ToU7(v32: word): (v7: int)
    ensures 0 <= v7 < 0x80
  {
    (v32 + STEP_7 / 2) % TWO_32 / STEP_7
  }

  function U32ToU14(v32: word): (v14: int)
    ensures 0 <= v14 < 0x4000
  {
    (v32 + STEP_14 / 2) % TWO_32 / STEP_14
  }

  function Distance(a: int, b: int): nat {
    if a < b then b - a else a - b
  }

  // Rounding is to a nearest value, hence off by half a step at most, exactly below the value at
  // which the addition wraps.
  lemma U32ToU7IsNearest(v: word)
    ensures v < TWO_32 - STEP_7 / 2 <==> Distance(U7ToU32(U32ToU7(v)), v) <= STEP_7 / 2
    ensures v < TWO_32 - STEP_7 / 2 <==>
            forall x :: 0 <= x < 0x80 ==> Distance(U7ToU32(U32ToU7(v)), v) <= Distance(U7ToU32(x), v)
  {
    if v >= TWO_32 - STEP_7 / 2 {
      assert U32ToU7(v) == 0;
      assert Distance(U7ToU32(0x7F), v) < Distance(U7ToU32(0), v);
    }
  }

  lemma U32ToU14IsNearest(v: word)
    ensures v < TWO_32 - STEP_14 / 2 <==> Distance(U14ToU32(U32ToU14(v)), v) <= STEP_14 / 2
    ensures v < TWO_32 - STEP_14 / 2 <==>
            forall x :: 0 <= x < 0x4000 ==> Distance(U14ToU32(U32ToU14(v)), v) <= Distance(U14ToU32(x), v)
  {
    if v >= TWO_32 - STEP_14 / 2 {
      assert U32ToU14(v) == 0;
      assert Distance(U14ToU32(0x3FFF), v) < Distance(U14ToU32(0), v);
    }
  }

  // Larger values are never rounded to smaller ones, except across the wrapping point: there always,
  // unless the smaller value is within half a step of 0 itself.
  lemma ScalingIsMonotone(v: word, v': word)
    requires v <= v'
    ensures U32ToU7(v) <= U32ToU7(v') <==>
            v' < TWO_32 - STEP_7 / 2 || v < STEP_7 / 2 || v >= TWO_32 - STEP_7 / 2
    ensures U32ToU14(v) <= U32ToU14(v') <==>
            v' < TWO_32 - STEP_14 / 2 || v < STEP_14 / 2 || v >= TWO_32 - STEP_14 / 2
  {
  }

  lemma WidenThenNarrow(v7: int, v14: int)
    requires 0 <= v7 < 0x80 && 0 <= v14 < 0x4000
    ensures U32ToU7(U7ToU32(v7)) == v7 && U32ToU14(U14ToU32(v14)) == v14
  {
  }

  // ---------- Channel voice messages ----------

  datatype Midi2ChannelVoiceMsg =
    Midi2(group: int, statusNibble: int, channel: int, data1: byte, data2: byte, value32: word)

  datatype Midi1ChannelVoiceMsg = Midi1(group: int, statusByte: byte, data1: byte, data2: byte)

  predicate IsChannelVoice(statusNibble: int) {
    STATUS_NOTE_OFF <= statusNibble <= STATUS_PITCH_BEND
  }

  function Midi2Packet(m: Midi2ChannelVoiceMsg): Packet {
    [Word0(MT_MIDI2_CHANNEL, m.group % 16, m.statusNibble % 16 * 16 + m.channel % 16, m.data1, m.data2), m.value32]
  }

  function Midi1Packet(m: Midi1ChannelVoiceMsg): Packet {
    [Word0(MT_CHANNEL, m.group % 16, m.statusByte, m.data1, m.data2)]
  }

  function ToMidi2Inner(m: Midi2ChannelVoiceMsg, data1: byte, data2: byte): Option<Midi2ChannelVoiceMsg> {
    var nibble := m.statusNibble;
    if nibble == STATUS_NOTE_OFF || nibble == STATUS_NOTE_ON || nibble == STATUS_POLY_PRESSURE then
      Some(m.(data1 := data1 % 0x80, data2 := 0, value32 := U7ToU32(data2 % 0x80)))
    else if nibble == STATUS_CC then Some(m.(data1 := data1, data2 := 0, value32 := U7ToU32(data2 % 0x80)))
    else if nibble == STATUS_PROGRAM then
      Some(m.(data1 := data1 % 0x80, data2 := 0, value32 := U7ToU32(data1 % 0x80)))
    else if nibble == STATUS_CH_PRESSURE then
      Some(m.(data1 := 0, data2 := 0, value32 := U7ToU32(data1 % 0x80)))
    else if nibble == STATUS_PITCH_BEND then
      Some(m.(data1 := 0, data2 := 0, value32 := U14ToU32(data2 % 0x80 * 0x80 + data1 % 0x80)))
    else None
  }

  function ToMidi1Inner(nibble: int, m: Midi1ChannelVoiceMsg, data1: byte, w1: word): Option<Midi1ChannelVoiceMsg> {
    if nibble == STATUS_NOTE_OFF || nibble == STATUS_NOTE_ON || nibble == STATUS_POLY_PRESSURE then
      Some(m.(data1 := data1 % 0x80, data2 := U32ToU7(w1)))
    else if nibble == STATUS_CC then Some(m.(data1 := data1, data2 := U32ToU7(w1)))
    else if nibble == STATUS_PROGRAM then Some(m.(data1 := data1 % 0x80, data2 := 0))
    else if nibble == STATUS_CH_PRESSURE then Some(m.(data1 := U32ToU7(w1), data2 := 0))
    else if nibble == STATUS_PITCH_BEND then
      Some(m.(data1 := U32ToU14(w1) % 0x80, data2 := U32ToU14(w1) / 0x80))
    else None
  }

  function ToMidi2(words: seq<word>): Option<seq<word>> {
    if |words| != 1 then None
    else
      var status := Byte2(words[0]);
      var m := Midi2(Group(words[0]), status / 16, status % 16, 0, 0, 0);
      match ToMidi2Inner(m, Byte1(words[0]), Byte0(words[0]))
      case None => None
      case Some(converted) => Some(Midi2Packet(converted))
  }

  function ToMidi1(words: seq<word>): Option<seq<word>> {
    if |words| != 2 then None
    else
      var nibble, channel := words[0] / 0x10_0000 % 16, words[0] / 0x1_0000 % 16;
      match ToMidi1Inner(nibble, Midi1(Group(words[0]), nibble * 16 + channel, 0, 0), Byte1(words[0]), words[1])
      case None => None
      case Some(converted) => Some(Midi1Packet(converted))
  }

  // What a conversion appends; None when the packet is dropped. System and data packets pass.
  function Converted(dir: Direction, words: seq<word>): Option<seq<word>> {
    if words == [] then None
    else
      var mt := MessageType(words[0]);
      if mt == MT_SYSTEM then (if |words| == 1 then Some(words) else None)
      else if mt == MT_DATA then (if |words| % 2 == 0 then Some(words) else None)
      else if dir.Midi1ToMidi2? then (if mt == MT_CHANNEL then ToMidi2(words) else None)
      else if mt == MT_MIDI2_CHANNEL then ToMidi1(words)
      else None
  }

  method ConvertOne(dir: Direction, inWords: Option<seq<word>>, outWords: seq<word>)
    returns (ok: bool, result: seq<word>)
    ensures inWords.None? ==> !ok && result == outWords
    ensures inWords.Some? ==>
              var converted := Converted(dir, inWords.value);
              ok == converted.Some? && result == outWords + if ok then converted.value else []
  {
    ok, result := false, outWords;
    assert outWords + [] == outWords;
    if inWords.None? || inWords.value == [] {
      return;
    }
    var words := inWords.value;
    var mt := MessageType(words[0]);
    if mt == MT_SYSTEM {
      if |words| != 1 {
        return;
      }
      return true, result + [words[0]];
    }
    if mt == MT_DATA {
      if |words| % 2 != 0 {
        return;
      }
      for i := 0 to |words|
        invariant result == outWords + words[..i]
      {
        assert words[..i + 1] == words[..i] + [words[i]];
        result := result + [words[i]];
      }
      assert words[..|words|] == words;
      return true, result;
    }
    var wanted := if dir.Midi1ToMidi2? then MT_CHANNEL else MT_MIDI2_CHANNEL;
    if mt != wanted {
      return;
    }
    var converted := if dir.Midi1ToMidi2? then ToMidi2(words) else ToMidi1(words);
    if converted.Some? {
      ok, result := true, result + converted.value;
    }
  }

  // ---------- There and back ----------

  // Data bytes are 7-bit values (a controller number may be any byte), an unused one is 0.
  predicate CanonicalData(nibble: int, data1: byte, data2: byte) {
    && (nibble == STATUS_CC || data1 < 0x80) && data2 < 0x80
    && (nibble == STATUS_PROGRAM || nibble == STATUS_CH_PRESSURE ==> data2 == 0)
  }

  predicate Canonical(w: word) {
    && MessageType(w) == MT_CHANNEL && IsChannelVoice(Byte2(w) / 16)
    && CanonicalData(Byte2(w) / 16, Byte1(w), Byte0(w))
  }

  lemma Word0OfFields(w: word)
    ensures w == Word0(MessageType(w), Group(w), Byte2(w), Byte1(w), Byte0(w))
  {
    Above1(w);
    Above2(w);
    Above3(w);
    Nested(w / 0x1000_0000, Group(w), Byte2(w), Byte1(w), Byte0(w));
    assert w == w / 0x100 * 0x100 + Byte0(w);
  }

  lemma Above1(w: word)
    ensures w / 0x100 == w / 0x1_0000 * 0x100 + Byte1(w)
  {
    assert w / 0x1_0000 == w / 0x100 / 0x100;
  }

  lemma Above2(w: word)
    ensures w / 0x1_0000 == w / 0x100_0000 * 0x100 + Byte2(w)
  {
    assert w / 0x100_0000 == w / 0x1_0000 / 0x100;
  }

  lemma Above3(w: word)
    ensures w / 0x100_0000 == w / 0x1000_0000 * 16 + Group(w)
  {
    assert w / 0x1000_0000 == w / 0x100_0000 / 16;
  }

  lemma Nested(a: int, b: int, c: int, d: int, e: int)
    ensures (((a * 16 + b) * 0x100 + c) * 0x100 + d) * 0x100 + e ==
            a * 0x1000_0000 + b * 0x100_0000 + c * 0x1_0000 + d * 0x100 + e
  {
  }

  // The status byte of a two-word packet, read as nibbles.
  lemma StatusNibbles(w: word)
    ensures w / 0x10_0000 % 16 == Byte2(w) / 16 && w / 0x1_0000 % 16 == Byte2(w) % 16
    ensures Byte2(w) == Byte2(w) / 16 * 16 + Byte2(w) % 16
  {
    assert w / 0x10_0000 == w / 0x1_0000 / 16;
    NibblesOf(w / 0x1_0000);
  }

  lemma NibblesOf(n: nat)
    ensures n / 16 % 16 == n % 0x100 / 16 && n % 16 == n % 0x100 % 16
  {
    var q, high, low := n / 0x100, n % 0x100 / 16, n % 0x100 % 16;
    assert n == (16 * q + high) * 16 + low;
    Digits(16 * q + high, low);
    Digits(q, high);
  }

  lemma Digits(q: nat, digit: nat)
    requires digit < 16
    ensures (q * 16 + digit) / 16 == q && (q * 16 + digit) % 16 == digit
  {
  }

  // The two conversions in terms of the data bytes alone: group and status byte are kept.
  function UpData(nibble: int, data1: byte, data2: byte): Option<Midi2ChannelVoiceMsg> {
    ToMidi2Inner(Midi2(0, nibble, 0, 0, 0, 0), data1, data2)
  }

  function DownData(nibble: int, data1: byte, w1: word): Option<Midi1ChannelVoiceMsg> {
    ToMidi1Inner(nibble, Midi1(0, 0, 0, 0), data1, w1)
  }

  lemma StatusParts(status: byte, group: int)
    requires 0 <= group < 16
    ensures status / 16 % 16 * 16 + status % 16 % 16 == status && group % 16 == group
  {
  }

  lemma UpFields(w: word)
    requires MessageType(w) == MT_CHANNEL
    ensures var m := UpData(Byte2(w) / 16, Byte1(w), Byte0(w));
            && m.Some? == IsChannelVoice(Byte2(w) / 16)
            && Converted(Midi1ToMidi2, [w]) ==
               if m.None? then None
               else Some([Word0(MT_MIDI2_CHANNEL, Group(w), Byte2(w), m.value.data1, 0), m.value.value32])
  {
    StatusParts(Byte2(w), Group(w));
  }

  lemma DownFields(w: word, w1: word)
    requires MessageType(w) == MT_MIDI2_CHANNEL
    ensures var m := DownData(Byte2(w) / 16, Byte1(w), w1);
            && m.Some? == IsChannelVoice(Byte2(w) / 16)
            && Converted(Midi2ToMidi1, [w, w1]) ==
               if m.None? then None
               else Some([Word0(MT_CHANNEL, Group(w), Byte2(w), m.value.data1, m.value.data2)])
  {
    StatusNibbles(w);
  }

  // Up and down again: always a canonical word, and the same word exactly when it was canonical.
  lemma UpAndDown(w: word)
    requires MessageType(w) == MT_CHANNEL
    ensures var up := Converted(Midi1ToMidi2, [w]);
            && up.Some? == IsChannelVoice(Byte2(w) / 16)
            && (up.Some? ==>
                  var down := Converted(Midi2ToMidi1, up.value);
                  && down.Some? && |down.value| == 1 && Canonical(down.value[0])
                  && (down.value == [w] <==> Canonical(w)))
  {
    UpFields(w);
    var nibble, group, status := Byte2(w) / 16, Group(w), Byte2(w);
    if IsChannelVoice(nibble) {
      var m := UpData(nibble, Byte1(w), Byte0(w)).value;
      Word0Fields(MT_MIDI2_CHANNEL, group, status, m.data1, 0);
      var up := Converted(Midi1ToMidi2, [w]).value;
      DownFields(up[0], up[1]);
      UpAndDownData(nibble, Byte1(w), Byte0(w));
      var m' := DownData(nibble, m.data1, m.value32).value;
      Word0Fields(MT_CHANNEL, group, status, m'.data1, m'.data2);
      Word0OfFields(w);
    }
  }

  lemma UpAndDownData(nibble: int, data1: byte, data2: byte)
    requires IsChannelVoice(nibble)
    ensures var up := UpData(nibble, data1, data2).value;
            var down := DownData(nibble, up.data1, up.value32).value;
            && CanonicalData(nibble, down.data1, down.data2)
            && (down.data1 == data1 && down.data2 == data2 <==> CanonicalData(nibble, data1, data2))
  {
    WidenThenNarrow(data2 % 0x80, data2 % 0x80 * 0x80 + data1 % 0x80);
    WidenThenNarrow(data1 % 0x80, 0);
  }

  // The distance between the values of neighbouring MIDI 1.0 messages.
  function StepOf(nibble: int): int {
    if nibble == STATUS_PITCH_BEND then STEP_14 else STEP_7
  }

  // Down and up again: a MIDI 2.0 message keeps its group, status and channel, its value is off by
  // half a step at most exactly below the wrapping point (a program change has no value), and going
  // down once more changes nothing.
  lemma DownAndUp(w0: word, w1: word)
    requires MessageType(w0) == MT_MIDI2_CHANNEL && IsChannelVoice(Byte2(w0) / 16)
    ensures var nibble, down := Byte2(w0) / 16, Converted(Midi2ToMidi1, [w0, w1]);
            && down.Some? && |down.value| == 1 && Canonical(down.value[0])
            && var up := Converted(Midi1ToMidi2, down.value);
            && up.Some? && |up.value| == 2 && MessageType(up.value[0]) == MT_MIDI2_CHANNEL
            && Group(up.value[0]) == Group(w0) && Byte2(up.value[0]) == Byte2(w0)
            && (nibble != STATUS_PROGRAM ==>
                  (Distance(up.value[1], w1) <= StepOf(nibble) / 2 <==> w1 < TWO_32 - StepOf(nibble) / 2))
            && Converted(Midi2ToMidi1, up.value) == down
  {
    var nibble, group, status := Byte2(w0) / 16, Group(w0), Byte2(w0);
    DownFields(w0, w1);
    var down := Converted(Midi2ToMidi1, [w0, w1]).value;
    var m := DownData(nibble, Byte1(w0), w1).value;
    Word0Fields(MT_CHANNEL, group, status, m.data1, m.data2);
    DownAndUpData(nibble, Byte1(w0), w1);
    UpFields(down[0]);
    UpAndDown(down[0]);
    var m' := UpData(nibble, m.data1, m.data2).value;
    Word0Fields(MT_MIDI2_CHANNEL, group, status, m'.data1, 0);
  }

  lemma DownAndUpData(nibble: int, data1: byte, w1: word)
    requires IsChannelVoice(nibble)
    ensures var down := DownData(nibble, data1, w1).value;
            var up := UpData(nibble, down.data1, down.data2).value;
            && CanonicalData(nibble, down.data1, down.data2)
            && (nibble != STATUS_PROGRAM ==>
                  (Distance(up.value32, w1) <= StepOf(nibble) / 2 <==> w1 < TWO_32 - StepOf(nibble) / 2))
  {
    if nibble == STATUS_PITCH_BEND {
      U32ToU14IsNearest(w1);
      HalvesOfFourteen(U32ToU14(w1));
    } else {
      U32ToU7IsNearest(w1);
      assert U32ToU7(w1) % 0x80 == U32ToU7(w1);
    }
  }

  lemma HalvesOfFourteen(v14: int)
    requires 0 <= v14 < 0x4000
    ensures v14 / 0x80 < 0x80 && v14 / 0x80 % 0x80 * 0x80 + v14 % 0x80 % 0x80 == v14
  {
  }

  // ---------- What a conversion appends is one packet ----------

  // What is appended for a packet is a packet; for other words, exactly unless they are data words that
  // are not two.
  lemma ConvertedIsFramed(dir: Direction, words: seq<word>)
    requires Converted(dir, words).Some?
    ensures Framed(Converted(dir, words).value) <==> MessageType(words[0]) != MT_DATA || |words| == 2
  {
    if MessageType(words[0]) == MT_CHANNEL {
      UpIsFramed(words[0]);
    } else if MessageType(words[0]) == MT_MIDI2_CHANNEL {
      DownIsFramed(words[0], words[1]);
    }
  }

  lemma UpIsFramed(w: word)
    requires MessageType(w) == MT_CHANNEL && Converted(Midi1ToMidi2, [w]).Some?
    ensures Framed(Converted(Midi1ToMidi2, [w]).value)
  {
    UpFields(w);
    var m := UpData(Byte2(w) / 16, Byte1(w), Byte0(w)).value;
    Word0Fields(MT_MIDI2_CHANNEL, Group(w), Byte2(w), m.data1, 0);
  }

  lemma DownIsFramed(w: word, w1: word)
    requires MessageType(w) == MT_MIDI2_CHANNEL && Converted(Midi2ToMidi1, [w, w1]).Some?
    ensures Framed(Converted(Midi2ToMidi1, [w, w1]).value)
  {
    DownFields(w, w1);
    var m := DownData(Byte2(w) / 16, Byte1(w), w1).value;
    Word0Fields(MT_CHANNEL, Group(w), Byte2(w), m.data1, m.data2);
  }

  // System words pass if there is one, data words if their number is even, in both directions.
  lemma SystemAndDataPass(dir: Direction, words: seq<word>)
    requires words != [] && MessageType(words[0]) in {MT_SYSTEM, MT_DATA}
    ensures var passes := if MessageType(words[0]) == MT_SYSTEM then |words| == 1 else |words| % 2 == 0;
            Converted(dir, words) == if passes then Some(words) else None
  {
  }

  // Nothing is converted that has another number of words than its type, data words apart.
  lemma OddSizesAreRefused(dir: Direction, words: seq<word>)
    requires words == [] || (MessageType(words[0]) != MT_DATA && !Framed(words))
    ensures Converted(dir, words) == None
  {
  }

  // Exactly which packets are converted: channel voice packets of the protocol converted from.
  lemma ConvertedExactly(dir: Direction, p: Packet)
    requires Framed(p)
    ensures Converted(dir, p).Some? <==>
            || MessageType(p[0]) in {MT_SYSTEM, MT_DATA}
            || (MessageType(p[0]) == (if dir.Midi1ToMidi2? then MT_CHANNEL else MT_MIDI2_CHANNEL)
                && IsChannelVoice(Byte2(p[0]) / 16))
  {
    if dir.Midi1ToMidi2? && MessageType(p[0]) == MT_CHANNEL {
      assert p == [p[0]];
      UpFields(p[0]);
    } else if dir.Midi2ToMidi1? && MessageType(p[0]) == MT_MIDI2_CHANNEL {
      assert p == [p[0], p[1]];
      DownFields(p[0], p[1]);
    }
  }

  // ---------- What the values mean ----------

  // The number a message is about: a note, controller or program.
  predicate HasNumber(nibble: int) {
    nibble == STATUS_NOTE_OFF || nibble == STATUS_NOTE_ON || nibble == STATUS_POLY_PRESSURE || nibble == STATUS_CC
    || nibble == STATUS_PROGRAM
  }

  // The value of a MIDI 1.0 message, 14 bits with the second byte the higher one for a pitch bend, else 7.
  function Value1(nibble: int, data1: byte, data2: byte): int {
    if nibble == STATUS_PITCH_BEND then data2 % 0x80 * 0x80 + data1 % 0x80
    else if nibble == STATUS_PROGRAM || nibble == STATUS_CH_PRESSURE then data1 % 0x80
    else data2 % 0x80
  }

  // Upwards the number is kept and the value takes the topmost bits of the value word.
  lemma UpMeans(w: word)
    requires MessageType(w) == MT_CHANNEL && IsChannelVoice(Byte2(w) / 16)
    ensures var nibble, up := Byte2(w) / 16, Converted(Midi1ToMidi2, [w]);
            && up.Some? && |up.value| == 2
            && up.value[1] == Value1(nibble, Byte1(w), Byte0(w)) * StepOf(nibble)
            && Byte1(up.value[0]) == (if !HasNumber(nibble) then 0 else if nibble == STATUS_CC then Byte1(w)
                                      else Byte1(w) % 0x80)
            && Byte0(up.value[0]) == 0 && Byte2(up.value[0]) == Byte2(w) && Group(up.value[0]) == Group(w)
            && MessageType(up.value[0]) == MT_MIDI2_CHANNEL
  {
    UpFields(w);
    var m := UpData(Byte2(w) / 16, Byte1(w), Byte0(w)).value;
    Word0Fields(MT_MIDI2_CHANNEL, Group(w), Byte2(w), m.data1, 0);
  }

  // Downwards the number is kept, and the value is the value word scaled and rounded to 7 or 14 bits.
  lemma DownMeans(w: word, w1: word)
    requires MessageType(w) == MT_MIDI2_CHANNEL && IsChannelVoice(Byte2(w) / 16)
    ensures var nibble, down := Byte2(w) / 16, Converted(Midi2ToMidi1, [w, w1]);
            && down.Some? && |down.value| == 1
            && (HasNumber(nibble) ==> Byte1(down.value[0]) == if nibble == STATUS_CC then Byte1(w) else Byte1(w) % 0x80)
            && (nibble != STATUS_PROGRAM ==>
                  Value1(nibble, Byte1(down.value[0]), Byte0(down.value[0])) ==
                  if nibble == STATUS_PITCH_BEND then U32ToU14(w1) else U32ToU7(w1))
            && Byte2(down.value[0]) == Byte2(w) && Group(down.value[0]) == Group(w)
            && MessageType(down.value[0]) == MT_CHANNEL
  {
    DownFields(w, w1);
    var m := DownData(Byte2(w) / 16, Byte1(w), w1).value;
    Word0Fields(MT_CHANNEL, Group(w), Byte2(w), m.data1, m.data2);
    DownDataMeans(Byte2(w) / 16, Byte1(w), w1);
  }

  lemma DownDataMeans(nibble: int, data1: byte, w1: word)
    requires IsChannelVoice(nibble)
    ensures var m := DownData(nibble, data1, w1).value;
            && (HasNumber(nibble) ==> m.data1 == if nibble == STATUS_CC then data1 else data1 % 0x80)
            && (nibble != STATUS_PROGRAM ==>
                  Value1(nibble, m.data1, m.data2) ==
                  if nibble == STATUS_PITCH_BEND then U32ToU14(w1) else U32ToU7(w1))
  {
    if nibble == STATUS_PITCH_BEND {
      HalvesOfFourteen(U32ToU14(w1));
    }
  }
}
