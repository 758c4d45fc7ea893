/** The shared-memory layout of the MIDI event ring and what a stretch of memory means.

    Records start at multiples of 8 bytes, so this module counts in 8-byte cells: cell `k` is byte
    offset `8 * k` and the two 32-bit words `m[2 * k]` and `m[2 * k + 1]`. A record is a header of
    three cells (timestamp, length, flags, sequence, padding) followed by its payload, padded to
    whole cells. */
module RingLayout {
  import opened Words

  const HEADER_BYTES := 24
  const WRAP_FLAG := 1

  datatype Event = Event(timestamp: stamp, data: seq<word>)

  // One header found in the ring: an event record, or the marker telling the reader to
  // continue at offset 0. `seqno` is the published sequence number of the header.
  datatype Slot = Slot(cell: nat, wrap: bool, seqno: word, event: Event)

  // Cells taken by a record with that many payload words.
  function RecordCells(wordCount: nat): (cells: nat)
    ensures 3 <= cells && 6 + wordCount <= 2 * cells <= 7 + wordCount
  {
    3 + (wordCount + 1) / 2
  }

  function RecordBytes(wordCount: nat): nat {
    8 * RecordCells(wordCount)
  }

  function RingUsed(r: nat, w: nat, cap: nat): int {
    if w >= r then w - r else cap - (r - w)
  }

  function RingFree(r: nat, w: nat, cap: nat): int {
    cap - 1 - RingUsed(r, w, cap)
  }

  // The sequence number a writer publishes over a header word that held `stale`: an odd stale
  // value is first made even, then two is added, all modulo 2^32.
  function PublishedSeq(stale: word): word {
    ((if stale % 2 == 1 then stale + 1 else stale) + 2) % TWO_32
  }

  lemma PublishedSeqIsDeadExactly(stale: word)
    ensures PublishedSeq(stale) % 2 == 0
    ensures PublishedSeq(stale) == 0 <==> stale == 0xFFFF_FFFD || stale == 0xFFFF_FFFE
  {
    var even := if stale % 2 == 1 then stale + 1 else stale;
    if even + 2 >= TWO_32 {
      assert (even + 2) % TWO_32 == even + 2 - TWO_32;
    }
  }

  // A header that is written again never keeps its number.
  lemma PublishedSeqChanges(stale: word)
    ensures PublishedSeq(stale) != stale
  {
    PublishedSeqIsDeadExactly(stale);
    if stale % 2 == 0 && stale + 2 >= TWO_32 {
      assert (stale + 2) % TWO_32 == stale + 2 - TWO_32;
    }
  }

  // ---------- Reading memory ----------

  predicate HeaderInside(m: seq<word>, k: nat) {
    2 * k + 6 <= |m|
  }

  function Timestamp(m: seq<word>, k: nat): stamp
    requires HeaderInside(m, k)
  {
    m[2 * k] + m[2 * k + 1] * TWO_32
  }

  function Length(m: seq<word>, k: nat): word
    requires HeaderInside(m, k)
  {
    m[2 * k + 2]
  }

  function Flags(m: seq<word>, k: nat): word
    requires HeaderInside(m, k)
  {
    m[2 * k + 3]
  }

  function Sequence(m: seq<word>, k: nat): word
    requires HeaderInside(m, k)
  {
    m[2 * k + 4]
  }

  // A published record with its whole payload lies in the cells [a, b).
  predicate RecordFits(m: seq<word>, a: nat, b: nat)
    requires 2 * b <= |m|
  {
    a + 3 <= b && Flags(m, a) % 2 == 0 && Sequence(m, a) % 2 == 0 && Next(m, a) <= b
  }

  function Next(m: seq<word>, a: nat): (next: nat)
    requires HeaderInside(m, a)
    ensures next >= a + 3
  {
    a + RecordCells(Length(m, a))
  }

  function RecordAt(m: seq<word>, k: nat): Slot
    requires HeaderInside(m, k) && 2 * Next(m, k) <= |m|
  {
    Slot(k, false, Sequence(m, k), Event(Timestamp(m, k), m[2 * k + 6 .. 2 * k + 6 + Length(m, k)]))
  }

  predicate WrapMarker(m: seq<word>, k: nat)
    requires HeaderInside(m, k)
  {
    Flags(m, k) % 2 == 1 && Length(m, k) == 0 && Sequence(m, k) % 2 == 0
  }

  function WrapAt(m: seq<word>, k: nat): Slot
    requires HeaderInside(m, k)
  {
    Slot(k, true, Sequence(m, k), Event(0, []))
  }

  function Prepend(slot: Slot, rest: Option<seq<Slot>>): Option<seq<Slot>> {
    if rest.None? then None else Some([slot] + rest.value)
  }

  // The records that tile the cells [a, b) exactly, or None when the words are not such a tiling.
  function Segment(m: seq<word>, a: nat, b: nat): Option<seq<Slot>>
    requires 2 * b <= |m|
    decreases b - a
  {
    if a == b then Some([])
    else if RecordFits(m, a, b) then Prepend(RecordAt(m, a), Segment(m, Next(m, a), b))
    else None
  }

  // The headers from cell `a` up to the end of a ring of `end` whole cells: records, then either
  // an exact fit, a tail too short for a header, or a wrap marker.
  function Upper(m: seq<word>, a: nat, end: nat): Option<seq<Slot>>
    requires 2 * end <= |m|
    decreases end - a
  {
    if a > end then None
    else if end - a < 3 then Some([])
    else if WrapMarker(m, a) then Some([WrapAt(m, a)])
    else if RecordFits(m, a, end) then Prepend(RecordAt(m, a), Upper(m, Next(m, a), end))
    else None
  }

  // Everything between read cell r and write cell w.
  function Chain(m: seq<word>, end: nat, r: nat, w: nat): Option<seq<Slot>>
    requires w <= end && 2 * end <= |m|
  {
    if r <= w then Segment(m, r, w)
    else
      var upper, lower := Upper(m, r, end), Segment(m, 0, w);
      if upper.None? || lower.None? then None else Some(upper.value + lower.value)
  }

  function Events(slots: seq<Slot>): seq<Event> {
    if slots == [] then []
    else (if slots[0].wrap then [] else [slots[0].event]) + Events(slots[1..])
  }

  lemma EventsAppend(a: seq<Slot>, b: seq<Slot>)
    ensures Events(a + b) == Events(a) + Events(b)
  {
    if a == [] {
      assert a + b == b;
    } else {
      assert (a + b)[1..] == a[1..] + b;
    }
  }

  // ---------- Decoding is local and compositional ----------

  // The words of the cells [a, b) are the same in both memories.
  ghost predicate Agree(m: seq<word>, m': seq<word>, a: nat, b: nat) {
    |m| == |m'| && 2 * b <= |m| && forall i {:trigger m[i]} :: 2 * a <= i < 2 * b ==> m[i] == m'[i]
  }

  lemma RecordFrame(m: seq<word>, m': seq<word>, a: nat, end: nat)
    requires a + 3 <= end && Agree(m, m', a, end)
    ensures Flags(m, a) == Flags(m', a) && Sequence(m, a) == Sequence(m', a)
    ensures Length(m, a) == Length(m', a)
    ensures RecordFits(m, a, end) == RecordFits(m', a, end)
    ensures RecordFits(m, a, end) ==> RecordAt(m, a) == RecordAt(m', a)
  {
    var i := 2 * a;
    assert m[i] == m'[i] && m[i + 1] == m'[i + 1] && m[i + 2] == m'[i + 2]
        && m[i + 3] == m'[i + 3] && m[i + 4] == m'[i + 4];
    if RecordFits(m, a, end) {
      assert m[i + 6 .. i + 6 + Length(m, a)] == m'[i + 6 .. i + 6 + Length(m, a)];
    }
  }

  lemma {:induction false} SegmentFrame(m: seq<word>, m': seq<word>, a: nat, b: nat)
    requires Agree(m, m', a, b)
    ensures Segment(m, a, b) == Segment(m', a, b)
    decreases b - a
  {
    if a + 3 <= b {
      RecordFrame(m, m', a, b);
      if RecordFits(m, a, b) {
        SegmentFrame(m, m', Next(m, a), b);
      }
    }
  }

  lemma {:induction false} UpperFrame(m: seq<word>, m': seq<word>, a: nat, end: nat)
    requires Agree(m, m', a, end)
    ensures Upper(m, a, end) == Upper(m', a, end)
    decreases end - a
  {
    if a + 3 <= end {
      RecordFrame(m, m', a, end);
      if RecordFits(m, a, end) {
        UpperFrame(m, m', Next(m, a), end);
      }
    }
  }

  lemma PrependAppend(slot: Slot, mid: seq<Slot>, last: seq<Slot>)
    ensures [slot] + (mid + last) == [slot] + mid + last
  {
  }

  lemma {:induction false} SegmentAppend(m: seq<word>, a: nat, b: nat, c: nat)
    requires b <= c && 2 * c <= |m|
    requires Segment(m, a, b).Some? && Segment(m, b, c).Some?
    ensures Segment(m, a, c) == Some(Segment(m, a, b).value + Segment(m, b, c).value)
    decreases b - a
  {
    var last := Segment(m, b, c).value;
    if a == b {
      assert [] + last == last;
    } else {
      SegmentAppend(m, Next(m, a), b, c);
      PrependAppend(RecordAt(m, a), Segment(m, Next(m, a), b).value, last);
    }
  }

  lemma {:induction false} SegmentUpper(m: seq<word>, a: nat, b: nat, end: nat)
    requires b <= end && 2 * end <= |m|
    requires Segment(m, a, b).Some? && Upper(m, b, end).Some?
    ensures Upper(m, a, end) == Some(Segment(m, a, b).value + Upper(m, b, end).value)
    decreases b - a
  {
    var last := Upper(m, b, end).value;
    if a == b {
      assert [] + last == last;
    } else {
      SegmentUpper(m, Next(m, a), b, end);
      PrependAppend(RecordAt(m, a), Segment(m, Next(m, a), b).value, last);
    }
  }
}
