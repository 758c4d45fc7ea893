/** What writing a header, a record or a wrap marker does to ring memory, and how the chain of
    unread headers changes when the writer or the reader moves its position. */
module RingWrites {
  import opened Words
  import opened RingLayout

  function PutHeader(m: seq<word>, k: nat, timestamp: stamp, length: word, flags: word): (m': seq<word>)
    requires HeaderInside(m, k)
    ensures |m'| == |m|
  {
    m[2 * k := timestamp % TWO_32][2 * k + 1 := timestamp / TWO_32][2 * k + 2 := length]
     [2 * k + 3 := flags][2 * k + 4 := PublishedSeq(Sequence(m, k))]
  }

  function PutWrap(m: seq<word>, k: nat): (m': seq<word>)
    requires HeaderInside(m, k)
    ensures |m'| == |m|
  {
    PutHeader(m, k, 0, 0, WRAP_FLAG)
  }

  ghost predicate RoomFor(m: seq<word>, k: nat, e: Event) {
    2 * (k + RecordCells(|e.data|)) <= |m| < TWO_32
  }

  function PutRecord(m: seq<word>, k: nat, e: Event): (m': seq<word>)
    requires RoomFor(m, k, e)
    ensures |m'| == |m|
  {
    var h := PutHeader(m, k, e.timestamp, |e.data|, 0);
    h[..2 * k + 6] + e.data + h[2 * k + 6 + |e.data| ..]
  }

  lemma TimestampSplit(t: stamp)
    ensures 0 <= t / TWO_32 < TWO_32
    ensures t % TWO_32 + (t / TWO_32) * TWO_32 == t
  {
  }

  lemma PutRecordReads(m: seq<word>, k: nat, e: Event)
    requires RoomFor(m, k, e)
    ensures var m', next := PutRecord(m, k, e), k + RecordCells(|e.data|);
            && RecordFits(m', k, next) && Next(m', k) == next
            && RecordAt(m', k) == Slot(k, false, PublishedSeq(Sequence(m, k)), e)
            && Agree(m, m', 0, k) && forall b: nat :: 2 * b <= |m| ==> Agree(m, m', next, b)
  {
    var m' := PutRecord(m, k, e);
    TimestampSplit(e.timestamp);
    PublishedSeqIsDeadExactly(Sequence(m, k));
    assert m'[2 * k + 6 .. 2 * k + 6 + |e.data|] == e.data;
  }

  lemma PutWrapReads(m: seq<word>, k: nat)
    requires HeaderInside(m, k)
    ensures var m' := PutWrap(m, k);
            && WrapMarker(m', k) && WrapAt(m', k) == Slot(k, true, PublishedSeq(Sequence(m, k)), Event(0, []))
            && Agree(m, m', 0, k) && forall b: nat :: 2 * b <= |m| ==> Agree(m, m', k + 3, b)
  {
    PublishedSeqIsDeadExactly(Sequence(m, k));
  }

  // ---------- The writer moves ----------

  // Cells the writer may fill without reaching the reader: [w, end) when the unread cells do not
  // wrap around, [w, r) when they do.
  ghost predicate Gap(end: nat, r: nat, w: nat, cells: nat) {
    if r <= w then w + cells <= end else w + cells < r
  }

  lemma ChainKept(m: seq<word>, m': seq<word>, end: nat, r: nat, w: nat, cells: nat)
    requires r <= end && Gap(end, r, w, cells)
    requires Agree(m, m', 0, w) && Agree(m, m', w + cells, end)
    ensures Chain(m', end, r, w) == Chain(m, end, r, w)
  {
    if r <= w {
      SegmentFrame(m, m', r, w);
    } else {
      UpperFrame(m, m', r, end);
      SegmentFrame(m, m', 0, w);
    }
  }

  // Publishing the record at w appends its slot, whether the write position then continues or,
  // after an exact fit, restarts at 0.
  lemma ChainRecord(m: seq<word>, end: nat, r: nat, w: nat, cells: nat)
    requires r <= end && 2 * end <= |m| && Gap(end, r, w, cells) && Chain(m, end, r, w).Some?
    requires RecordFits(m, w, w + cells) && Next(m, w) == w + cells
    ensures Chain(m, end, r, w + cells) == Some(Chain(m, end, r, w).value + [RecordAt(m, w)])
    ensures w + cells == end && 0 < r ==>
              Chain(m, end, r, 0) == Some(Chain(m, end, r, w).value + [RecordAt(m, w)])
  {
    var slot := RecordAt(m, w);
    assert Segment(m, w, w + cells) == Some([slot]) by {
      assert Segment(m, w + cells, w + cells) == Some([]);
      assert [slot] + [] == [slot];
    }
    if r <= w {
      SegmentAppend(m, r, w, w + cells);
      if w + cells == end && 0 < r {
        SegmentUpper(m, r, end, end);
        var all := Segment(m, r, end).value;
        assert all + [] + [] == all;
      }
    } else {
      SegmentAppend(m, 0, w, w + cells);
      var upper, lower := Upper(m, r, end).value, Segment(m, 0, w).value;
      assert upper + (lower + [slot]) == upper + lower + [slot];
    }
  }

  // Restarting at 0 over a tail too short for a header leaves the chain as it is.
  lemma ChainShortTail(m: seq<word>, end: nat, r: nat, w: nat)
    requires 0 < r <= w <= end < w + 3 && 2 * end <= |m| && Chain(m, end, r, w).Some?
    ensures Chain(m, end, r, 0) == Chain(m, end, r, w)
  {
    SegmentUpper(m, r, w, end);
    assert Segment(m, r, w).value + [] + [] == Segment(m, r, w).value;
  }

  // Restarting at 0 behind a wrap marker appends the marker.
  lemma ChainWrap(m: seq<word>, end: nat, r: nat, w: nat)
    requires 0 < r <= w && w + 3 <= end && 2 * end <= |m| && Chain(m, end, r, w).Some?
    requires WrapMarker(m, w)
    ensures Chain(m, end, r, 0) == Some(Chain(m, end, r, w).value + [WrapAt(m, w)])
  {
    SegmentUpper(m, r, w, end);
    var s := Segment(m, r, w).value + [WrapAt(m, w)];
    assert s + [] == s;
  }

  // ---------- The reader moves ----------

  // The cell at which the next header is read: a tail too short for a header is skipped.
  function HeadCell(end: nat, r: nat): nat {
    if end < r + 3 then 0 else r
  }

  // Cells a header takes in the ring: a whole record, or the header of a wrap marker.
  function SlotCells(slot: Slot): (cells: nat)
    ensures cells >= 3
  {
    if slot.wrap then 3 else RecordCells(|slot.event.data|)
  }

  lemma {:induction false} SegmentExtent(m: seq<word>, a: nat, b: nat)
    requires 2 * b <= |m| && Segment(m, a, b).Some?
    ensures forall s <- Segment(m, a, b).value :: !s.wrap && a <= s.cell && s.cell + SlotCells(s) <= b
    decreases b - a
  {
    if a != b {
      SegmentExtent(m, Next(m, a), b);
      assert |RecordAt(m, a).event.data| == Length(m, a);
    }
  }

  lemma {:induction false} UpperExtent(m: seq<word>, a: nat, end: nat)
    requires 2 * end <= |m| && Upper(m, a, end).Some?
    ensures forall s <- Upper(m, a, end).value :: a <= s.cell && s.cell + SlotCells(s) <= end
    decreases end - a
  {
    if a + 3 <= end && !WrapMarker(m, a) {
      UpperExtent(m, Next(m, a), end);
      assert |RecordAt(m, a).event.data| == Length(m, a);
    }
  }

  // The cells of a header lie between the read and the write position.
  ghost predicate Inside(end: nat, r: nat, w: nat, slot: Slot) {
    var k, stop := slot.cell, slot.cell + SlotCells(slot);
    if r <= w then r <= k && stop <= w else (r <= k && stop <= end) || stop <= w
  }

  lemma ChainExtent(m: seq<word>, end: nat, r: nat, w: nat)
    requires r <= end && w <= end && 2 * end <= |m| && Chain(m, end, r, w).Some?
    ensures forall s <- Chain(m, end, r, w).value :: Inside(end, r, w, s)
  {
    if r <= w {
      SegmentExtent(m, r, w);
    } else {
      UpperExtent(m, r, end);
      SegmentExtent(m, 0, w);
    }
  }

  // The reader's view of a chain: where its first header is, and what is left after taking it.
  lemma ChainHead(m: seq<word>, end: nat, r: nat, w: nat)
    requires r <= end && w <= end && 2 * end <= |m| && Chain(m, end, r, w).Some?
    ensures var s, h := Chain(m, end, r, w).value, HeadCell(end, r);
            && (s == [] <==> r == w || h == w)
            && (s != [] ==>
                  && h + 3 <= end
                  && (s[0] == if WrapMarker(m, h) then WrapAt(m, h)
                              else assert RecordFits(m, h, end); RecordAt(m, h))
                  && s[0].wrap == (Flags(m, h) % 2 == 1)
                  && (s[0].wrap ==> w < r && h == r && Chain(m, end, 0, w) == Some(s[1..]))
                  && (!s[0].wrap ==>
                        && RecordFits(m, h, end)
                        && (RecordCells(Length(m, h)) == end ==> w == end)
                        && Chain(m, end, Next(m, h), w) == Some(s[1..])
                        && (Next(m, h) == end && w < end ==> Chain(m, end, 0, w) == Some(s[1..]))))
  {
    var s, h := Chain(m, end, r, w).value, HeadCell(end, r);
    if r == w {
    } else if r < w {
      assert s[1..] == Segment(m, Next(m, r), w).value;
    } else {
      var upper, lower := Upper(m, r, end).value, Segment(m, 0, w).value;
      assert Chain(m, end, 0, w) == Some(lower);
      if end < r + 3 {
        assert s == lower;
        if w != 0 {
          assert s[1..] == Segment(m, Next(m, 0), w).value;
        }
      } else if WrapMarker(m, r) {
        assert s[1..] == lower;
      } else {
        var next := Next(m, r);
        assert s[1..] == Upper(m, next, end).value + lower;
      }
    }
  }

  ghost predicate Forward(r: nat, r': nat, w: nat) {
    if r <= w then r <= r' <= w else r <= r' || r' <= w
  }

  // ChainHead for a chain that starts with an event record: the words of the record, and the rest
  // of the chain behind it.
  lemma ChainPop(m: seq<word>, end: nat, r: nat, w: nat)
    requires r <= end && w <= end && 2 * end <= |m| && Chain(m, end, r, w).Some?
    requires Chain(m, end, r, w).value != [] && !Chain(m, end, r, w).value[0].wrap
    ensures var s := Chain(m, end, r, w).value;
            var k, e, stop := s[0].cell, s[0].event, s[0].cell + RecordCells(|s[0].event.data|);
            && k == HeadCell(end, r) && stop <= end && Forward(r, stop, w)
            && Sequence(m, k) == s[0].seqno && Timestamp(m, k) == e.timestamp
            && Length(m, k) == |e.data| && m[2 * k + 6 .. 2 * k + 6 + |e.data|] == e.data
            && Chain(m, end, stop, w) == Some(s[1..])
            && (stop == end && w < end ==> w < r && Chain(m, end, 0, w) == Some(s[1..]))
  {
    ChainHead(m, end, r, w);
    ChainExtent(m, end, r, w);
    var slot := Chain(m, end, r, w).value[0];
    assert Inside(end, r, w, slot);
    assert |m[2 * slot.cell + 6 .. 2 * slot.cell + 6 + Length(m, slot.cell)]| == Length(m, slot.cell);
  }

  // The first header as it stands in memory.
  lemma ChainFirst(m: seq<word>, end: nat, r: nat, w: nat)
    requires r <= end && w <= end && 2 * end <= |m| && Chain(m, end, r, w).Some?
    requires Chain(m, end, r, w).value != []
    ensures var s, h := Chain(m, end, r, w).value, HeadCell(end, r);
            var data := s[0].event.data;
            && HeaderInside(m, h) && Sequence(m, h) == s[0].seqno && s[0].wrap == (Flags(m, h) % 2 == 1)
            && (s[0].wrap ==> w < r && Chain(m, end, 0, w) == Some(s[1..]))
            && (!s[0].wrap ==>
                  && s[0].cell == h && h + RecordCells(|data|) <= end
                  && Timestamp(m, h) == s[0].event.timestamp && Length(m, h) == |data|
                  && m[2 * h + 6 .. 2 * h + 6 + |data|] == data)
  {
    ChainHead(m, end, r, w);
    if !Chain(m, end, r, w).value[0].wrap {
      ChainPop(m, end, r, w);
    }
  }

  // Word by word: the time stamp, low half first, the number of payload words, the flags, the sequence
  // number, a word that is left alone, and the payload.
  lemma RecordLayout(m: seq<word>, k: nat, e: Event)
    requires RoomFor(m, k, e)
    ensures var m' := PutRecord(m, k, e);
            && m'[2 * k] == e.timestamp % TWO_32 && m'[2 * k + 1] == e.timestamp / TWO_32
            && m'[2 * k + 2] == |e.data| && m'[2 * k + 3] == 0 && m'[2 * k + 4] == PublishedSeq(m[2 * k + 4])
            && m'[2 * k + 5] == m[2 * k + 5] && m'[2 * k + 6..2 * k + 6 + |e.data|] == e.data
  {
  }

  // So a reader that compares the numbers notices a record or marker stored over the header it looked at.
  lemma RewritingIsNoticed(m: seq<word>, k: nat, e: Event)
    requires RoomFor(m, k, e)
    ensures Sequence(PutRecord(m, k, e), k) != Sequence(m, k) && Sequence(PutWrap(m, k), k) != Sequence(m, k)
  {
    PublishedSeqChanges(Sequence(m, k));
    PutRecordReads(m, k, e);
    PutWrapReads(m, k);
  }
}
