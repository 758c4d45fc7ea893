/** The single-producer/single-consumer event ring, run sequentially: every method against the
    queue of written-but-uncommitted events that memory between the two positions decodes to. */
module SharedRing {
  import opened Words
  import opened RingLayout
  import opened RingWrites

  const MAX_MMAP_BUFFER_SIZE := 0x2000
  const CONTROL_HEADER_BYTES := 64
  const SIZE_MAX := TWO_64 - 1
  const UINT32_MAX := TWO_32 - 1

  datatype Status = OK | WOULD_BLOCK | INVALID_ARGUMENT | SHM_BROKEN

  // An event handed to the writer; None stands for a null data pointer.
  datatype InnerEvent = Inner(timestamp: stamp, data: Option<seq<word>>)

  datatype Header = Header(timestamp: stamp, length: word, flags: word, sequence: word)

  datatype Peeked = Peeked(header: Header, payload: nat, beginOffset: nat, endOffset: nat)

  function AlignUpToHeader(value: nat): nat {
    var remainder := value % 8;
    if remainder == 0 then value else value + (8 - remainder)
  }

  lemma AlignedRecord(wordCount: nat)
    ensures AlignUpToHeader(HEADER_BYTES + wordCount * 4) == RecordBytes(wordCount)
  {
    if wordCount % 2 == 0 {
      assert HEADER_BYTES + wordCount * 4 == 8 * (3 + wordCount / 2);
    } else {
      assert HEADER_BYTES + wordCount * 4 == 8 * (3 + wordCount / 2) + 4;
    }
  }

  function EventRecordSize(wordCount: nat): (size: Option<nat>)
    ensures size == if RecordBytes(wordCount) <= UINT32_MAX then Some(RecordBytes(wordCount)) else None
  {
    if wordCount > (SIZE_MAX - HEADER_BYTES - 7) / 4 then None
    else
      var alignedSize := AlignUpToHeader(HEADER_BYTES + wordCount * 4);
      AlignedRecord(wordCount);
      if alignedSize > UINT32_MAX then None else Some(alignedSize)
  }

  predicate Acceptable(event: InnerEvent, capacity: nat) {
    event.data.Some? && RecordBytes(|event.data.value|) < capacity
  }

  function EventOf(event: InnerEvent): Event {
    Event(event.timestamp, if event.data.Some? then event.data.value else [])
  }

  ghost function EventsOf(events: seq<InnerEvent>): seq<Event> {
    seq(|events|, i requires 0 <= i < |events| => EventOf(events[i]))
  }

  lemma EventsOfSnoc(events: seq<InnerEvent>, n: nat)
    requires n < |events|
    ensures EventsOf(events[..n + 1]) == EventsOf(events[..n]) + [EventOf(events[n])]
  {
  }

  // The test a write makes: the free bytes, then the contiguous bytes after a possible restart
  // at offset 0.
  predicate Fits(capacity: nat, r: nat, w: nat, total: nat) {
    var w' := if capacity - w < total then 0 else w;
    RingFree(r, w, capacity) >= total && (if w' < r then r - w' - 1 else capacity - w') >= total
  }

  // Where the write position is after the tests of one write: restarted at 0 if the free bytes suffice
  // but the tail does not.
  function Restarted(capacity: nat, r: nat, w: nat, total: nat): nat {
    if RingFree(r, w, capacity) >= total && capacity - w < total then 0 else w
  }

  // Where the write position is after one write was tried.
  function NextWrite(capacity: nat, r: nat, w: nat, total: nat): nat {
    var start := Restarted(capacity, r, w, total);
    if Fits(capacity, r, w, total) && start + total < capacity then start + total
    else if Fits(capacity, r, w, total) then 0
    else start
  }

  // The write position behind an event that fits.
  function Behind(capacity: nat, r: nat, w: nat, event: InnerEvent): nat {
    if event.data.None? then w else NextWrite(capacity, r, w, RecordBytes(|event.data.value|))
  }

  // How many events of a batch find room one after the other, with the read position where it is.
  function CountFit(capacity: nat, r: nat, w: nat, events: seq<InnerEvent>): (count: nat)
    ensures count <= |events|
    decreases |events|
  {
    if events == [] || !Acceptable(events[0], capacity)
       || !Fits(capacity, r, w, RecordBytes(|events[0].data.value|))
    then 0
    else 1 + CountFit(capacity, r, Behind(capacity, r, w, events[0]), events[1..])
  }

  // The word over which a header at cell k is published.
  function Stale(m: seq<word>, k: nat): word {
    if HeaderInside(m, k) then Sequence(m, k) else 0
  }

  // Whether a write from w stores a wrap marker before it restarts at 0.
  predicate LeavesMarker(capacity: nat, r: nat, w: nat, total: nat) {
    RingFree(r, w, capacity) >= total && HEADER_BYTES <= capacity - w < total
  }

  // The headers one write stores: a wrap marker if it restarts, its record if that fits.
  function Stored(m: seq<word>, capacity: nat, r: nat, w: nat, event: Event): seq<Slot> {
    var total := RecordBytes(|event.data|);
    var k := Restarted(capacity, r, w, total) / 8;
    (if LeavesMarker(capacity, r, w, total) then [Slot(w / 8, true, PublishedSeq(Stale(m, w / 8)), Event(0, []))]
     else [])
    + (if Fits(capacity, r, w, total) then [Slot(k, false, PublishedSeq(Stale(m, k)), event)] else [])
  }

  // The header at cell k lies in cells that were free at positions r and w.
  ghost predicate InFreeCells(end: nat, r: nat, w: nat, k: nat) {
    if r <= w then (w <= k && k + 3 <= end) || k + 3 <= r else w <= k && k + 3 <= r
  }

  // Every listed header was published in free cells, over the word those cells held in m.
  ghost predicate PublishedOver(m: seq<word>, end: nat, r: nat, w: nat, slots: seq<Slot>)
    requires r <= end && 2 * end <= |m|
  {
    forall s <- slots :: InFreeCells(end, r, w, s.cell) && s.seqno == PublishedSeq(Sequence(m, s.cell))
  }

  // The write position went forward from w to w' without passing the reader, and the cells that
  // are still free hold what they held before.
  ghost predicate WriterMoved(m: seq<word>, m': seq<word>, end: nat, r: nat, w: nat, w': nat) {
    && |m| == |m'| && (if r <= w then w <= w' || w' < r else w <= w' < r)
    && (if r <= w' then Agree(m, m', w', end) && Agree(m, m', 0, r) else Agree(m, m', w', r))
  }

  // One or more writes took memory m with write cell w to memory m' with write cell w', and did
  // nothing to the chain of unread headers but append those in `added`.
  ghost predicate Appended(m: seq<word>, m': seq<word>, end: nat, r: nat, w: nat, w': nat, added: seq<Slot>) {
    && r <= end && w <= end && w' <= end && 2 * end <= |m| == |m'|
    && Chain(m, end, r, w).Some?
    && Chain(m', end, r, w') == Some(Chain(m, end, r, w).value + added)
    && PublishedOver(m, end, r, w, added)
    && WriterMoved(m, m', end, r, w, w')
  }

  lemma AppendedNothing(m: seq<word>, end: nat, r: nat, w: nat)
    requires r <= end && w <= end && 2 * end <= |m| && Chain(m, end, r, w).Some?
    ensures Appended(m, m, end, r, w, w, [])
  {
    assert Chain(m, end, r, w).value + [] == Chain(m, end, r, w).value;
  }

  lemma OneMoreSlot(m: seq<word>, m': seq<word>, m'': seq<word>, end: nat, r: nat,
                    w: nat, w': nat, w'': nat, added: seq<Slot>, slot: Slot)
    requires Appended(m, m', end, r, w, w', added) && Appended(m', m'', end, r, w', w'', [slot])
    requires Events(added) == [] && !slot.wrap
    ensures Appended(m, m'', end, r, w, w'', added + [slot]) && Events(added + [slot]) == [slot.event]
    ensures slot.seqno == PublishedSeq(Stale(m, slot.cell))
  {
    AppendedTwice(m, m', m'', end, r, w, w', w'', added, [slot]);
    EventsAppend(added, [slot]);
    assert slot in added + [slot];
  }

  lemma AppendedTwice(m: seq<word>, m': seq<word>, m'': seq<word>, end: nat, r: nat,
                      w: nat, w': nat, w'': nat, added: seq<Slot>, more: seq<Slot>)
    requires Appended(m, m', end, r, w, w', added) && Appended(m', m'', end, r, w', w'', more)
    ensures Appended(m, m'', end, r, w, w'', added + more)
  {
    var s := Chain(m, end, r, w).value;
    assert s + added + more == s + (added + more);
    forall slot <- more
      ensures InFreeCells(end, r, w, slot.cell) && Sequence(m', slot.cell) == Sequence(m, slot.cell)
    {
      assert InFreeCells(end, r, w', slot.cell);
      var i := 2 * slot.cell + 4;
      assert m[i] == m'[i];
    }
  }

  // A batch's account goes on with the next event, whether it was written or refused.
  lemma OneMoreWritten(m: seq<word>, m': seq<word>, m'': seq<word>, end: nat, r: nat, w: nat, w': nat, w'': nat,
                       events: seq<InnerEvent>, n: nat, added: seq<Slot>, more: seq<Slot>, ok: bool)
    requires n < |events| && Appended(m, m', end, r, w, w', added) && Appended(m', m'', end, r, w', w'', more)
    requires Events(added) == EventsOf(events[..n]) && Events(more) == if ok then [EventOf(events[n])] else []
    ensures Appended(m, m'', end, r, w, w'', added + more)
    ensures Events(added + more) == EventsOf(events[..if ok then n + 1 else n])
    ensures added == [] ==> added + more == more
  {
    AppendedTwice(m, m', m'', end, r, w, w', w'', added, more);
    EventsAppend(added, more);
    EventsOfSnoc(events, n);
    assert Events(added) + [] == Events(added);
  }

  // No header carries the sequence number 0, which readers take for "never published".
  ghost predicate Live(slots: seq<Slot>) {
    forall s <- slots :: s.seqno != 0
  }

  // What a reader can take before it meets a header with sequence number 0.
  ghost function Readables(slots: seq<Slot>): seq<Event> {
    if slots == [] || slots[0].seqno == 0 then []
    else (if slots[0].wrap then [] else [slots[0].event]) + Readables(slots[1..])
  }

  lemma {:induction false} LiveReadsAll(slots: seq<Slot>)
    ensures Readables(slots) <= Events(slots)
    ensures Live(slots) ==> Readables(slots) == Events(slots)
  {
    if slots != [] {
      LiveReadsAll(slots[1..]);
    }
  }

  // After writes every header is published for readers exactly if it was so before and no new header
  // was stored over a stale word that makes its sequence number 0.
  lemma LiveAfterWrite(m: seq<word>, m': seq<word>, end: nat, r: nat, w: nat, w': nat, added: seq<Slot>)
    requires Appended(m, m', end, r, w, w', added)
    ensures Live(Chain(m', end, r, w').value) <==>
            && Live(Chain(m, end, r, w).value)
            && forall s <- added :: InFreeCells(end, r, w, s.cell) && Sequence(m, s.cell) !in {0xFFFF_FFFD, 0xFFFF_FFFE}
  {
    var before := Chain(m, end, r, w).value;
    forall s | s in added
      ensures InFreeCells(end, r, w, s.cell)
      ensures s.seqno == 0 <==> Sequence(m, s.cell) in {0xFFFF_FFFD, 0xFFFF_FFFE}
    {
      PublishedSeqIsDeadExactly(Sequence(m, s.cell));
    }
    assert forall s <- before + added :: s in before || s in added;
    assert forall s <- before :: s in before + added;
    assert forall s <- added :: s in before + added;
  }

  // The same for one write, from memory and positions before it: liveness ends exactly if the word
  // under the wrap marker or under the record is one of those two.
  lemma LiveAfterTry(m: seq<word>, m': seq<word>, capacity: nat, r: nat, w: nat, w': nat, event: Event)
    requires Appended(m, m', capacity / 8, r / 8, w / 8, w' / 8, Stored(m, capacity, r, w, event))
    ensures var total := RecordBytes(|event.data|);
            Live(Chain(m', capacity / 8, r / 8, w' / 8).value) <==>
            && Live(Chain(m, capacity / 8, r / 8, w / 8).value)
            && (LeavesMarker(capacity, r, w, total) ==> Stale(m, w / 8) !in {0xFFFF_FFFD, 0xFFFF_FFFE})
            && (Fits(capacity, r, w, total) ==>
                  Stale(m, Restarted(capacity, r, w, total) / 8) !in {0xFFFF_FFFD, 0xFFFF_FFFE})
  {
    var total := RecordBytes(|event.data|);
    PublishedSeqIsDeadExactly(Stale(m, w / 8));
    PublishedSeqIsDeadExactly(Stale(m, Restarted(capacity, r, w, total) / 8));
    var before, added := Chain(m, capacity / 8, r / 8, w / 8).value, Stored(m, capacity, r, w, event);
    assert forall s <- before + added :: s in before || s in added;
    assert forall s <- before :: s in before + added;
    assert forall s <- added :: s in before + added;
  }

  // An empty ring takes a record at once wherever its positions stand exactly if the record is at most
  // half as large as the ring.
  lemma EmptyRingTakes(capacity: nat, total: nat)
    requires capacity % 8 == 0 && total % 8 == 0 && 0 < total < capacity
    ensures (forall r: nat :: r < capacity && r % 8 == 0 ==> Fits(capacity, r, r, total)) <==> 2 * total <= capacity
  {
    assert 2 * total > capacity ==> !Fits(capacity, total, total, total);
  }

  lemma RecordAppended(m: seq<word>, end: nat, r: nat, w: nat, w': nat, e: Event)
    requires r <= end && w <= end && 2 * end <= |m| < TWO_32 && Chain(m, end, r, w).Some?
    requires Gap(end, r, w, RecordCells(|e.data|))
    requires w' == w + RecordCells(|e.data|) || (w' == 0 && 0 < r && w + RecordCells(|e.data|) == end)
    ensures var m' := PutRecord(m, w, e);
            Appended(m, m', end, r, w, w', [Slot(w, false, PublishedSeq(Sequence(m, w)), e)])
  {
    var m', cells := PutRecord(m, w, e), RecordCells(|e.data|);
    PutRecordReads(m, w, e);
    ChainKept(m, m', end, r, w, cells);
    ChainRecord(m', end, r, w, cells);
    RecordMoves(m, m', end, r, w, w', cells);
  }

  lemma RecordMoves(m: seq<word>, m': seq<word>, end: nat, r: nat, w: nat, w': nat, cells: nat)
    requires r <= end && w + cells <= end && 2 * end <= |m| == |m'| && Gap(end, r, w, cells)
    requires Agree(m, m', 0, w) && Agree(m, m', w + cells, end)
    requires w' == w + cells || (w' == 0 && 0 < r && w + cells == end)
    ensures WriterMoved(m, m', end, r, w, w')
  {
  }

  lemma MarkerAppended(m: seq<word>, end: nat, r: nat, w: nat)
    requires 0 < r <= w && w + 3 <= end && 2 * end <= |m| && Chain(m, end, r, w).Some?
    ensures Appended(m, PutWrap(m, w), end, r, w, 0,
                     [Slot(w, true, PublishedSeq(Sequence(m, w)), Event(0, []))])
  {
    PutWrapReads(m, w);
    ChainKept(m, PutWrap(m, w), end, r, w, 3);
    ChainWrap(PutWrap(m, w), end, r, w);
  }

  // Taking the events in `out` from the headers in `start` leaves those in `rest`.
  ghost predicate Took(start: seq<Slot>, out: seq<Event>, rest: seq<Slot>) {
    Events(start) == out + Events(rest) && Readables(start) == out + Readables(rest)
  }

  // The words of the head event.
  lemma HeadWords(m: seq<word>, end: nat, r: nat, w: nat)
    requires r <= end && w <= end && 2 * end <= |m| && Chain(m, end, r, w).Some?
    requires var slots := Chain(m, end, r, w).value;
             slots != [] && !slots[0].wrap && slots[0].seqno != 0
    ensures var slots := Chain(m, end, r, w).value;
            var e, p := slots[0].event, 2 * slots[0].cell + 6;
            && HeaderInside(m, slots[0].cell) && p + |e.data| <= |m| && m[p .. p + |e.data|] == e.data
            && Took(slots, [e], slots[1..])
  {
    ChainPop(m, end, r, w);
    TookHead(Chain(m, end, r, w).value);
  }

  lemma TookHead(slots: seq<Slot>)
    requires slots != [] && !slots[0].wrap && slots[0].seqno != 0
    ensures Took(slots, [slots[0].event], slots[1..])
  {
  }

  // A published wrap marker is the first header.
  ghost predicate AtMarker(slots: seq<Slot>) {
    slots != [] && slots[0].wrap && slots[0].seqno != 0
  }

  // What looking at the first header changes: a published wrap marker is stepped over.
  ghost predicate Looked(start: seq<Slot>, r: nat, now: seq<Slot>, r': nat) {
    if AtMarker(start) then now == start[1..] && r' == 0 else now == start && r' == r
  }

  lemma LookingTakesNothing(start: seq<Slot>, r: nat, now: seq<Slot>, r': nat)
    requires Looked(start, r, now, r')
    ensures Took(start, [], now)
  {
    assert [] + Events(now) == Events(now) && [] + Readables(now) == Readables(now);
  }

  lemma TookMore(start: seq<Slot>, out: seq<Event>, slots: seq<Slot>, more: seq<Event>, slots': seq<Slot>)
    requires Took(start, out, slots) && Took(slots, more, slots')
    ensures Took(start, out + more, slots')
  {
    assert out + (more + Events(slots')) == out + more + Events(slots');
    assert out + (more + Readables(slots')) == out + more + Readables(slots');
  }

  // ChainHead as a reader sees it.
  lemma PeekCases(m: seq<word>, end: nat, r: nat, w: nat)
    requires r <= end && w <= end && 2 * end <= |m| && Chain(m, end, r, w).Some?
    ensures var s, h := Chain(m, end, r, w).value, HeadCell(end, r);
            && (s == [] <==> r == w || h == w)
            && (s == [] ==> Readables(s) == [])
            && (s != [] ==>
                  && HeaderInside(m, h) && Sequence(m, h) == s[0].seqno && s[0].seqno % 2 == 0
                  && s[0].wrap == (Flags(m, h) % 2 == 1)
                  && (s[0].seqno == 0 || !s[0].wrap ==> (Readables(s) == [] <==> s[0].seqno == 0))
                  && (s[0].wrap ==> Length(m, h) == 0 && 0 < r && Chain(m, end, 0, w) == Some(s[1..]))
                  && (!s[0].wrap ==>
                        && s[0].cell == h && s[0].event.timestamp == Timestamp(m, h)
                        && |s[0].event.data| == Length(m, h) && h + RecordCells(Length(m, h)) <= end
                        && (RecordCells(Length(m, h)) == end ==> w == end)))
  {
    ChainHead(m, end, r, w);
    var s, h := Chain(m, end, r, w).value, HeadCell(end, r);
    if s != [] && !s[0].wrap {
      assert |m[2 * h + 6 .. 2 * h + 6 + Length(m, h)]| == Length(m, h);
    }
  }

  class MidiSharedRing {
    const capacity: nat
    const mem: array<word>
    var readPosition: nat
    var writePosition: nat

    ghost const end: nat := capacity / 8

    ghost predicate Positioned()
      reads this
    {
      && capacity <= MAX_MMAP_BUFFER_SIZE - CONTROL_HEADER_BYTES && mem.Length == capacity / 4
      && readPosition == 8 * (readPosition / 8) && writePosition == 8 * (writePosition / 8)
      && (capacity == 0 || (readPosition < capacity && writePosition < capacity))
      && readPosition / 8 <= end && writePosition / 8 <= end
    }

    ghost predicate Valid()
      reads this, mem
    {
      Positioned() && Chain(mem[..], end, readPosition / 8, writePosition / 8).Some?
    }

    ghost function Slots(): seq<Slot>
      reads this, mem
      requires Valid()
    {
      Chain(mem[..], end, readPosition / 8, writePosition / 8).value
    }

    // The abstract queue.
    ghost function Queue(): seq<Event>
      reads this, mem
      requires Valid()
    {
      Events(Slots())
    }

    constructor (ringCapacityBytes: nat)
      requires ringCapacityBytes <= MAX_MMAP_BUFFER_SIZE - CONTROL_HEADER_BYTES
      ensures Valid() && capacity == ringCapacityBytes && Slots() == []
      ensures readPosition == 0 == writePosition
      ensures forall i :: 0 <= i < mem.Length ==> mem[i] == 0
      ensures fresh(mem)
    {
      capacity := ringCapacityBytes;
      mem := new word[ringCapacityBytes / 4](i => 0);
      readPosition, writePosition := 0, 0;
    }

    // ---------- Write side ----------

    method StoreHeader(k: nat, timestamp: stamp, length: word, flags: word)
      requires HeaderInside(mem[..], k)
      modifies mem
      ensures mem[..] == PutHeader(old(mem[..]), k, timestamp, length, flags)
    {
      var i := 2 * k;
      var seqno := mem[i + 4];
      if seqno % 2 == 1 {
        seqno := (seqno + 1) % TWO_32;
      }
      mem[i + 4] := (seqno + 1) % TWO_32;
      TimestampSplit(timestamp);
      mem[i], mem[i + 1] := timestamp % TWO_32, timestamp / TWO_32;
      mem[i + 2] := length;
      mem[i + 3] := flags;
      mem[i + 4] := (seqno + 2) % TWO_32;
    }

    method CopyPayload(start: nat, data: seq<word>)
      requires start + |data| <= mem.Length
      modifies mem
      ensures mem[..] == old(mem[..start]) + data + old(mem[start + |data| ..])
    {
      var i := 0;
      while i < |data|
        invariant 0 <= i <= |data|
        invariant forall j :: 0 <= j < i ==> mem[start + j] == data[j]
        invariant forall j :: 0 <= j < start || start + i <= j < mem.Length ==> mem[j] == old(mem[j])
      {
        mem[start + i] := data[i];
        i := i + 1;
      }
    }

    method WriteEvent(writeIndex: nat, event: Event) returns (ok: bool)
      requires writeIndex < capacity ==> RoomFor(mem[..], writeIndex / 8, event)
      modifies mem
      ensures ok == (writeIndex < capacity)
      ensures mem[..] == if ok then PutRecord(old(mem[..]), writeIndex / 8, event) else old(mem[..])
    {
      if writeIndex >= capacity {
        return false;
      }
      var k := writeIndex / 8;
      StoreHeader(k, event.timestamp, |event.data|, 0);
      CopyPayload(2 * k + 6, event.data);
      return true;
    }

    method UpdateWriteIndexIfNeed(writeIndex: nat, totalBytes: nat)
      returns (newIndex: nat, ghost added: seq<Slot>)
      requires Valid() && writeIndex == writePosition < capacity
      requires RingFree(readPosition, writePosition, capacity) >= totalBytes
      modifies mem, this`writePosition
      ensures Positioned() && newIndex == writePosition
      ensures newIndex == if capacity - writeIndex < totalBytes then 0 else writeIndex
      ensures newIndex != writeIndex ==> newIndex < readPosition <= writeIndex
      ensures Events(added) == []
      ensures added == if HEADER_BYTES <= capacity - writeIndex < totalBytes
                       then [Slot(writeIndex / 8, true, PublishedSeq(Stale(old(mem[..]), writeIndex / 8)),
                                  Event(0, []))]
                       else []
      ensures Appended(old(mem[..]), mem[..], end, readPosition / 8, writeIndex / 8, newIndex / 8, added)
    {
      var tail := capacity - writeIndex;
      if tail >= totalBytes {
        AppendedNothing(mem[..], end, readPosition / 8, writeIndex / 8);
        return writeIndex, [];
      }
      ghost var m, r := mem[..], readPosition / 8;
      var w := writeIndex / 8;
      added := [];
      if tail >= HEADER_BYTES {
        StoreHeader(w, 0, 0, WRAP_FLAG);
        MarkerAppended(m, end, r, w);
        added := [Slot(w, true, PublishedSeq(Sequence(m, w)), Event(0, []))];
      } else {
        ChainShortTail(m, end, r, w);
        AppendedNothing(m, end, r, w);
      }
      writePosition := 0;
      newIndex := 0;
    }

    // The last part of TryWriteOneEvent: the record goes to writeIndex and is published.
    method PlaceRecord(event: Event, totalBytes: nat, writeIndex: nat) returns (newIndex: nat, ghost slot: Slot)
      requires Valid() && writeIndex == writePosition < capacity
      requires totalBytes == RecordBytes(|event.data|)
      requires RingFree(readPosition, writeIndex, capacity) >= totalBytes
      requires totalBytes <=
               if writeIndex < readPosition then readPosition - writeIndex - 1 else capacity - writeIndex
      modifies mem, this`writePosition
      ensures Positioned() && newIndex == writePosition
      ensures newIndex == if writeIndex + totalBytes < capacity then writeIndex + totalBytes else 0
      ensures !slot.wrap && slot.event == event && slot.cell == writeIndex / 8
      ensures Appended(old(mem[..]), mem[..], end, readPosition / 8, writeIndex / 8, newIndex / 8, [slot])
    {
      ghost var m := mem[..];
      var ok := WriteEvent(writeIndex, event);
      newIndex := writeIndex + totalBytes;
      newIndex := if newIndex == capacity then 0 else newIndex;
      writePosition := newIndex;
      slot := Slot(writeIndex / 8, false, PublishedSeq(Sequence(m, writeIndex / 8)), event);
      RecordAppended(m, end, readPosition / 8, writeIndex / 8, newIndex / 8, event);
    }

    method TryWriteOneEvent(event: Event, totalBytes: nat, writeIndex: nat)
      returns (status: Status, newIndex: nat, ghost added: seq<Slot>)
      requires Valid() && writeIndex == writePosition < capacity
      requires totalBytes == RecordBytes(|event.data|) < capacity
      modifies mem, this`writePosition
      ensures Positioned() && newIndex == writePosition
      ensures status == if Fits(capacity, readPosition, writeIndex, totalBytes) then OK else WOULD_BLOCK
      ensures status != OK ==> !Fits(capacity, readPosition, newIndex, totalBytes)
      ensures newIndex == NextWrite(capacity, readPosition, writeIndex, totalBytes)
      ensures added == Stored(old(mem[..]), capacity, readPosition, writeIndex, event)
      ensures Events(added) == if status == OK then [event] else []
      ensures Appended(old(mem[..]), mem[..], end, readPosition / 8, writeIndex / 8, newIndex / 8, added)
    {
      var freeSize := RingFree(readPosition, writeIndex, capacity);
      if freeSize < totalBytes {
        AppendedNothing(mem[..], end, readPosition / 8, writeIndex / 8);
        return WOULD_BLOCK, writeIndex, [];
      }
      var w;
      w, added := UpdateWriteIndexIfNeed(writeIndex, totalBytes);
      var writeSize := if w < readPosition then readPosition - w - 1 else capacity - w;
      if writeSize < totalBytes {
        return WOULD_BLOCK, w, added;
      }
      ghost var m, slot := mem[..], Slot(0, false, 0, event);
      newIndex, slot := PlaceRecord(event, totalBytes, w);
      OneMoreSlot(old(mem[..]), m, mem[..], end, readPosition / 8, writeIndex / 8, w / 8, newIndex / 8, added, slot);
      added := added + [slot];
      status := OK;
    }

    method ValidateWriteArgs(events: Option<seq<InnerEvent>>, eventCount: nat) returns (status: Status)
      ensures status == if eventCount == 0 then OK else if events.None? then INVALID_ARGUMENT
                        else if capacity < HEADER_BYTES + 1 then SHM_BROKEN else OK
    {
      if eventCount == 0 {
        return OK;
      }
      if events.None? {
        return INVALID_ARGUMENT;
      }
      if capacity < HEADER_BYTES + 1 {
        return SHM_BROKEN;
      }
      return OK;
    }

    method ValidateOneEvent(event: InnerEvent) returns (ok: bool)
      requires Positioned() && capacity > HEADER_BYTES
      ensures ok == Acceptable(event, capacity)
    {
      if event.data.None? {
        return false;
      }
      var recordSize := EventRecordSize(|event.data.value|);
      return recordSize.Some? && recordSize.value <= capacity - 1;
    }

    // Appends the longest prefix of the batch it can; the queue grows by exactly that prefix.
    method TryWriteEvents(events: Option<seq<InnerEvent>>, eventCount: nat)
      returns (status: Status, eventsWritten: nat, ghost added: seq<Slot>)
      requires Valid() && (events.Some? ==> |events.value| == eventCount)
      modifies mem, this`writePosition
      ensures Valid() && eventsWritten <= eventCount
      ensures status == if eventCount > 0 && events.None? then INVALID_ARGUMENT
                        else if capacity == 0 || (eventCount > 0 && capacity <= HEADER_BYTES) then SHM_BROKEN
                        else if eventsWritten == eventCount then OK else WOULD_BLOCK
      ensures status in {INVALID_ARGUMENT, SHM_BROKEN} ==> eventsWritten == 0
      ensures events.Some? ==> WroteExactly(events.value, eventsWritten)
      ensures Queue() == old(Queue()) + if events.Some? then EventsOf(events.value[..eventsWritten]) else []
      ensures status == WOULD_BLOCK ==> Refused(events.value[eventsWritten])
      ensures status in {OK, WOULD_BLOCK} && events.Some? ==>
                eventsWritten == CountFit(capacity, readPosition, old(writePosition), events.value)
      ensures forall peeked :: old(IsHead(peeked)) ==> IsHead(peeked)
      ensures events.Some? && (events.value == [] || old(NoRoom(writePosition, events.value[0]))) ==>
                eventsWritten == 0 && added == [] && writePosition == old(writePosition)
      ensures Appended(old(mem[..]), mem[..], end, readPosition / 8, old(writePosition) / 8, writePosition / 8, added)
    {
      eventsWritten, added := 0, [];
      status := ValidateWriteArgs(events, eventCount);
      if status == OK && (readPosition >= capacity || writePosition >= capacity) {
        status := SHM_BROKEN;
      }
      if status != OK || eventCount == 0 {
        AppendedNothing(mem[..], end, readPosition / 8, writePosition / 8);
        return;
      }
      eventsWritten, added := WriteBatch(events.value);
      EventsAppend(old(Slots()), added);
      status := if eventsWritten == eventCount then OK else WOULD_BLOCK;
    }

    // A single event: where exactly it goes, if it is valid and the ring has room for any.
    method TryWriteEvent(event: InnerEvent) returns (status: Status, ghost added: seq<Slot>)
      requires Valid()
      modifies mem, this`writePosition
      ensures Valid() && Slots() == old(Slots()) + added
      ensures status == if capacity <= HEADER_BYTES then SHM_BROKEN
                        else if old(HasRoom(writePosition, event)) then OK else WOULD_BLOCK
      ensures if capacity > HEADER_BYTES && Acceptable(event, capacity)
              then writePosition ==
                   NextWrite(capacity, readPosition, old(writePosition), RecordBytes(|event.data.value|))
                   && added == Stored(old(mem[..]), capacity, readPosition, old(writePosition), EventOf(event))
              else writePosition == old(writePosition) && added == []
      ensures Queue() == old(Queue()) + if status == OK then [EventOf(event)] else []
      ensures Appended(old(mem[..]), mem[..], end, readPosition / 8, old(writePosition) / 8, writePosition / 8, added)
    {
      if capacity < HEADER_BYTES + 1 {
        AppendedNothing(mem[..], end, readPosition / 8, writePosition / 8);
        return SHM_BROKEN, [];
      }
      var ok;
      ok, added := WriteIfValid(event);
      EventsAppend(old(Slots()), added);
      status := if ok then OK else WOULD_BLOCK;
    }

    ghost predicate WroteExactly(events: seq<InnerEvent>, count: nat) {
      count <= |events| && forall i :: 0 <= i < count ==> Acceptable(events[i], capacity)
    }

    // The event can never be written here, or does not fit at the present positions.
    ghost predicate Refused(event: InnerEvent)
      reads this
    {
      Acceptable(event, capacity) ==>
        !Fits(capacity, readPosition, writePosition, RecordBytes(|event.data.value|))
    }

    ghost predicate HasRoom(w: nat, event: InnerEvent)
      reads this
    {
      Acceptable(event, capacity) && Fits(capacity, readPosition, w, RecordBytes(|event.data.value|))
    }

    // One round of the write loop: an event, if it is valid and there is room.
    method WriteIfValid(event: InnerEvent) returns (ok: bool, ghost more: seq<Slot>)
      requires Valid() && capacity > HEADER_BYTES
      modifies mem, this`writePosition
      ensures Positioned() && Events(more) == if ok then [EventOf(event)] else []
      ensures if Acceptable(event, capacity)
              then var total := RecordBytes(|event.data.value|);
                   && ok == Fits(capacity, readPosition, old(writePosition), total)
                   && writePosition == NextWrite(capacity, readPosition, old(writePosition), total)
                   && more == Stored(old(mem[..]), capacity, readPosition, old(writePosition), EventOf(event))
              else !ok && writePosition == old(writePosition) && more == []
      ensures !ok ==> Refused(event)
      ensures Appended(old(mem[..]), mem[..], end, readPosition / 8, old(writePosition) / 8, writePosition / 8, more)
    {
      var valid := ValidateOneEvent(event);
      if !valid {
        AppendedNothing(mem[..], end, readPosition / 8, writePosition / 8);
        return false, [];
      }
      var needed := EventRecordSize(|event.data.value|).value;
      var status, writeIndex;
      status, writeIndex, more := TryWriteOneEvent(EventOf(event), needed, writePosition);
      ok := status == OK;
    }

    // The event is invalid, or larger than what is free.
    ghost predicate NoRoom(w: nat, event: InnerEvent)
      reads this
    {
      !Acceptable(event, capacity) || RingFree(readPosition, w, capacity) < RecordBytes(|event.data.value|)
    }

    // One round of the write loop, without the details.
    method WriteNext(event: InnerEvent) returns (ok: bool, ghost more: seq<Slot>)
      requires Valid() && capacity > HEADER_BYTES
      modifies mem, this`writePosition
      ensures Positioned() && Events(more) == if ok then [EventOf(event)] else []
      ensures if ok then Acceptable(event, capacity) else Refused(event)
      ensures ok == old(HasRoom(writePosition, event))
      ensures ok ==> writePosition == Behind(capacity, readPosition, old(writePosition), event)
      ensures old(NoRoom(writePosition, event)) ==> !ok && more == [] && writePosition == old(writePosition)
      ensures Appended(old(mem[..]), mem[..], end, readPosition / 8, old(writePosition) / 8, writePosition / 8, more)
    {
      ok, more := WriteIfValid(event);
    }

    // The same as part of a batch that began at memory m and write cell w.
    method WriteRound(ghost m: seq<word>, ghost w: nat, events: seq<InnerEvent>, n: nat, ghost added: seq<Slot>)
      returns (ok: bool, ghost added': seq<Slot>)
      requires Valid() && capacity > HEADER_BYTES && n < |events| && Events(added) == EventsOf(events[..n])
      requires Appended(m, mem[..], end, readPosition / 8, w, writePosition / 8, added)
      modifies mem, this`writePosition
      ensures Positioned() && Events(added') == EventsOf(events[..if ok then n + 1 else n])
      ensures if ok then Acceptable(events[n], capacity) else Refused(events[n])
      ensures ok == old(HasRoom(writePosition, events[n]))
      ensures ok ==> writePosition == Behind(capacity, readPosition, old(writePosition), events[n])
      ensures old(NoRoom(writePosition, events[n])) ==>
                !ok && (added == [] ==> added' == []) && writePosition == old(writePosition)
      ensures Appended(m, mem[..], end, readPosition / 8, w, writePosition / 8, added')
    {
      ghost var m', r, w', more := mem[..], readPosition / 8, writePosition / 8, [];
      ok, more := WriteNext(events[n]);
      OneMoreWritten(m, m', mem[..], end, r, w, w', writePosition / 8, events, n, added, more, ok);
      added' := added + more;
    }

    // The write loop of TryWriteEvents.
    method WriteBatch(events: seq<InnerEvent>) returns (eventsWritten: nat, ghost added: seq<Slot>)
      requires Valid() && capacity > HEADER_BYTES
      modifies mem, this`writePosition
      ensures Valid() && WroteExactly(events, eventsWritten)
      ensures Events(added) == EventsOf(events[..eventsWritten])
      ensures eventsWritten == CountFit(capacity, readPosition, old(writePosition), events)
      ensures eventsWritten < |events| ==> Refused(events[eventsWritten])
      ensures events == [] || old(NoRoom(writePosition, events[0])) ==>
                eventsWritten == 0 && added == [] && writePosition == old(writePosition)
      ensures Appended(old(mem[..]), mem[..], end, readPosition / 8, old(writePosition) / 8, writePosition / 8, added)
    {
      added, eventsWritten := [], 0;
      ghost var m, r, w := mem[..], readPosition / 8, writePosition / 8;
      ghost var noRoom := events == [] || NoRoom(writePosition, events[0]);
      AppendedNothing(m, end, r, w);
      ghost var total, left := CountFit(capacity, readPosition, writePosition, events), events;
      while eventsWritten < |events|
        invariant Positioned() && WroteExactly(events, eventsWritten)
        invariant Events(added) == EventsOf(events[..eventsWritten])
        invariant Appended(m, mem[..], end, r, w, writePosition / 8, added)
        invariant noRoom ==> eventsWritten == 0 && writePosition == old(writePosition) && added == []
        invariant left == events[eventsWritten..]
        invariant eventsWritten + CountFit(capacity, readPosition, writePosition, left) == total
      {
        assert left[0] == events[eventsWritten] && left[1..] == events[eventsWritten + 1..];
        var ok;
        ok, added := WriteRound(m, w, events, eventsWritten, added);
        if !ok {
          break;
        }
        left := left[1..];
        assert WroteExactly(events, eventsWritten + 1);
        eventsWritten := eventsWritten + 1;
      }
    }

    // ---------- Read side ----------

    method ReadHeaderSafely(readIndex: nat) returns (ok: bool, header: Header)
      requires HeaderInside(mem[..], readIndex / 8)
      ensures var m, k := mem[..], readIndex / 8;
              && ok == (Sequence(m, k) != 0 && Sequence(m, k) % 2 == 0)
              && header == Header(Timestamp(m, k), Length(m, k), Flags(m, k), Sequence(m, k))
    {
      var i := 2 * (readIndex / 8);
      var seq1 := mem[i + 4];
      assert i + 1 < mem.Length;
      header := Header(mem[i] + mem[i + 1] * TWO_32, mem[i + 2], mem[i + 3], seq1);
      if seq1 == 0 || seq1 % 2 == 1 {
        return false, header;
      }
      var seq2 := mem[i + 4];
      return seq1 == seq2, header;
    }

    method UpdateReadIndexIfNeed(readIndex: nat, writeIndex: nat) returns (status: Status, newIndex: nat)
      ensures status == if readIndex >= capacity || writeIndex >= capacity then SHM_BROKEN
                        else if readIndex == writeIndex || newIndex == writeIndex then WOULD_BLOCK else OK
      ensures newIndex == if readIndex < capacity && capacity - readIndex < HEADER_BYTES
                             && writeIndex < capacity && readIndex != writeIndex then 0 else readIndex
    {
      newIndex := readIndex;
      if readIndex >= capacity || writeIndex >= capacity {
        return SHM_BROKEN, newIndex;
      }
      if readIndex == writeIndex {
        return WOULD_BLOCK, newIndex;
      }
      var tail := capacity - readIndex;
      if tail < HEADER_BYTES {
        newIndex := 0;
        if newIndex == writeIndex {
          return WOULD_BLOCK, newIndex;
        }
      }
      return OK, newIndex;
    }

    method BuildPeekedEvent(header: Header, readIndex: nat) returns (status: Status, peeked: Peeked)
      requires HEADER_BYTES < capacity <= MAX_MMAP_BUFFER_SIZE
      ensures status == if RecordBytes(header.length) < capacity && readIndex + RecordBytes(header.length) <= capacity
                        then OK else SHM_BROKEN
      ensures status == OK ==>
                var stop := readIndex + RecordBytes(header.length);
                peeked == Peeked(header, readIndex + HEADER_BYTES, readIndex, if stop == capacity then 0 else stop)
    {
      peeked := Peeked(header, 0, 0, 0);
      var needed := EventRecordSize(header.length);
      if needed.None? || needed.value > capacity - 1 || readIndex + needed.value > capacity {
        return SHM_BROKEN, peeked;
      }
      var stop := readIndex + needed.value;
      return OK, Peeked(header, readIndex + HEADER_BYTES, readIndex, if stop == capacity then 0 else stop);
    }

    // `peeked` describes the first unread header, which is a published event record.
    ghost predicate IsHead(peeked: Peeked)
      reads this, mem
      requires Valid()
    {
      && Slots() != [] && !Slots()[0].wrap && Slots()[0].seqno != 0
      && var slot := Slots()[0];
         var stop := 8 * slot.cell + RecordBytes(|slot.event.data|);
         && slot.cell == HeadCell(end, readPosition / 8)
         && peeked.header.timestamp == slot.event.timestamp && peeked.header.length == |slot.event.data|
         && peeked.header.sequence == slot.seqno
         && peeked.beginOffset == 8 * slot.cell && peeked.payload == 8 * slot.cell + HEADER_BYTES
         && peeked.endOffset == if stop == capacity then 0 else stop
    }

    // What a peek found is the head event.
    lemma HeadIsTaken(peeked: Peeked)
      requires Valid() && IsHead(peeked)
      ensures var m, p := mem[..], peeked.payload / 4;
              && peeked.payload == 4 * p && p + peeked.header.length <= |m|
              && Took(Slots(), [Event(peeked.header.timestamp, m[p .. p + peeked.header.length])], Slots()[1..])
      ensures HeaderInside(mem[..], peeked.beginOffset / 8)
    {
      HeadWords(mem[..], end, readPosition / 8, writePosition / 8);
      ghost var slot, p := Slots()[0], peeked.payload / 4;
      assert p == 2 * slot.cell + 6 && peeked.header.length == |slot.event.data|;
      assert Event(peeked.header.timestamp, mem[..][p .. p + peeked.header.length]) == slot.event;
    }

    // Where the reader continues after the head event, the rest of the chain begins.
    lemma HeadIsCommitted(peeked: Peeked, r': nat) returns (cell: nat)
      requires Valid() && IsHead(peeked)
      requires r' == if peeked.endOffset >= capacity then 0 else peeked.endOffset
      ensures HeaderInside(mem[..], peeked.beginOffset / 8)
      ensures Sequence(mem[..], peeked.beginOffset / 8) == peeked.header.sequence
      ensures r' == 8 * cell && r' < capacity && cell <= end
      ensures Chain(mem[..], end, cell, writePosition / 8) == Some(Slots()[1..])
    {
      ghost var slot := Slots()[0];
      ChainPop(mem[..], end, readPosition / 8, writePosition / 8);
      var stop := slot.cell + RecordCells(|slot.event.data|);
      cell := if 8 * stop == capacity then 0 else stop;
    }

    // One round of PeekNext's loop: an answer, or a retry because the header is not published or
    // a wrap marker was stepped over.
    method PeekOnce() returns (retry: bool, status: Status, peeked: Peeked)
      requires Valid() && capacity > HEADER_BYTES
      modifies this`readPosition
      ensures Valid()
      ensures !retry ==> readPosition == old(readPosition)
      ensures !retry ==> status == if Readables(Slots()) == [] then WOULD_BLOCK else OK
      ensures !retry && status == OK ==> IsHead(peeked)
      ensures retry ==> AtMarker(old(Slots())) || Readables(Slots()) == []
      ensures !retry ==> !AtMarker(old(Slots()))
      ensures Looked(old(Slots()), old(readPosition), Slots(), readPosition)
    {
      peeked := Peeked(Header(0, 0, 0, 0), 0, 0, 0);
      var ret, readIndex := UpdateReadIndexIfNeed(readPosition, writePosition);
      PeekCases(mem[..], end, readPosition / 8, writePosition / 8);
      if ret != OK {
        return false, ret, peeked;
      }
      assert readIndex == 8 * HeadCell(end, readPosition / 8);
      var ok, header := ReadHeaderSafely(readIndex);
      if !ok {
        return true, WOULD_BLOCK, peeked;
      }
      retry, status, peeked := PeekHeader(readIndex, header);
    }

    // What follows once a published header was read.
    method PeekHeader(readIndex: nat, header: Header) returns (retry: bool, status: Status, peeked: Peeked)
      requires Valid() && capacity > HEADER_BYTES && Slots() != [] && Slots()[0].seqno != 0
      requires readIndex == 8 * HeadCell(end, readPosition / 8) && HeaderInside(mem[..], readIndex / 8)
      requires var m, k := mem[..], readIndex / 8;
               header == Header(Timestamp(m, k), Length(m, k), Flags(m, k), Sequence(m, k))
      modifies this`readPosition
      ensures Valid()
      ensures !retry ==> readPosition == old(readPosition) && status == OK && IsHead(peeked)
      ensures retry == AtMarker(old(Slots()))
      ensures Looked(old(Slots()), old(readPosition), Slots(), readPosition)
    {
      peeked := Peeked(Header(0, 0, 0, 0), 0, 0, 0);
      PeekCases(mem[..], end, readPosition / 8, writePosition / 8);
      if header.flags % 2 == 1 {
        if header.length != 0 {
          return false, SHM_BROKEN, peeked;
        }
        readPosition := 0;
        return true, OK, peeked;
      }
      if readIndex == writePosition {
        return true, WOULD_BLOCK, peeked;
      }
      status, peeked := BuildPeekedEvent(header, readIndex);
      retry := false;
    }

    // OK exactly when a published event is there to be read. Nothing is taken from the queue; at
    // most a wrap marker is stepped over. Three tries always suffice.
    method PeekNext() returns (status: Status, peeked: Peeked)
      requires Valid()
      modifies this`readPosition
      ensures Valid() && Took(old(Slots()), [], Slots())
      ensures status == if capacity <= HEADER_BYTES then SHM_BROKEN
                        else if Readables(old(Slots())) == [] then WOULD_BLOCK else OK
      ensures status == OK ==> IsHead(peeked)
      ensures if capacity <= HEADER_BYTES then readPosition == old(readPosition)
              else Looked(old(Slots()), old(readPosition), Slots(), readPosition) && !AtMarker(Slots())
    {
      peeked := Peeked(Header(0, 0, 0, 0), 0, 0, 0);
      if capacity < HEADER_BYTES + 1 {
        return SHM_BROKEN, peeked;
      }
      var retryCount := 3;
      while retryCount > 0
        invariant 0 <= retryCount <= 3 && Valid()
        invariant retryCount == 3 ==> Slots() == old(Slots()) && readPosition == old(readPosition)
        invariant retryCount < 3 ==> Looked(old(Slots()), old(readPosition), Slots(), readPosition)
        invariant retryCount < 3 ==> !AtMarker(Slots())
        invariant (retryCount == 2 && !AtMarker(old(Slots()))) || retryCount < 2 ==> Readables(Slots()) == []
      {
        retryCount := retryCount - 1;
        var retry;
        retry, status, peeked := PeekOnce();
        if !retry {
          LookingTakesNothing(old(Slots()), old(readPosition), Slots(), readPosition);
          return;
        }
        PeekCases(mem[..], end, readPosition / 8, writePosition / 8);
      }
      LookingTakesNothing(old(Slots()), old(readPosition), Slots(), readPosition);
      return WOULD_BLOCK, peeked;
    }

    // Committing the last peek takes exactly that event.
    method CommitRead(peeked: Peeked) returns (ok: bool)
      requires Valid() && HeaderInside(mem[..], peeked.beginOffset / 8)
      modifies this`readPosition
      ensures ok == (Sequence(mem[..], peeked.beginOffset / 8) == peeked.header.sequence)
      ensures readPosition ==
              if ok then (if peeked.endOffset >= capacity then 0 else peeked.endOffset) else old(readPosition)
      ensures old(IsHead(peeked)) ==> ok && Valid() && Slots() == old(Slots())[1..]
    {
      ghost var cell := 0;
      if IsHead(peeked) {
        cell := HeadIsCommitted(peeked, if peeked.endOffset >= capacity then 0 else peeked.endOffset);
      }
      var currentSeq := mem[2 * (peeked.beginOffset / 8) + 4];
      if currentSeq != peeked.header.sequence {
        return false;
      }
      var stop := peeked.endOffset;
      if stop >= capacity {
        stop := 0;
      }
      readPosition := stop;
      ok := true;
      assert old(IsHead(peeked)) ==> readPosition / 8 == cell;
    }

    method CopyOut(peeked: Peeked) returns (event: Event)
      requires peeked.payload == 4 * (peeked.payload / 4)
      requires peeked.payload / 4 + peeked.header.length <= mem.Length
      ensures event == Event(peeked.header.timestamp,
                             mem[peeked.payload / 4 .. peeked.payload / 4 + peeked.header.length])
    {
      var p := peeked.payload / 4;
      return Event(peeked.header.timestamp, mem[p .. p + peeked.header.length]);
    }

    // Takes the readable events in order, all of them when maxEvents is 0.
    method DrainToBatch(maxEvents: nat) returns (outEvents: seq<Event>)
      requires Valid()
      modifies this`readPosition
      ensures Valid() && Took(old(Slots()), outEvents, Slots())
      ensures capacity > HEADER_BYTES ==>
                var all := Readables(old(Slots()));
                outEvents == if maxEvents == 0 || |all| <= maxEvents then all else all[..maxEvents]
      ensures capacity > HEADER_BYTES && maxEvents == 0 ==> !AtMarker(Slots())
      ensures Live(old(Slots())) ==> Live(Slots())
      ensures capacity <= HEADER_BYTES ==> outEvents == []
      ensures capacity > HEADER_BYTES && Readables(old(Slots())) == [] ==>
                Looked(old(Slots()), old(readPosition), Slots(), readPosition)
    {
      outEvents := [];
      ghost var start := Slots();
      while maxEvents == 0 || |outEvents| < maxEvents
        invariant Valid() && Took(start, outEvents, Slots())
        invariant maxEvents == 0 || |outEvents| <= maxEvents
        invariant capacity <= HEADER_BYTES ==> outEvents == []
        invariant outEvents == [] ==> Slots() == start && readPosition == old(readPosition)
        invariant Live(start) ==> Live(Slots())
        decreases |Queue()|
      {
        ghost var slots := Slots();
        var status, peeked := PeekNext();
        TookMore(start, outEvents, slots, [], Slots());
        assert outEvents + [] == outEvents;
        if status != OK {
          break;
        }
        HeadIsTaken(peeked);
        slots := Slots();
        var copied := CopyOut(peeked);
        var ok := CommitRead(peeked);
        TookMore(start, outEvents, slots, [copied], Slots());
        if ok {
          outEvents := outEvents + [copied];
        }
      }
    }

    // Nothing happens when the flush flag is not to be had before the deadline.
    method Flush(gotFlag: bool)
      requires Valid()
      modifies mem, this`readPosition, this`writePosition
      ensures Valid() && Slots() == if gotFlag then [] else old(Slots())
      ensures gotFlag ==> forall i :: 0 <= i < mem.Length ==> mem[i] == 0
      ensures !gotFlag ==> mem[..] == old(mem[..]) && readPosition == old(readPosition)
                           && writePosition == old(writePosition)
    {
      if !gotFlag {
        return;
      }
      readPosition := 0;
      writePosition := 0;
      forall i | 0 <= i < mem.Length {
        mem[i] := 0;
      }
    }
  }
}
