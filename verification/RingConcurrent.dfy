/** The ring with its writer and its reader running at the same time. A step is one access to
    shared memory together with the local computation around it; between two steps of one side
    the other side may take any number of steps, so each side works on position snapshots that
    may be out of date. Positions are counted in 8-byte cells. */
module RingConcurrent {
  import opened Words
  import opened RingLayout
  import opened RingWrites

  datatype Writer =
    | WriterIdle
    // The read position was loaded; nothing is decided yet.
    | Loaded(event: Event, seen: nat)
    // The sequence number is odd; the words at `todo` are still to become those of `goal`.
    | Marking(event: Event, seen: nat, goal: seq<word>, todo: seq<nat>)
    // The write position is where the record goes, if it still fits.
    | Placing(event: Event, seen: nat)
    | Writing(event: Event, goal: seq<word>, todo: seq<nat>)

  datatype Reader =
    | ReaderIdle
    // The header words loaded so far, in the order of HEADER_LOADS.
    | ReadingHeader(cell: nat, got: seq<word>)
    // The header was accepted; the payload words copied so far.
    | Copying(cell: nat, header: seq<word>, payload: seq<word>)
    // The sequence number was found unchanged; the read position is about to be stored.
    | Committing(cell: nat, event: Event)

  // `written` lists the events whose write position was published, `delivered` those committed.
  datatype State = State(capacity: nat, mem: seq<word>, read: nat, write: nat,
                         writer: Writer, reader: Reader,
                         written: seq<Event>, delivered: seq<Event>)
  {
    function End(): nat { capacity / 8 }
  }

  // Which thread moves; an idle writer also picks the event it tries to write.
  datatype Action = WriterTries(event: Event) | WriterMoves | ReaderMoves

  const HEADER_LOADS: seq<nat> := [4, 0, 1, 2, 3, 4]

  function HeaderIndices(k: nat): seq<nat> {
    [2 * k, 2 * k + 1, 2 * k + 2, 2 * k + 3]
  }

  // The words a writer stores between making the sequence number odd and making it even again.
  function RecordTodo(k: nat, e: Event): seq<nat> {
    HeaderIndices(k) + seq(|e.data|, i requires 0 <= i < |e.data| => 2 * k + 6 + i) + [2 * k + 4]
  }

  function OddSeq(stale: word): word {
    (PublishedSeq(stale) + TWO_32 - 1) % TWO_32
  }

  // ---------- The writer ----------

  // The loads and the tests of TryWriteOneEvent, up to the first store.
  function Decide(s: State, e: Event, seen: nat): (s': State)
    requires s.writer == Loaded(e, seen) && |s.mem| == s.capacity / 4
    ensures |s'.mem| == |s.mem| && s'.capacity == s.capacity
  {
    var total, w := RecordBytes(|e.data|), s.write;
    if RingFree(8 * seen, 8 * w, s.capacity) < total then s.(writer := WriterIdle)
    else if s.capacity - 8 * w >= total then s.(writer := Placing(e, seen))
    else if s.capacity - 8 * w >= HEADER_BYTES then
      assert HeaderInside(s.mem, w);
      s.(mem := s.mem[2 * w + 4 := OddSeq(Sequence(s.mem, w))],
         writer := Marking(e, seen, PutWrap(s.mem, w), HeaderIndices(w) + [2 * w + 4]))
    else s.(write := 0, writer := Placing(e, seen))
  }

  function Place(s: State, e: Event, seen: nat): (s': State)
    requires s.writer == Placing(e, seen) && |s.mem| == s.capacity / 4 < TWO_32
    ensures |s'.mem| == |s.mem| && s'.capacity == s.capacity
  {
    var total, w := RecordBytes(|e.data|), s.write;
    var writeSize := if w < seen then 8 * seen - 8 * w - 1 else s.capacity - 8 * w;
    if writeSize < total || !(2 * (w + RecordCells(|e.data|)) <= |s.mem|) then s.(writer := WriterIdle)
    else
      s.(mem := s.mem[2 * w + 4 := OddSeq(Sequence(s.mem, w))],
         writer := Writing(e, PutRecord(s.mem, w, e), RecordTodo(w, e)))
  }

  // The write position behind a record of that many cells; an exact fit restarts at 0.
  function After(capacity: nat, stop: nat): nat {
    if 8 * stop == capacity then 0 else stop
  }

  function WriterStep(s: State): (s': State)
    requires |s.mem| == s.capacity / 4 < TWO_32
    ensures |s'.mem| == |s.mem| && s'.capacity == s.capacity
  {
    match s.writer
    case WriterIdle => s
    case Loaded(e, seen) => Decide(s, e, seen)
    case Placing(e, seen) => Place(s, e, seen)
    case Marking(e, seen, goal, todo) =>
      if todo == [] then s.(write := 0, writer := Placing(e, seen))
      else if todo[0] < |s.mem| && |goal| == |s.mem| then
        s.(mem := s.mem[todo[0] := goal[todo[0]]], writer := Marking(e, seen, goal, todo[1..]))
      else s
    case Writing(e, goal, todo) =>
      if todo == [] then
        s.(write := After(s.capacity, s.write + RecordCells(|e.data|)), writer := WriterIdle,
           written := s.written + [e])
      else if todo[0] < |s.mem| && |goal| == |s.mem| then
        s.(mem := s.mem[todo[0] := goal[todo[0]]], writer := Writing(e, goal, todo[1..]))
      else s
  }

  // ---------- The reader ----------

  // Loading both positions: nothing to read, or a header to look at.
  function Look(s: State): State {
    var h := HeadCell(s.End(), s.read);
    if s.read == s.write || h == s.write then s.(reader := ReaderIdle)
    else s.(reader := ReadingHeader(h, []))
  }

  // The local tests on a fully loaded header: retry, step over a wrap marker, or go on.
  function Judge(s: State, h: nat, got: seq<word>): State
    requires |got| == |HEADER_LOADS|
  {
    if got[0] == 0 || got[0] % 2 == 1 || got[0] != got[5] then s.(reader := ReaderIdle)
    else if got[4] % 2 == 1 then
      (if got[3] != 0 then s.(reader := ReaderIdle) else s.(read := 0, reader := ReaderIdle))
    else if h == s.write then s.(reader := ReaderIdle)
    else if RecordBytes(got[3]) >= s.capacity || 8 * h + RecordBytes(got[3]) > s.capacity then
      s.(reader := ReaderIdle)
    else s.(reader := Copying(h, got, []))
  }

  function EventFrom(header: seq<word>, payload: seq<word>): Event
    requires |header| == |HEADER_LOADS|
  {
    Event(header[1] + header[2] * TWO_32, payload)
  }

  function ReaderStep(s: State): (s': State)
    requires |s.mem| == s.capacity / 4 < TWO_32
    ensures |s'.mem| == |s.mem| && s'.capacity == s.capacity
  {
    match s.reader
    case ReaderIdle => Look(s)
    case ReadingHeader(h, got) =>
      if |got| >= |HEADER_LOADS| then (if |got| == |HEADER_LOADS| then Judge(s, h, got) else s)
      else if HeaderInside(s.mem, h) then
        s.(reader := ReadingHeader(h, got + [s.mem[2 * h + HEADER_LOADS[|got|]]]))
      else s
    case Copying(h, header, payload) =>
      if |header| != |HEADER_LOADS| || !HeaderInside(s.mem, h) then s
      else if |payload| < header[3] then
        (if 2 * h + 6 + |payload| < |s.mem|
         then s.(reader := Copying(h, header, payload + [s.mem[2 * h + 6 + |payload|]])) else s)
      else if Sequence(s.mem, h) != header[0] then s.(reader := ReaderIdle)
      else s.(reader := Committing(h, EventFrom(header, payload)))
    case Committing(h, e) =>
      s.(read := After(s.capacity, h + RecordCells(|e.data|)), reader := ReaderIdle,
         delivered := s.delivered + [e])
  }

  function Do(s: State, a: Action): (s': State)
    requires |s.mem| == s.capacity / 4 < TWO_32
    ensures |s'.mem| == |s.mem| && s'.capacity == s.capacity
  {
    match a
    case WriterTries(e) =>
      if s.writer == WriterIdle && RecordBytes(|e.data|) < s.capacity
      then s.(writer := Loaded(e, s.read)) else s
    case WriterMoves => WriterStep(s)
    case ReaderMoves => ReaderStep(s)
  }

  // ---------- The invariant ----------

  ghost predicate Base(s: State) {
    && HEADER_BYTES < s.capacity && |s.mem| == s.capacity / 4 < TWO_32
    && 8 * s.read < s.capacity && 8 * s.write < s.capacity
    && Chain(s.mem, s.End(), s.read, s.write).Some?
    && s.written == s.delivered + Events(Unread(s))
  }

  // The headers between the two positions.
  ghost function Unread(s: State): seq<Slot> {
    if s.write <= s.End() && 2 * s.End() <= |s.mem| && Chain(s.mem, s.End(), s.read, s.write).Some?
    then Chain(s.mem, s.End(), s.read, s.write).value
    else []
  }

  // The reader has gone from `seen` towards the writer, and no further.
  ghost predicate Arc(seen: nat, r: nat, w: nat) {
    if seen <= w then seen <= r <= w else seen <= r || r <= w
  }

  // Outside the words still to be stored, which all lie in the given cells, memory is the goal.
  ghost predicate Nearly(m: seq<word>, goal: seq<word>, todo: seq<nat>, k: nat, cells: nat) {
    && |m| == |goal| && (forall i <- todo :: 2 * k <= i < 2 * (k + cells) && i < |m|)
    && forall i :: 0 <= i < |m| && i !in todo ==> m[i] == goal[i]
  }

  ghost predicate WriterOk(s: State)
    requires Base(s)
  {
    match s.writer
    case WriterIdle => true
    case Loaded(e, seen) =>
      8 * seen < s.capacity && Arc(seen, s.read, s.write) && RecordBytes(|e.data|) < s.capacity
    case Marking(e, seen, goal, todo) =>
      && 8 * seen < s.capacity && 0 < seen <= s.read <= s.write && s.write + 3 <= s.End()
      && HeaderInside(goal, s.write) && WrapMarker(goal, s.write)
      && Nearly(s.mem, goal, todo, s.write, 3)
    case Placing(e, seen) =>
      && 8 * seen < s.capacity && Arc(seen, s.read, s.write)
      && (s.write < seen || RingFree(8 * seen, 8 * s.write, s.capacity) >= RecordBytes(|e.data|))
    case Writing(e, goal, todo) =>
      var stop := s.write + RecordCells(|e.data|);
      && Gap(s.End(), s.read, s.write, RecordCells(|e.data|)) && stop <= s.End()
      && (8 * stop == s.capacity ==> 0 < s.read)
      && Nearly(s.mem, goal, todo, s.write, RecordCells(|e.data|))
      && RecordFits(goal, s.write, stop) && Next(goal, s.write) == stop
      && RecordAt(goal, s.write).event == e
  }

  // The header words loaded so far are those in memory.
  ghost predicate LoadedFrom(m: seq<word>, h: nat, got: seq<word>)
    requires HeaderInside(m, h) && |got| <= |HEADER_LOADS|
  {
    forall j :: 0 <= j < |got| ==> got[j] == m[2 * h + HEADER_LOADS[j]]
  }

  ghost predicate ReaderOk(s: State)
    requires Base(s)
  {
    var slots, h := Unread(s), HeadCell(s.End(), s.read);
    s.reader != ReaderIdle ==>
      && slots != [] && s.reader.cell == h && HeaderInside(s.mem, h)
      && (s.reader.ReadingHeader? ==>
            |s.reader.got| <= |HEADER_LOADS| && LoadedFrom(s.mem, h, s.reader.got))
      && (s.reader.Copying? ==>
            && |s.reader.header| == |HEADER_LOADS| && LoadedFrom(s.mem, h, s.reader.header)
            && !slots[0].wrap && slots[0].seqno != 0
            && s.reader.payload <= slots[0].event.data)
      && (s.reader.Committing? ==>
            !slots[0].wrap && slots[0].seqno != 0 && slots[0].event == s.reader.event)
  }

  ghost predicate Inv(s: State) {
    Base(s) && WriterOk(s) && ReaderOk(s)
  }

  // ---------- The writer keeps the invariant ----------

  lemma LoadedStable(m: seq<word>, m': seq<word>, h: nat, got: seq<word>)
    requires HeaderInside(m, h) && Agree(m, m', h, h + 3) && |got| <= |HEADER_LOADS|
    ensures LoadedFrom(m, h, got) ==> LoadedFrom(m', h, got)
  {
    if LoadedFrom(m, h, got) {
      forall j | 0 <= j < |got| ensures got[j] == m'[2 * h + HEADER_LOADS[j]] {
        assert 0 <= HEADER_LOADS[j] < 6;
      }
    }
  }

  // What the reader has seen stays true while the head header and its words stay.
  lemma ReaderKept(s: State, s': State)
    requires Base(s) && Base(s') && ReaderOk(s)
    requires s'.reader == s.reader && s'.read == s.read && s'.capacity == s.capacity
    requires Unread(s) <= Unread(s')
    requires Unread(s) != [] ==> Agree(s.mem, s'.mem, HeadCell(s.End(), s.read), HeadCell(s.End(), s.read) + 3)
    ensures ReaderOk(s')
  {
    var h := HeadCell(s.End(), s.read);
    match s.reader
    case ReadingHeader(_, got) => LoadedStable(s.mem, s'.mem, h, got);
    case Copying(_, header, _) => LoadedStable(s.mem, s'.mem, h, header);
    case _ =>
  }

  lemma FreeStore(s: State, i: nat, v: word, cells: nat)
    requires Base(s) && Gap(s.End(), s.read, s.write, cells)
    requires 2 * s.write <= i < 2 * (s.write + cells) && i < |s.mem|
    ensures var s' := s.(mem := s.mem[i := v]);
            && Unread(s') == Unread(s) && Base(s')
            && (Unread(s) != [] ==>
                  Agree(s.mem, s'.mem, HeadCell(s.End(), s.read), HeadCell(s.End(), s.read) + 3))
  {
    var m' := s.mem[i := v];
    ChainKept(s.mem, m', s.End(), s.read, s.write, cells);
    ChainExtent(s.mem, s.End(), s.read, s.write);
    ChainHead(s.mem, s.End(), s.read, s.write);
    if Unread(s) != [] {
      assert Inside(s.End(), s.read, s.write, Unread(s)[0]);
    }
  }

  // A store into free cells changes nothing for the reader.
  lemma FreeStoreKeeps(s: State, s': State, i: nat, v: word, cells: nat)
    requires Base(s) && ReaderOk(s) && Gap(s.End(), s.read, s.write, cells)
    requires 2 * s.write <= i < 2 * (s.write + cells) && i < |s.mem|
    requires s' == s.(mem := s.mem[i := v], writer := s'.writer)
    ensures Unread(s') == Unread(s) && Base(s') && ReaderOk(s')
  {
    FreeStore(s, i, v, cells);
    ReaderKept(s, s');
  }

  // Room found with an outdated read position is room.
  lemma StaleGap(capacity: nat, seen: nat, r: nat, w: nat, cells: nat)
    requires 8 * r < capacity && 8 * w < capacity && 8 * seen < capacity && Arc(seen, r, w)
    requires w < seen || RingFree(8 * seen, 8 * w, capacity) >= 8 * cells
    requires (if w < seen then 8 * seen - 8 * w - 1 else capacity - 8 * w) >= 8 * cells
    ensures Gap(capacity / 8, r, w, cells) && w + cells <= capacity / 8
    ensures 8 * (w + cells) == capacity ==> 0 < r
  {
  }

  lemma DecideKeeps(s: State, e: Event, seen: nat)
    requires Inv(s) && s.writer == Loaded(e, seen)
    ensures Inv(Decide(s, e, seen)) && Unread(Decide(s, e, seen)) == Unread(s)
  {
    var s', w := Decide(s, e, seen), s.write;
    if s'.writer.Marking? {
      MarkingStarts(s, e, seen);
    } else {
      if s'.write != w {
        ChainShortTail(s.mem, s.End(), s.read, w);
      }
      ReaderKept(s, s');
    }
  }

  lemma MarkingStarts(s: State, e: Event, seen: nat)
    requires Inv(s) && s.writer == Loaded(e, seen) && Decide(s, e, seen).writer.Marking?
    ensures Inv(Decide(s, e, seen)) && Unread(Decide(s, e, seen)) == Unread(s)
  {
    TailIsFree(s, e, seen);
    MarkerOpened(s, e, seen);
  }

  lemma TailIsFree(s: State, e: Event, seen: nat)
    requires Base(s) && WriterOk(s) && s.writer == Loaded(e, seen) && Decide(s, e, seen).writer.Marking?
    ensures 0 < seen <= s.read <= s.write && s.write + 3 <= s.End()
    ensures Gap(s.End(), s.read, s.write, 3)
  {
  }

  // The marker's sequence number has just been made odd.
  lemma MarkerOpened(s: State, e: Event, seen: nat)
    requires Base(s) && ReaderOk(s) && Gap(s.End(), s.read, s.write, 3)
    requires 0 < seen <= s.read <= s.write && s.write + 3 <= s.End()
    ensures HeaderInside(s.mem, s.write)
    ensures var s' := s.(mem := s.mem[2 * s.write + 4 := OddSeq(Sequence(s.mem, s.write))],
                         writer := Marking(e, seen, PutWrap(s.mem, s.write),
                                           HeaderIndices(s.write) + [2 * s.write + 4]));
            Inv(s') && Unread(s') == Unread(s)
  {
    var w := s.write;
    var s' := s.(mem := s.mem[2 * w + 4 := OddSeq(Sequence(s.mem, w))],
                 writer := Marking(e, seen, PutWrap(s.mem, w), HeaderIndices(w) + [2 * w + 4]));
    FreeStoreKeeps(s, s', 2 * w + 4, OddSeq(Sequence(s.mem, w)), 3);
    WrapTodoCovers(s.mem, w);
  }

  lemma WrapTodoCovers(m: seq<word>, k: nat)
    requires HeaderInside(m, k)
    ensures HeaderInside(PutWrap(m, k), k) && WrapMarker(PutWrap(m, k), k)
    ensures Nearly(m[2 * k + 4 := OddSeq(Sequence(m, k))], PutWrap(m, k), HeaderIndices(k) + [2 * k + 4], k, 3)
  {
    PutWrapReads(m, k);
  }

  lemma PlaceKeeps(s: State, e: Event, seen: nat)
    requires Inv(s) && s.writer == Placing(e, seen)
    ensures Inv(Place(s, e, seen)) && Unread(Place(s, e, seen)) == Unread(s)
  {
    var s', w, cells := Place(s, e, seen), s.write, RecordCells(|e.data|);
    if s'.writer.Writing? {
      StaleGap(s.capacity, seen, s.read, w, cells);
      RecordStarts(s, e);
      assert s' == Opened(s, e);
    } else {
      ReaderKept(s, s');
    }
  }

  // The record's sequence number has just been made odd.
  ghost function Opened(s: State, e: Event): State
    requires RoomFor(s.mem, s.write, e)
  {
    s.(mem := s.mem[2 * s.write + 4 := OddSeq(Sequence(s.mem, s.write))],
       writer := Writing(e, PutRecord(s.mem, s.write, e), RecordTodo(s.write, e)))
  }

  lemma RecordStarts(s: State, e: Event)
    requires Base(s) && ReaderOk(s)
    requires var stop := s.write + RecordCells(|e.data|);
             && Gap(s.End(), s.read, s.write, RecordCells(|e.data|)) && stop <= s.End()
             && (8 * stop == s.capacity ==> 0 < s.read)
    ensures Inv(Opened(s, e)) && Unread(Opened(s, e)) == Unread(s)
  {
    var w, cells := s.write, RecordCells(|e.data|);
    FreeStoreKeeps(s, Opened(s, e), 2 * w + 4, OddSeq(Sequence(s.mem, w)), cells);
    PutRecordReads(s.mem, w, e);
    RecordTodoCovers(s.mem, w, e);
  }

  lemma RecordTodoCovers(m: seq<word>, k: nat, e: Event)
    requires RoomFor(m, k, e)
    ensures Nearly(m[2 * k + 4 := OddSeq(Sequence(m, k))], PutRecord(m, k, e), RecordTodo(k, e), k,
                   RecordCells(|e.data|))
  {
    var todo := RecordTodo(k, e);
    assert todo[0] == 2 * k && todo[1] == 2 * k + 1 && todo[2] == 2 * k + 2 && todo[3] == 2 * k + 3;
    assert todo[4 + |e.data|] == 2 * k + 4;
    var m', goal := m[2 * k + 4 := OddSeq(Sequence(m, k))], PutRecord(m, k, e);
    forall i | 0 <= i < |m| && m'[i] != goal[i] ensures i in todo {
      if 2 * k + 6 <= i {
        assert todo[4 + (i - 2 * k - 6)] == i;
      }
    }
  }

  lemma NearlyStep(m: seq<word>, goal: seq<word>, todo: seq<nat>, k: nat, cells: nat)
    requires Nearly(m, goal, todo, k, cells) && todo != []
    ensures 2 * k <= todo[0] < 2 * (k + cells) && todo[0] < |m|
    ensures Nearly(m[todo[0] := goal[todo[0]]], goal, todo[1..], k, cells)
  {
    assert todo[0] in todo && todo == [todo[0]] + todo[1..];
    var m' := m[todo[0] := goal[todo[0]]];
    assert forall i <- todo[1..] :: i in todo;
    assert forall i :: 0 <= i < |m'| && i !in todo[1..] ==> m'[i] == goal[i];
  }

  // One word of the record or marker is stored.
  lemma StoreKeeps(s: State)
    requires Inv(s) && (s.writer.Marking? || s.writer.Writing?) && s.writer.todo != []
    ensures Inv(WriterStep(s)) && Unread(WriterStep(s)) == Unread(s)
  {
    var i, cells := s.writer.todo[0], if s.writer.Marking? then 3 else RecordCells(|s.writer.event.data|);
    NearlyStep(s.mem, s.writer.goal, s.writer.todo, s.write, cells);
    FreeStoreKeeps(s, WriterStep(s), i, s.writer.goal[i], cells);
  }

  // The wrap marker is complete and the write position restarts at 0.
  lemma WrapKeeps(s: State)
    requires Inv(s) && s.writer.Marking? && s.writer.todo == []
    ensures Inv(WriterStep(s)) && Unread(WriterStep(s)) == Unread(s) + [WrapAt(s.mem, s.write)]
  {
    assert s.mem == s.writer.goal;
    ChainWrap(s.mem, s.End(), s.read, s.write);
    EventsAppend(Unread(s), [WrapAt(s.mem, s.write)]);
    ReaderKept(s, WriterStep(s));
  }

  // The record is complete and the write position moves behind it.
  lemma PublishKeeps(s: State)
    requires Inv(s) && s.writer.Writing? && s.writer.todo == []
    ensures Inv(WriterStep(s)) && WriterStep(s).write != s.read
    ensures Unread(WriterStep(s)) == Unread(s) + [RecordAt(s.mem, s.write)]
  {
    assert s.mem == s.writer.goal;
    RecordPublished(s, WriterStep(s), s.writer.event);
    ReaderKept(s, WriterStep(s));
  }

  lemma RecordPublished(s: State, s': State, e: Event)
    requires Base(s) && Gap(s.End(), s.read, s.write, RecordCells(|e.data|))
    requires var stop := s.write + RecordCells(|e.data|);
             && stop <= s.End() && (8 * stop == s.capacity ==> 0 < s.read)
             && RecordFits(s.mem, s.write, stop) && Next(s.mem, s.write) == stop
             && RecordAt(s.mem, s.write).event == e
             && s' == s.(write := After(s.capacity, stop), writer := WriterIdle, written := s.written + [e])
    ensures Base(s') && s'.write != s.read && Unread(s') == Unread(s) + [RecordAt(s.mem, s.write)]
  {
    ChainRecord(s.mem, s.End(), s.read, s.write, RecordCells(|e.data|));
    EventsAppend(Unread(s), [RecordAt(s.mem, s.write)]);
    assert Events([RecordAt(s.mem, s.write)]) == [e];
    assert s.delivered + (Events(Unread(s)) + [e]) == s.delivered + Events(Unread(s)) + [e];
  }

  // A writer step keeps the invariant and only ever adds to the unread headers.
  lemma WriterKeeps(s: State)
    requires Inv(s)
    ensures Inv(WriterStep(s)) && Unread(s) <= Unread(WriterStep(s))
  {
    match s.writer
    case WriterIdle =>
    case Loaded(e, seen) => DecideKeeps(s, e, seen);
    case Placing(e, seen) => PlaceKeeps(s, e, seen);
    case Marking(_, _, _, todo) => if todo == [] { WrapKeeps(s); } else { StoreKeeps(s); }
    case Writing(_, _, todo) => if todo == [] { PublishKeeps(s); } else { StoreKeeps(s); }
  }

  // ---------- The reader keeps the invariant ----------

  // Whatever room the writer has found or is filling, the reader's advance leaves it.
  lemma WriterKept(s: State, s': State)
    requires Base(s) && Base(s') && WriterOk(s) && Forward(s.read, s'.read, s.write)
    requires s'.capacity == s.capacity && s'.mem == s.mem && s'.write == s.write && s'.writer == s.writer
    ensures WriterOk(s')
  {
  }

  // A reader step that loads or compares words changes nothing but the reader.
  lemma ReaderOnly(s: State, s': State)
    requires Inv(s) && s' == s.(reader := s'.reader)
    ensures Base(s') && WriterOk(s') && Unread(s') == Unread(s)
  {
  }

  lemma LookKeeps(s: State)
    requires Inv(s) && s.reader == ReaderIdle
    ensures Inv(Look(s))
  {
    ChainHead(s.mem, s.End(), s.read, s.write);
    ReaderOnly(s, Look(s));
  }

  lemma LoadKeeps(s: State)
    requires Inv(s) && s.reader.ReadingHeader? && |s.reader.got| < |HEADER_LOADS|
    ensures Inv(ReaderStep(s))
  {
    ReaderOnly(s, ReaderStep(s));
  }

  // The head header as it stands in memory.
  lemma HeadInMemory(s: State)
    requires Base(s) && Unread(s) != []
    ensures var slot, h := Unread(s)[0], HeadCell(s.End(), s.read);
            && HeaderInside(s.mem, h) && Sequence(s.mem, h) == slot.seqno
            && slot.wrap == (Flags(s.mem, h) % 2 == 1)
            && (slot.wrap ==> s.write < s.read && Chain(s.mem, s.End(), 0, s.write) == Some(Unread(s)[1..]))
            && (!slot.wrap ==>
                  && slot.cell == h && h + RecordCells(|slot.event.data|) <= s.End()
                  && Timestamp(s.mem, h) == slot.event.timestamp && Length(s.mem, h) == |slot.event.data|
                  && s.mem[2 * h + 6 .. 2 * h + 6 + |slot.event.data|] == slot.event.data)
  {
    assert Unread(s) == Chain(s.mem, s.End(), s.read, s.write).value;
    ChainFirst(s.mem, s.End(), s.read, s.write);
  }

  // Behind a head record lies the rest of the chain.
  lemma HeadTaken(s: State, r': nat)
    requires Base(s) && Unread(s) != [] && !Unread(s)[0].wrap
    requires r' == After(s.capacity, Unread(s)[0].cell + RecordCells(|Unread(s)[0].event.data|))
    ensures 8 * r' < s.capacity && Forward(s.read, r', s.write)
    ensures Chain(s.mem, s.End(), r', s.write) == Some(Unread(s)[1..])
  {
    ChainPop(s.mem, s.End(), s.read, s.write);
  }

  // What the tests on a loaded header can lead to.
  lemma Judged(s: State)
    requires Base(s) && ReaderOk(s) && s.reader.ReadingHeader? && |s.reader.got| == |HEADER_LOADS|
    ensures var s', slot := ReaderStep(s), Unread(s)[0];
            || s' == s.(reader := ReaderIdle)
            || (s' == s.(read := 0, reader := ReaderIdle) && slot.wrap)
            || (s' == s.(reader := Copying(s.reader.cell, s.reader.got, [])) && !slot.wrap && slot.seqno != 0)
  {
    var h, got := s.reader.cell, s.reader.got;
    HeadInMemory(s);
    assert got[0] == s.mem[2 * h + HEADER_LOADS[0]] && got[4] == s.mem[2 * h + HEADER_LOADS[4]];
  }

  lemma JudgeKeeps(s: State)
    requires Inv(s) && s.reader.ReadingHeader? && |s.reader.got| == |HEADER_LOADS|
    ensures Inv(ReaderStep(s))
  {
    Judged(s);
    if Unread(s)[0].wrap {
      WrapTaken(s);
    }
    ReaderOnly(s, s.(reader := ReaderIdle));
    ReaderOnly(s, s.(reader := Copying(s.reader.cell, s.reader.got, [])));
  }

  lemma WrapTaken(s: State)
    requires Inv(s) && Unread(s) != [] && Unread(s)[0].wrap
    ensures Inv(s.(read := 0, reader := ReaderIdle))
  {
    var s', rest := s.(read := 0, reader := ReaderIdle), Unread(s)[1..];
    HeadInMemory(s);
    assert Unread(s') == rest && [] + Events(rest) == Events(rest);
    assert Base(s');
    WriterKept(s, s');
  }

  lemma CopyWordKeeps(s: State)
    requires Inv(s) && s.reader.Copying? && |s.reader.payload| < s.reader.header[3]
    ensures Inv(ReaderStep(s))
  {
    CopyGoesOn(s);
    ReaderOnly(s, ReaderStep(s));
  }

  lemma CopyGoesOn(s: State)
    requires Base(s) && ReaderOk(s) && s.reader.Copying? && |s.reader.payload| < s.reader.header[3]
    ensures var payload, data := s.reader.payload, Unread(s)[0].event.data;
            |payload| < |data|
            && ReaderStep(s) == s.(reader := Copying(s.reader.cell, s.reader.header, payload + [data[|payload|]]))
  {
    assert s.reader.header[3] == s.mem[2 * s.reader.cell + HEADER_LOADS[3]];
    HeadWord(s, |s.reader.payload|);
  }

  lemma HeadWord(s: State, j: nat)
    requires Base(s) && Unread(s) != [] && !Unread(s)[0].wrap
    ensures var h, data := HeadCell(s.End(), s.read), Unread(s)[0].event.data;
            && HeaderInside(s.mem, h) && Length(s.mem, h) == |data|
            && (j < |data| ==> 2 * h + 6 + j < |s.mem| && s.mem[2 * h + 6 + j] == data[j])
  {
    HeadInMemory(s);
    var h, data := HeadCell(s.End(), s.read), Unread(s)[0].event.data;
    assert j < |data| ==> s.mem[2 * h + 6 + j] == s.mem[2 * h + 6 .. 2 * h + 6 + |data|][j];
  }

  // The whole payload is copied; the header is compared once more.
  lemma CopyEndKeeps(s: State)
    requires Inv(s) && s.reader.Copying? && |s.reader.payload| >= s.reader.header[3]
    ensures Inv(ReaderStep(s))
  {
    CopyEnds(s);
    ReaderOnly(s, ReaderStep(s));
  }

  lemma CopyEnds(s: State)
    requires Base(s) && ReaderOk(s) && s.reader.Copying? && |s.reader.payload| >= s.reader.header[3]
    ensures ReaderStep(s) == s.(reader := ReaderIdle)
            || ReaderStep(s) == s.(reader := Committing(s.reader.cell, Unread(s)[0].event))
  {
    var h, header, slot := s.reader.cell, s.reader.header, Unread(s)[0];
    HeadInMemory(s);
    assert header[3] == s.mem[2 * h + HEADER_LOADS[3]];
    assert s.reader.payload == slot.event.data;
    assert header[1] == s.mem[2 * h + HEADER_LOADS[1]] && header[2] == s.mem[2 * h + HEADER_LOADS[2]];
  }

  // The read position moves behind the head record, which is exactly the event delivered.
  lemma CommitKeeps(s: State)
    requires Inv(s) && s.reader.Committing?
    ensures Inv(ReaderStep(s)) && Unread(ReaderStep(s)) == Unread(s)[1..]
  {
    HeadDelivered(s, ReaderStep(s));
    WriterKept(s, ReaderStep(s));
  }

  lemma HeadDelivered(s: State, s': State)
    requires Base(s) && Unread(s) != [] && !Unread(s)[0].wrap
    requires var slot := Unread(s)[0];
             s' == s.(read := After(s.capacity, slot.cell + RecordCells(|slot.event.data|)), reader := ReaderIdle,
                      delivered := s.delivered + [slot.event])
    ensures Base(s') && Unread(s') == Unread(s)[1..] && Forward(s.read, s'.read, s.write)
  {
    var rest := Unread(s)[1..];
    HeadTaken(s, s'.read);
    assert s.delivered + ([Unread(s)[0].event] + Events(rest)) == s'.delivered + Events(rest);
  }

  lemma ReaderKeeps(s: State)
    requires Inv(s)
    ensures Inv(ReaderStep(s))
  {
    match s.reader
    case ReaderIdle => LookKeeps(s);
    case ReadingHeader(_, got) => if |got| == |HEADER_LOADS| { JudgeKeeps(s); } else { LoadKeeps(s); }
    case Copying(_, header, payload) =>
      if |payload| < header[3] { CopyWordKeeps(s); } else { CopyEndKeeps(s); }
    case Committing(_, _) => CommitKeeps(s);
  }

  // ---------- Every run ----------

  // A ring just mapped: both positions 0, nobody active, memory holding anything.
  ghost predicate Start(s: State) {
    && HEADER_BYTES < s.capacity && |s.mem| == s.capacity / 4 < TWO_32
    && s.read == 0 == s.write && s.writer == WriterIdle && s.reader == ReaderIdle
    && s.written == [] == s.delivered
  }

  function Run(s: State, actions: seq<Action>): State
    requires |s.mem| == s.capacity / 4 < TWO_32
    decreases |actions|
  {
    if actions == [] then s else Run(Do(s, actions[0]), actions[1..])
  }

  // Some interleaving leads from a freshly mapped ring to this state.
  ghost predicate Reachable(t: State) {
    exists s, actions :: Start(s) && Run(s, actions) == t
  }

  lemma StepKeeps(s: State, a: Action)
    requires Inv(s)
    ensures Inv(Do(s, a))
  {
    match a
    case WriterTries(_) =>
    case WriterMoves => WriterKeeps(s);
    case ReaderMoves => ReaderKeeps(s);
  }

  lemma {:induction false} RunKeeps(s: State, actions: seq<Action>)
    requires Inv(s)
    ensures Inv(Run(s, actions))
    decreases |actions|
  {
    if actions != [] {
      StepKeeps(s, actions[0]);
      RunKeeps(Do(s, actions[0]), actions[1..]);
    }
  }

  lemma ReachableKeeps(t: State)
    requires Reachable(t)
    ensures Inv(t)
  {
    var s, actions :| Start(s) && Run(s, actions) == t;
    assert s.written == s.delivered + Events([]);
    RunKeeps(s, actions);
  }

  // However the two sides interleave, the events delivered are the events written, in write
  // order, each once, up to those memory still holds between the two positions.
  lemma DeliveryIsFifo(t: State)
    requires Reachable(t)
    ensures t.write <= t.End() && 2 * t.End() <= |t.mem| && Chain(t.mem, t.End(), t.read, t.write).Some?
    ensures t.written == t.delivered + Events(Unread(t))
  {
    ReachableKeeps(t);
  }

  // The writer never changes a word of a header or payload that is still unread, nor does its
  // position catch up with the reader of a non-empty ring.
  lemma WriterSparesUnread(t: State, slot: Slot, i: nat)
    requires Reachable(t) && slot in Unread(t)
    requires 2 * slot.cell <= i < 2 * (slot.cell + SlotCells(slot))
    ensures i < |t.mem| == t.capacity / 4 < TWO_32
    ensures WriterStep(t).mem[i] == t.mem[i]
    ensures slot in Unread(WriterStep(t)) && WriterStep(t).write != t.read
  {
    ReachableKeeps(t);
    UnreadLies(t, slot, i);
    StaysUnread(t, slot);
    StoresAreFree(t, i);
  }

  lemma StaysUnread(t: State, slot: Slot)
    requires Inv(t) && slot in Unread(t)
    ensures slot in Unread(WriterStep(t)) && WriterStep(t).write != t.read
  {
    var t' := WriterStep(t);
    WriterKeeps(t);
    ChainHead(t'.mem, t'.End(), t'.read, t'.write);
    assert t'.read == t.read;
  }

  lemma UnreadLies(t: State, slot: Slot, i: nat)
    requires Base(t) && slot in Unread(t) && 2 * slot.cell <= i < 2 * (slot.cell + SlotCells(slot))
    ensures i < |t.mem|
    ensures if t.read <= t.write then 2 * t.read <= i < 2 * t.write else 2 * t.read <= i || i < 2 * t.write
  {
    ChainExtent(t.mem, t.End(), t.read, t.write);
    assert Inside(t.End(), t.read, t.write, slot);
  }

  lemma StoresAreFree(t: State, i: nat)
    requires Inv(t) && i < |t.mem|
    requires (if t.read <= t.write then 2 * t.read <= i < 2 * t.write
              else 2 * t.read <= i || i < 2 * t.write)
    ensures WriterStep(t).mem[i] == t.mem[i]
  {
    match t.writer
    case Marking(_, _, goal, todo) => if todo != [] { NearlyStep(t.mem, goal, todo, t.write, 3); }
    case Writing(e, goal, todo) => if todo != [] { NearlyStep(t.mem, goal, todo, t.write, RecordCells(|e.data|)); }
    case _ =>
  }

  // A reader delivers only the oldest unread event, and only when its header was published.
  lemma ReaderTakesTheOldest(t: State)
    requires Reachable(t) && |t.mem| == t.capacity / 4 < TWO_32
    ensures var t' := ReaderStep(t);
            t'.delivered != t.delivered ==>
              && Unread(t) != [] && !Unread(t)[0].wrap && Unread(t)[0].seqno != 0
              && t'.delivered == t.delivered + [Unread(t)[0].event] && Unread(t') == Unread(t)[1..]
  {
    ReachableKeeps(t);
    if t.reader.Committing? {
      CommitKeeps(t);
    }
  }
}
