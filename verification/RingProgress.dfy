/** The ring with writer and reader at the same time gets on: so many steps of one side finish what it is
    at, whatever the other side does in between. */
module RingProgress {
  import opened Words
  import opened RingLayout
  import opened RingWrites
  import opened RingConcurrent
  import SharedRing

  // ---------- The reader ----------

  // The oldest unread event is not hidden behind a header published with number 0.
  ghost predicate Readable(s: State) {
    var slots := Unread(s);
    slots != [] && slots[0].seqno != 0 && (slots[0].wrap ==> |slots| > 1 && !slots[1].wrap && slots[1].seqno != 0)
  }

  ghost function Oldest(s: State): Event
    requires Readable(s)
  {
    if Unread(s)[0].wrap then Unread(s)[1].event else Unread(s)[0].event
  }

  // The steps a reader needs for an event it has not begun with: a look, six loads, the tests, the words,
  // the comparison, and the commit.
  function Whole(e: Event): nat {
    |e.data| + 10
  }

  // The steps the reader still needs until it has delivered the oldest event.
  ghost function ReaderLeft(s: State): nat
    requires Base(s) && ReaderOk(s) && Readable(s)
  {
    var e, wrap := Oldest(s), Unread(s)[0].wrap;
    match s.reader
    case ReaderIdle => if wrap then 8 + Whole(e) else Whole(e)
    case ReadingHeader(_, got) => if wrap then 7 - |got| + Whole(e) else Whole(e) - 1 - |got|
    case Copying(_, _, payload) => |e.data| - |payload| + 2
    case Committing(_, _) => 1
  }

  // A step of the reader brings the delivery nearer, or is the delivery.
  lemma ReaderGetsOn(s: State)
    requires Inv(s) && Readable(s)
    ensures var s' := ReaderStep(s);
            && Inv(s')
            && if s.reader.Committing? then s'.delivered == s.delivered + [Oldest(s)]
               else s'.delivered == s.delivered && Readable(s') && Oldest(s') == Oldest(s)
                    && ReaderLeft(s') < ReaderLeft(s)
  {
    ReaderKeeps(s);
    match s.reader
    case ReaderIdle => LookGetsOn(s);
    case ReadingHeader(_, got) =>
      if |got| == |HEADER_LOADS| { JudgeGetsOn(s); } else { ReaderOnly(s, ReaderStep(s)); }
    case Copying(_, header, payload) =>
      if |payload| < header[3] { CopyGetsOn(s); } else { CompareGetsOn(s); }
    case Committing(_, _) =>
  }

  lemma LookGetsOn(s: State)
    requires Inv(s) && Readable(s) && s.reader == ReaderIdle
    ensures ReaderStep(s) == s.(reader := ReadingHeader(HeadCell(s.End(), s.read), []))
    ensures Unread(ReaderStep(s)) == Unread(s)
  {
    ChainHead(s.mem, s.End(), s.read, s.write);
    ReaderOnly(s, ReaderStep(s));
  }

  // A published header passes the tests.
  lemma JudgeGetsOn(s: State)
    requires Inv(s) && Readable(s) && s.reader.ReadingHeader? && |s.reader.got| == |HEADER_LOADS|
    ensures var s', slots := ReaderStep(s), Unread(s);
            if slots[0].wrap then s' == s.(read := 0, reader := ReaderIdle) && Unread(s') == slots[1..]
            else s' == s.(reader := Copying(s.reader.cell, s.reader.got, [])) && Unread(s') == slots
  {
    JudgePasses(s);
    if Unread(s)[0].wrap {
      HeadInMemory(s);
    } else {
      ReaderOnly(s, ReaderStep(s));
    }
  }

  lemma JudgePasses(s: State)
    requires Base(s) && ReaderOk(s) && s.reader.ReadingHeader? && |s.reader.got| == |HEADER_LOADS|
    requires Unread(s)[0].seqno != 0
    ensures ReaderStep(s) == if Unread(s)[0].wrap then s.(read := 0, reader := ReaderIdle)
                             else s.(reader := Copying(s.reader.cell, s.reader.got, []))
  {
    var h, got := s.reader.cell, s.reader.got;
    HeadHeader(s);
    assert got[0] == s.mem[2 * h + HEADER_LOADS[0]] && got[5] == s.mem[2 * h + HEADER_LOADS[5]];
    assert got[3] == s.mem[2 * h + HEADER_LOADS[3]] && got[4] == s.mem[2 * h + HEADER_LOADS[4]];
    JudgeOutcome(s, h, got, Unread(s)[0].wrap);
  }

  lemma JudgeOutcome(s: State, h: nat, got: seq<word>, wrap: bool)
    requires |got| == |HEADER_LOADS| && got[0] != 0 && got[0] % 2 == 0 && got[0] == got[5] && h != s.write
    requires (got[4] % 2 == 1) == wrap && (wrap ==> got[3] == 0)
    requires !wrap ==> RecordBytes(got[3]) < s.capacity && 8 * h + RecordBytes(got[3]) <= s.capacity
    ensures Judge(s, h, got) == if wrap then s.(read := 0, reader := ReaderIdle) else s.(reader := Copying(h, got, []))
  {
  }

  // The header of the head slot as the reader's tests see it.
  lemma HeadHeader(s: State)
    requires Base(s) && Unread(s) != []
    ensures var h, slot := HeadCell(s.End(), s.read), Unread(s)[0];
            && HeaderInside(s.mem, h) && h != s.write && slot.seqno % 2 == 0
            && Sequence(s.mem, h) == slot.seqno && slot.wrap == (Flags(s.mem, h) % 2 == 1)
            && (slot.wrap ==> Length(s.mem, h) == 0)
            && (!slot.wrap ==> RecordBytes(Length(s.mem, h)) < s.capacity
                               && 8 * h + RecordBytes(Length(s.mem, h)) <= s.capacity)
  {
    ChainHead(s.mem, s.End(), s.read, s.write);
    HeadInMemory(s);
  }

  lemma CopyGetsOn(s: State)
    requires Inv(s) && Readable(s) && s.reader.Copying? && |s.reader.payload| < s.reader.header[3]
    ensures var s' := ReaderStep(s);
            && Unread(s') == Unread(s) && s'.reader.Copying? && s'.delivered == s.delivered
            && |s'.reader.payload| == |s.reader.payload| + 1 <= |Oldest(s).data|
  {
    CopyGoesOn(s);
    ReaderOnly(s, ReaderStep(s));
  }

  lemma CompareGetsOn(s: State)
    requires Inv(s) && Readable(s) && s.reader.Copying? && |s.reader.payload| >= s.reader.header[3]
    ensures var s' := ReaderStep(s);
            Unread(s') == Unread(s) && s'.reader.Committing? && s'.delivered == s.delivered
  {
    var h := s.reader.cell;
    assert s.reader.header[0] == s.mem[2 * h + HEADER_LOADS[0]];
    CopyEnds(s);
    ReaderOnly(s, ReaderStep(s));
  }

  // A step of the writer leaves the reader what it has before it.
  lemma WriterLeavesReader(s: State, a: Action)
    requires Inv(s) && Readable(s) && a != ReaderMoves
    ensures var s' := Do(s, a);
            && Inv(s') && Readable(s') && Oldest(s') == Oldest(s) && ReaderLeft(s') == ReaderLeft(s)
            && s'.delivered == s.delivered
  {
    StepKeeps(s, a);
    if a.WriterMoves? {
      WriterKeeps(s);
      WriterOnly(s);
    }
  }

  lemma WriterOnly(s: State)
    requires |s.mem| == s.capacity / 4 < TWO_32
    ensures var s' := WriterStep(s);
            s'.reader == s.reader && s'.read == s.read && s'.delivered == s.delivered && s'.capacity == s.capacity
  {
  }

  lemma ReaderOnlyMoves(s: State)
    requires |s.mem| == s.capacity / 4 < TWO_32
    ensures var s' := ReaderStep(s);
            && s'.writer == s.writer && s'.write == s.write && s'.mem == s.mem
            && s'.written == s.written && s'.capacity == s.capacity
  {
  }

  function ReaderMovesIn(actions: seq<Action>): nat {
    if actions == [] then 0 else (if actions[0] == ReaderMoves then 1 else 0) + ReaderMovesIn(actions[1..])
  }

  // Whatever the writer does in between, after so many steps of its own the reader has delivered the
  // oldest event.
  lemma {:induction false} OldestIsDelivered(s: State, actions: seq<Action>)
    requires Inv(s) && Readable(s) && ReaderMovesIn(actions) >= ReaderLeft(s)
    ensures s.delivered + [Oldest(s)] <= Run(s, actions).delivered
    decreases |actions|
  {
    assert ReaderLeft(s) >= 1 && actions != [];
    var a, rest := actions[0], actions[1..];
    if a == ReaderMoves {
      ReaderGetsOn(s);
      if s.reader.Committing? {
        DeliveredStays(Do(s, a), rest);
      } else {
        OldestIsDelivered(Do(s, a), rest);
      }
    } else {
      WriterLeavesReader(s, a);
      OldestIsDelivered(Do(s, a), rest);
    }
  }

  lemma {:induction false} DeliveredStays(s: State, actions: seq<Action>)
    requires |s.mem| == s.capacity / 4 < TWO_32
    ensures s.delivered <= Run(s, actions).delivered
    decreases |actions|
  {
    if actions != [] {
      DeliveredStays(Do(s, actions[0]), actions[1..]);
    }
  }

  // From every reachable state: 18 steps and one for each word suffice, and the event is the oldest one
  // that was written and not delivered.
  lemma ReaderProgress(t: State, actions: seq<Action>)
    requires Reachable(t) && Readable(t) && ReaderMovesIn(actions) >= |Oldest(t).data| + 18
    ensures |t.mem| == t.capacity / 4 < TWO_32 && |t.delivered| < |t.written|
    ensures Oldest(t) == t.written[|t.delivered|]
    ensures t.delivered + [t.written[|t.delivered|]] <= Run(t, actions).delivered
  {
    ReachableKeeps(t);
    assert Events(Unread(t)) != [] && Events(Unread(t))[0] == Oldest(t);
    OldestIsDelivered(t, actions);
  }

  // With live headers an unread event is readable.
  lemma LiveIsReadable(t: State)
    requires Reachable(t) && Events(Unread(t)) != [] && forall slot <- Unread(t) :: slot.seqno != 0
    ensures Readable(t)
  {
    ReachableKeeps(t);
    var slots := Unread(t);
    ChainHead(t.mem, t.End(), t.read, t.write);
    if slots[0].wrap {
      ChainHead(t.mem, t.End(), 0, t.write);
      assert Events(slots) == Events(slots[1..]);
      assert slots[1] in slots;
    }
  }

  // ---------- The writer ----------

  // The last test before a record is stored.
  predicate PlaceFits(capacity: nat, seen: nat, w: nat, total: nat) {
    (if w < seen then 8 * seen - 8 * w - 1 else capacity - 8 * w) >= total
  }

  ghost function WriterLeft(s: State): nat {
    match s.writer
    case WriterIdle => 0
    case Loaded(e, _) => |e.data| + 14
    case Marking(e, _, _, todo) => |todo| + |e.data| + 8
    case Placing(e, _) => |e.data| + 7
    case Writing(_, _, todo) => |todo| + 1
  }

  // Whether the event the writer is at will be written: decided by the read position it has seen.
  ghost predicate WillWrite(s: State) {
    match s.writer
    case WriterIdle => false
    case Loaded(e, seen) => SharedRing.Fits(s.capacity, 8 * seen, 8 * s.write, RecordBytes(|e.data|))
    case Marking(e, seen, _, _) => PlaceFits(s.capacity, seen, 0, RecordBytes(|e.data|))
    case Placing(e, seen) => PlaceFits(s.capacity, seen, s.write, RecordBytes(|e.data|))
    case Writing(_, _, _) => true
  }

  ghost predicate SameEvent(s: State, s': State) {
    s.writer != WriterIdle && s'.writer != WriterIdle && s'.writer.event == s.writer.event
  }

  lemma WriterGetsOn(s: State)
    requires Inv(s) && s.writer != WriterIdle
    ensures var s' := WriterStep(s);
            && Inv(s') && WriterLeft(s') < WriterLeft(s)
            && if s'.writer == WriterIdle
               then s'.written == s.written + if WillWrite(s) then [s.writer.event] else []
               else s'.written == s.written && SameEvent(s, s') && WillWrite(s') == WillWrite(s)
  {
    WriterKeeps(s);
    match s.writer
    case Loaded(e, seen) => DecideGetsOn(s, e, seen);
    case Placing(e, seen) => PlaceGetsOn(s, e, seen);
    case _ => StoreGetsOn(s);
  }

  lemma StoreGetsOn(s: State)
    requires Base(s) && WriterOk(s) && (s.writer.Marking? || s.writer.Writing?)
    ensures var s' := WriterStep(s);
            && WriterLeft(s') < WriterLeft(s)
            && if s'.writer == WriterIdle then s.writer.Writing? && s'.written == s.written + [s.writer.event]
               else s'.written == s.written && SameEvent(s, s') && WillWrite(s') == WillWrite(s)
  {
    match s.writer
    case Marking(_, _, goal, todo) => if todo != [] { NearlyStep(s.mem, goal, todo, s.write, 3); }
    case Writing(e, goal, todo) => if todo != [] { NearlyStep(s.mem, goal, todo, s.write, RecordCells(|e.data|)); }
  }

  lemma DecideGetsOn(s: State, e: Event, seen: nat)
    requires Base(s) && WriterOk(s) && s.writer == Loaded(e, seen)
    ensures var s' := Decide(s, e, seen);
            && s'.written == s.written && WriterLeft(s') < WriterLeft(s) && WillWrite(s') == WillWrite(s)
            && (s'.writer == WriterIdle || SameEvent(s, s'))
  {
  }

  lemma PlaceGetsOn(s: State, e: Event, seen: nat)
    requires Base(s) && WriterOk(s) && s.writer == Placing(e, seen)
    ensures var s' := Place(s, e, seen);
            && s'.written == s.written && WriterLeft(s') < WriterLeft(s) && WillWrite(s') == WillWrite(s)
            && (s'.writer == WriterIdle || SameEvent(s, s'))
  {
    if PlaceFits(s.capacity, seen, s.write, RecordBytes(|e.data|)) {
      StaleGap(s.capacity, seen, s.read, s.write, RecordCells(|e.data|));
      assert |RecordTodo(s.write, e)| == |e.data| + 5;
    }
  }

  lemma ReaderLeavesWriter(s: State)
    requires Inv(s)
    ensures var s' := ReaderStep(s);
            Inv(s') && s'.writer == s.writer && s'.written == s.written && WillWrite(s') == WillWrite(s)
  {
    ReaderKeeps(s);
    ReaderOnlyMoves(s);
  }

  function WriterMovesIn(actions: seq<Action>): nat {
    if actions == [] then 0 else (if actions[0] == WriterMoves then 1 else 0) + WriterMovesIn(actions[1..])
  }

  ghost predicate NoneTried(actions: seq<Action>) {
    forall a <- actions :: !a.WriterTries?
  }

  lemma {:induction false} WriterFinishes(s: State, actions: seq<Action>)
    requires Inv(s) && NoneTried(actions) && WriterMovesIn(actions) >= WriterLeft(s)
    ensures Run(s, actions).writer == WriterIdle
    ensures Run(s, actions).written == WrittenInTheEnd(s)
    decreases |actions|
  {
    if actions == [] {
      assert s.written + [] == s.written;
    } else {
      var a, rest := actions[0], actions[1..];
      assert a in actions && forall x <- rest :: x in actions;
      OneActionOn(s, a);
      WriterFinishes(Do(s, a), rest);
    }
  }

  // What is written in the end, seen before and after an action.
  ghost function WrittenInTheEnd(s: State): seq<Event> {
    s.written + if WillWrite(s) then [s.writer.event] else []
  }

  lemma OneActionOn(s: State, a: Action)
    requires Inv(s) && !a.WriterTries?
    ensures var s' := Do(s, a);
            && Inv(s') && WrittenInTheEnd(s') == WrittenInTheEnd(s)
            && WriterLeft(s') <= WriterLeft(s)
            && (a.WriterMoves? && s.writer != WriterIdle ==> WriterLeft(s') < WriterLeft(s))
  {
    if a == ReaderMoves {
      ReaderLeavesWriter(s);
    } else if s.writer != WriterIdle {
      WriterGetsOn(s);
    }
  }

  // An event an idle writer tries is written if and only if it fits at the positions it finds, whatever
  // the reader does until the writer is done.
  lemma WriterProgress(t: State, e: Event, actions: seq<Action>)
    requires Reachable(t) && t.writer == WriterIdle && NoneTried(actions)
    requires WriterMovesIn(actions) >= |e.data| + 14
    ensures |t.mem| == t.capacity / 4 < TWO_32
    ensures var total, end := RecordBytes(|e.data|), Run(t, [WriterTries(e)] + actions);
            && end.writer == WriterIdle
            && var fits := total < t.capacity && SharedRing.Fits(t.capacity, 8 * t.read, 8 * t.write, total);
               end.written == t.written + if fits then [e] else []
  {
    ReachableKeeps(t);
    StepKeeps(t, WriterTries(e));
    assert ([WriterTries(e)] + actions)[1..] == actions;
    WriterFinishes(Do(t, WriterTries(e)), actions);
  }
}
