/** A header that is being written carries an odd number, and a reader never accepts a number that is odd,
    0, or not the same before and after. */
module RingTorn {
  import opened Words
  import opened RingLayout
  import opened RingWrites
  import opened RingConcurrent
  import opened RingProgress

  // ---------- The writer's side ----------

  // The number of the header at k is odd, and its word is the last of those still to be stored.
  ghost predicate OddUntilLast(m: seq<word>, k: nat, todo: seq<nat>) {
    todo != [] ==>
      && 2 * k + 4 < |m| && m[2 * k + 4] % 2 == 1 && todo[|todo| - 1] == 2 * k + 4
      && forall i :: 0 <= i < |todo| - 1 ==> todo[i] != 2 * k + 4
  }

  // While words of a marker or a record are still to be stored, its number is odd and is stored last.
  ghost predicate Marked(s: State) {
    s.writer.Marking? || s.writer.Writing? ==> OddUntilLast(s.mem, s.write, s.writer.todo)
  }

  lemma OddSeqIsOdd(stale: word)
    ensures OddSeq(stale) % 2 == 1
  {
    PublishedSeqIsDeadExactly(stale);
    var seqno := PublishedSeq(stale);
    if seqno == 0 {
      assert (seqno + TWO_32 - 1) % TWO_32 == TWO_32 - 1;
    } else {
      assert (seqno + TWO_32 - 1) % TWO_32 == seqno - 1;
    }
  }

  // Opening a header for writing.
  lemma Opened(m: seq<word>, k: nat, todo: seq<nat>)
    requires HeaderInside(m, k) && todo != [] && todo[|todo| - 1] == 2 * k + 4
    requires forall i :: 0 <= i < |todo| - 1 ==> todo[i] != 2 * k + 4
    ensures OddUntilLast(m[2 * k + 4 := OddSeq(Sequence(m, k))], k, todo)
  {
    OddSeqIsOdd(Sequence(m, k));
  }

  lemma StoredOne(m: seq<word>, v: word, k: nat, todo: seq<nat>)
    requires OddUntilLast(m, k, todo) && todo != [] && todo[0] < |m|
    ensures OddUntilLast(m[todo[0] := v], k, todo[1..])
  {
    if |todo| > 1 {
      assert todo[0] != 2 * k + 4 && todo[1..][|todo| - 2] == todo[|todo| - 1];
    }
  }

  lemma DecideMarks(s: State, e: Event, seen: nat)
    requires |s.mem| == s.capacity / 4 && s.writer == Loaded(e, seen)
    ensures Marked(Decide(s, e, seen))
  {
    if HeaderInside(s.mem, s.write) {
      Opened(s.mem, s.write, HeaderIndices(s.write) + [2 * s.write + 4]);
    }
  }

  lemma PlaceMarks(s: State, e: Event, seen: nat)
    requires |s.mem| == s.capacity / 4 < TWO_32 && s.writer == Placing(e, seen)
    ensures Marked(Place(s, e, seen))
  {
    if HeaderInside(s.mem, s.write) {
      Opened(s.mem, s.write, RecordTodo(s.write, e));
    }
  }

  lemma WriterStaysMarked(s: State)
    requires |s.mem| == s.capacity / 4 < TWO_32 && Marked(s)
    ensures Marked(WriterStep(s))
  {
    match s.writer
    case Loaded(e, seen) => DecideMarks(s, e, seen);
    case Placing(e, seen) => PlaceMarks(s, e, seen);
    case Marking(_, _, goal, todo) =>
      if todo != [] && todo[0] < |s.mem| == |goal| { StoredOne(s.mem, goal[todo[0]], s.write, todo); }
    case Writing(_, goal, todo) =>
      if todo != [] && todo[0] < |s.mem| == |goal| { StoredOne(s.mem, goal[todo[0]], s.write, todo); }
    case WriterIdle =>
  }

  lemma StepStaysMarked(s: State, a: Action)
    requires |s.mem| == s.capacity / 4 < TWO_32 && Marked(s)
    ensures Marked(Do(s, a))
  {
    match a
    case WriterMoves => WriterStaysMarked(s);
    case ReaderMoves => ReaderOnlyMoves(s);
    case WriterTries(_) =>
  }

  lemma {:induction false} RunStaysMarked(s: State, actions: seq<Action>)
    requires |s.mem| == s.capacity / 4 < TWO_32 && Marked(s)
    ensures Marked(Run(s, actions))
    decreases |actions|
  {
    if actions != [] {
      StepStaysMarked(s, actions[0]);
      RunStaysMarked(Do(s, actions[0]), actions[1..]);
    }
  }

  // In every reachable state a header that is not complete carries an odd number.
  lemma HalfWrittenIsOdd(t: State)
    requires Reachable(t) && (t.writer.Marking? || t.writer.Writing?) && t.writer.todo != []
    ensures HeaderInside(t.mem, t.write) && Sequence(t.mem, t.write) % 2 == 1
  {
    var s, actions :| Start(s) && Run(s, actions) == t;
    RunStaysMarked(s, actions);
    ReachableKeeps(t);
  }

  // ---------- The reader's side ----------

  // Whatever else memory holds: a number that is odd, 0 or changed while the header was loaded makes the
  // reader start again, and nothing is taken.
  lemma TornHeaderIsRefused(s: State, h: nat, got: seq<word>)
    requires |got| == |HEADER_LOADS| && (got[0] % 2 == 1 || got[0] == 0 || got[0] != got[5])
    ensures Judge(s, h, got) == s.(reader := ReaderIdle)
  {
  }

  // A number that changed while the payload was copied does so as well.
  lemma TornPayloadIsRefused(s: State)
    requires |s.mem| == s.capacity / 4 < TWO_32 && s.reader.Copying? && |s.reader.header| == |HEADER_LOADS|
    requires HeaderInside(s.mem, s.reader.cell) && |s.reader.payload| >= s.reader.header[3]
    requires Sequence(s.mem, s.reader.cell) != s.reader.header[0]
    ensures ReaderStep(s) == s.(reader := ReaderIdle)
  {
  }

  // And a commit is only ever reached with the number the header was accepted with.
  lemma CommitNeedsTheNumber(s: State)
    requires |s.mem| == s.capacity / 4 < TWO_32 && !s.reader.Committing? && ReaderStep(s).reader.Committing?
    ensures s.reader.Copying? && HeaderInside(s.mem, s.reader.cell) && |s.reader.header| == |HEADER_LOADS|
    ensures Sequence(s.mem, s.reader.cell) == s.reader.header[0]
  {
  }

  // The number is loaded before and after everything else.
  lemma NumberIsLoadedTwice()
    ensures HEADER_LOADS[0] == 4 == HEADER_LOADS[5] && {0, 1, 2, 3} == set i | 1 <= i <= 4 :: HEADER_LOADS[i]
  {
    assert HEADER_LOADS[1] == 0 && HEADER_LOADS[2] == 1 && HEADER_LOADS[3] == 2 && HEADER_LOADS[4] == 3;
  }
}
