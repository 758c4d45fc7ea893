/** The wait/wake protocol on the ring's futex word, as steps of waiting threads and any number of
    waking threads. A step is one access to the word, one evaluation of a waiter's predicate, or one
    kernel call; the kernel compares the word and puts the waiter to sleep in one step. */
module Futex {
  const IS_READY := 0
  const IS_NOT_READY := 1
  const IS_PRE_EXIT := 2
  const WAIT_TRY_COUNT := 50

  datatype Code = SUCCESS | TIMEOUT | OPERATION_FAILED

  datatype Place =
    | Outside
    | Swapping                // about to compare-and-swap READY to NOT_READY
    | Checking                // about to evaluate the predicate
    | Calling                 // found it false; about to enter the kernel
    | Asleep
    | Rechecking              // back from the kernel; about to evaluate the predicate again
    | Returned(code: Code)

  // A thread that may call FutexWait, with the present value of its predicate.
  datatype Waiter = Waiter(place: Place, tries: nat, pred: bool)

  // A waker that has made its change and not yet returned from FutexWake.
  datatype Waker =
    | Loading(exit: bool)
    | Storing                 // about to store PRE_EXIT
    | Releasing               // about to compare-and-swap NOT_READY to READY
    | Waking                  // about to make the kernel wake everyone

  datatype State = State(word: nat, waiters: seq<Waiter>, wakers: map<nat, Waker>)

  datatype Action =
    | Notify(id: nat, exit: bool, serves: set<nat>)  // a change, with the FutexWake that follows it
    | Consume(who: nat)                              // a predicate becomes false
    | WakerMoves(id: nat)
    | Starts(who: nat)                               // a waiter calls FutexWait
    | Moves(who: nat)
    | TimesOut(who: nat)                             // the timeout is found expired, or expires asleep
    | SpuriousWake(who: nat)

  function Woken(w: Waiter): Waiter {
    if w.place == Asleep then w.(place := Rechecking) else w
  }

  function WakerStep(s: State, id: nat): State
    requires id in s.wakers
  {
    match s.wakers[id]
    case Loading(exit) =>
      if s.word > IS_PRE_EXIT then s.(wakers := s.wakers - {id})
      else s.(wakers := s.wakers[id := if exit then Storing else Releasing])
    case Storing => s.(word := IS_PRE_EXIT, wakers := s.wakers[id := Waking])
    case Releasing =>
      if s.word == IS_NOT_READY then s.(word := IS_READY, wakers := s.wakers[id := Waking])
      else s.(wakers := s.wakers - {id})
    case Waking =>
      s.(waiters := seq(|s.waiters|, i requires 0 <= i < |s.waiters| => Woken(s.waiters[i])),
         wakers := s.wakers - {id})
  }

  // A waiter's next step, with the word as it finds and leaves it.
  function WaiterStep(word: nat, w: Waiter): (nat, Waiter) {
    match w.place
    case Swapping =>
      if w.tries >= WAIT_TRY_COUNT then (word, w.(place := Returned(OPERATION_FAILED)))
      else if word == IS_READY then (IS_NOT_READY, w.(place := Checking))
      else if word == IS_PRE_EXIT then (word, w.(place := Returned(OPERATION_FAILED)))
      else (word, w.(place := Checking))
    case Checking => (word, w.(place := if w.pred then Returned(SUCCESS) else Calling))
    case Calling => (word, w.(place := if word == IS_NOT_READY then Asleep else Rechecking))
    case Rechecking =>
      if w.pred then (word, w.(place := Returned(SUCCESS)))
      else (word, w.(tries := w.tries + 1, place := Swapping))
    case _ => (word, w)
  }

  function WaiterDoes(word: nat, w: Waiter, a: Action): (nat, Waiter) {
    match a
    case Consume(_) => (word, w.(pred := false))
    case Starts(_) =>
      (word, if w.place.Outside? || w.place.Returned? then w.(place := Swapping, tries := 0) else w)
    case Moves(_) => WaiterStep(word, w)
    case TimesOut(_) => (word, if w.place in {Calling, Asleep} then w.(place := Returned(TIMEOUT)) else w)
    case SpuriousWake(_) => (word, Woken(w))
    case _ => (word, w)
  }

  function Do(s: State, a: Action): State {
    match a
    case Notify(id, exit, serves) =>
      if id in s.wakers then s
      else
        s.(waiters := seq(|s.waiters|, i requires 0 <= i < |s.waiters| =>
                            s.waiters[i].(pred := s.waiters[i].pred || i in serves)),
           wakers := s.wakers[id := Loading(exit)])
    case WakerMoves(id) => if id in s.wakers then WakerStep(s, id) else s
    case _ =>
      if a.who >= |s.waiters| then s
      else
        var (word, w) := WaiterDoes(s.word, s.waiters[a.who], a);
        s.(word := word, waiters := s.waiters[a.who := w])
  }

  function Run(s: State, actions: seq<Action>): State
    decreases |actions|
  {
    if actions == [] then s else Run(Do(s, actions[0]), actions[1..])
  }

  ghost predicate Start(s: State) {
    s.word <= IS_PRE_EXIT && s.wakers == map[] && forall w <- s.waiters :: w.place == Outside
  }

  // Reached with so many threads that wait on the word.
  ghost predicate Reachable(t: State, waiters: nat) {
    exists s, actions :: Start(s) && |s.waiters| == waiters && Run(s, actions) == t
  }

  // ---------- The invariant ----------

  // A waker is still to look at the word.
  ghost predicate WakerComing(s: State) {
    exists id :: id in s.wakers && s.wakers[id] != Waking
  }

  ghost predicate KernelWakeComing(s: State) {
    exists id :: id in s.wakers && s.wakers[id] == Waking
  }

  // For one waiting thread.
  ghost predicate Inv(s: State) {
    && s.word <= IS_PRE_EXIT && |s.waiters| == 1
    && var w := s.waiters[0];
    && (w.place == Calling && w.pred && s.word == IS_NOT_READY ==> WakerComing(s))
    && (w.place == Asleep && s.word != IS_NOT_READY ==> KernelWakeComing(s))
    && (w.place == Asleep && w.pred ==> WakerComing(s) || KernelWakeComing(s))
  }

  // Any waker but the one that moves is where it was.
  lemma OthersStay(s: State, id: nat, w: Waker, wakers': map<nat, Waker>)
    requires id in s.wakers && s.wakers[id] == w
    requires wakers' - {id} == s.wakers - {id}
    ensures WakerComing(s) && w == Waking ==> WakerComing(s.(wakers := wakers'))
    ensures KernelWakeComing(s) && w != Waking ==> KernelWakeComing(s.(wakers := wakers'))
  {
    if WakerComing(s) && w == Waking {
      var other :| other in s.wakers && s.wakers[other] != Waking;
      assert other in wakers' - {id} && (wakers' - {id})[other] == s.wakers[other];
    }
    if KernelWakeComing(s) && w != Waking {
      var other :| other in s.wakers && s.wakers[other] == Waking;
      assert other in wakers' - {id} && (wakers' - {id})[other] == s.wakers[other];
    }
  }

  lemma WakerKeeps(s: State, id: nat)
    requires Inv(s) && id in s.wakers
    ensures Inv(WakerStep(s, id))
  {
    var s' := WakerStep(s, id);
    OthersStay(s, id, s.wakers[id], s'.wakers);
    if id in s'.wakers {
      assert s'.wakers[id] == Waking ==> KernelWakeComing(s');
      assert s'.wakers[id] != Waking ==> WakerComing(s');
    }
  }

  lemma StepKeeps(s: State, a: Action)
    requires Inv(s)
    ensures Inv(Do(s, a))
  {
    var s' := Do(s, a);
    if a.WakerMoves? {
      if a.id in s.wakers {
        WakerKeeps(s, a.id);
      }
    } else if a.Notify? {
      if a.id !in s.wakers {
        assert s'.wakers[a.id] == Loading(a.exit);
        if KernelWakeComing(s) {
          var other :| other in s.wakers && s.wakers[other] == Waking;
          assert other in s'.wakers && s'.wakers[other] == Waking;
        }
      }
    } else {
      assert s'.wakers == s.wakers;
      assert WakerComing(s') == WakerComing(s) && KernelWakeComing(s') == KernelWakeComing(s);
    }
  }

  lemma {:induction false} RunKeeps(s: State, actions: seq<Action>)
    requires Inv(s)
    ensures Inv(Run(s, actions))
    decreases |actions|
  {
    if actions != [] {
      StepKeeps(s, actions[0]);
      RunKeeps(Do(s, actions[0]), actions[1..]);
    }
  }

  // ---------- What the protocol guarantees ----------

  // No lost wake-up: once every waker has returned, a waiter that waits alone is not asleep on a true
  // predicate, nor on a word that is no longer NOT_READY.
  lemma NoLostWakeup(t: State)
    requires Reachable(t, 1) && t.wakers == map[]
    ensures |t.waiters| == 1 && (t.waiters[0].place == Asleep ==> !t.waiters[0].pred && t.word == IS_NOT_READY)
  {
    var s, actions :| Start(s) && |s.waiters| == 1 && Run(s, actions) == t;
    RunKeeps(s, actions);
  }

  // PRE_EXIT is final, whoever waits or wakes afterwards.
  lemma {:induction false} PreExitStays(s: State, actions: seq<Action>)
    requires s.word == IS_PRE_EXIT
    ensures Run(s, actions).word == IS_PRE_EXIT
    decreases |actions|
  {
    if actions != [] {
      PreExitStays(Do(s, actions[0]), actions[1..]);
    }
  }

  function Steps(word: nat, w: Waiter, n: nat): Waiter
    decreases n
  {
    if n == 0 then w else var (word', w') := WaiterStep(word, w); Steps(word', w', n - 1)
  }

  // After PRE_EXIT a waiter that is not asleep leaves FutexWait within four of its own steps.
  lemma PreExitReleases(w: Waiter)
    requires !w.place.Outside? && w.place != Asleep
    ensures Steps(IS_PRE_EXIT, w, 4).place.Returned?
  {
    var w1 := WaiterStep(IS_PRE_EXIT, w).1;
    var w2 := WaiterStep(IS_PRE_EXIT, w1).1;
    var w3 := WaiterStep(IS_PRE_EXIT, w2).1;
    assert Steps(IS_PRE_EXIT, w3, 1) == WaiterStep(IS_PRE_EXIT, w3).1;
    assert Steps(IS_PRE_EXIT, w2, 2) == Steps(IS_PRE_EXIT, w3, 1);
    assert Steps(IS_PRE_EXIT, w1, 3) == Steps(IS_PRE_EXIT, w2, 2);
  }

  // Why a waiter returned: its predicate was true, its time was over, or the word was PRE_EXIT or it had
  // been woken for nothing too often.
  lemma ReturnedBecause(s: State, a: Action, i: nat)
    requires i < |s.waiters| == |Do(s, a).waiters|
    requires Do(s, a).waiters[i].place.Returned? && !s.waiters[i].place.Returned?
    ensures match Do(s, a).waiters[i].place.code
            case SUCCESS => s.waiters[i].pred && a == Moves(i)
            case TIMEOUT => a == TimesOut(i)
            case OPERATION_FAILED =>
              a == Moves(i) && (s.word == IS_PRE_EXIT || s.waiters[i].tries >= WAIT_TRY_COUNT)
  {
  }

  // ---------- How long one call can take ----------

  predicate InCall(w: Waiter) {
    !w.place.Outside? && !w.place.Returned?
  }

  predicate Awake(w: Waiter) {
    InCall(w) && w.place != Asleep
  }

  // Only before the compare-and-swap can all tries be used up.
  predicate TriesInRange(w: Waiter) {
    InCall(w) ==> w.tries < WAIT_TRY_COUNT || (w.place == Swapping && w.tries == WAIT_TRY_COUNT)
  }

  // The steps a call still takes if no predicate is found true, no time is over and nothing has exited.
  function StepsLeft(w: Waiter): int {
    var rounds := 4 * (WAIT_TRY_COUNT - w.tries);
    match w.place
    case Swapping => rounds + 1
    case Checking => rounds
    case Calling => rounds - 1
    case Asleep => rounds - 2
    case Rechecking => rounds - 2
    case _ => 0
  }

  predicate GaveUp(w: Waiter) {
    w.place == Returned(OPERATION_FAILED) && w.tries >= WAIT_TRY_COUNT
  }

  // The steps thread i itself takes in a run; asleep it takes none.
  function OwnSteps(s: State, actions: seq<Action>, i: nat): nat
    decreases |actions|
  {
    if actions == [] then 0
    else
      (if actions[0] == Moves(i) && i < |s.waiters| && Awake(s.waiters[i]) then 1 else 0)
      + OwnSteps(Do(s, actions[0]), actions[1..], i)
  }

  lemma StepsAreCounted(s: State, a: Action, i: nat)
    requires i < |s.waiters| && TriesInRange(s.waiters[i]) && a != Starts(i)
    ensures |Do(s, a).waiters| == |s.waiters|
    ensures var w, w' := s.waiters[i], Do(s, a).waiters[i];
            && TriesInRange(w') && (InCall(w') ==> InCall(w))
            && (InCall(w') ==> StepsLeft(w') == StepsLeft(w) - if a == Moves(i) && Awake(w) then 1 else 0)
            && (InCall(w) && GaveUp(w') ==> StepsLeft(w) == 1 && a == Moves(i) && Awake(w))
            && (!InCall(w) ==> w'.place == w.place && w'.tries == w.tries)
            && (w'.place.Outside? ==> w.place.Outside?)
  {
    WaitersStay(s, a);
    if a.Moves? && a.who == i {
      WaiterStepCounts(s.word, s.waiters[i]);
    }
  }

  lemma WaitersStay(s: State, a: Action)
    ensures |Do(s, a).waiters| == |s.waiters|
  {
  }

  lemma WaiterStepCounts(word: nat, w: Waiter)
    requires TriesInRange(w)
    ensures var w' := WaiterStep(word, w).1;
            && TriesInRange(w') && (InCall(w') ==> InCall(w))
            && (InCall(w') ==> StepsLeft(w') == StepsLeft(w) - if Awake(w) then 1 else 0)
            && (InCall(w) && GaveUp(w') ==> StepsLeft(w) == 1 && Awake(w))
  {
  }

  // However a call is woken, it uses up one try with every four of its own steps.
  lemma {:induction false} CallIsCounted(s: State, actions: seq<Action>, i: nat)
    requires i < |s.waiters| && TriesInRange(s.waiters[i]) && Starts(i) !in actions
    ensures |Run(s, actions).waiters| == |s.waiters|
    ensures var w, end := s.waiters[i], Run(s, actions).waiters[i];
            && OwnSteps(s, actions, i) <= StepsLeft(w) && TriesInRange(end)
            && (end.place.Outside? ==> w.place.Outside?)
            && (InCall(end) ==> InCall(w) && OwnSteps(s, actions, i) == StepsLeft(w) - StepsLeft(end))
            && (InCall(w) && GaveUp(end) ==> OwnSteps(s, actions, i) == StepsLeft(w))
            && (!InCall(w) ==> end.place == w.place && end.tries == w.tries)
    decreases |actions|
  {
    if actions != [] {
      StepsAreCounted(s, actions[0], i);
      CallIsCounted(Do(s, actions[0]), actions[1..], i);
    }
  }

  // However often a call is woken for nothing, it takes at most 201 steps of its own, and it gives up after
  // exactly as many.
  lemma WaitIsBounded(s: State, actions: seq<Action>, i: nat)
    requires i < |s.waiters| && !InCall(s.waiters[i]) && Starts(i) !in actions
    ensures var begun := Do(s, Starts(i));
            && OwnSteps(begun, actions, i) <= 201
            && |Run(begun, actions).waiters| == |s.waiters|
            && var end := Run(begun, actions).waiters[i];
               && (OwnSteps(begun, actions, i) == 201 ==> end.place.Returned?)
               && (GaveUp(end) ==> OwnSteps(begun, actions, i) == 201)
  {
    CallIsCounted(Do(s, Starts(i)), actions, i);
  }

  // ---------- What a second waiter breaks ----------

  // Two threads; the first has found its predicate false, a waker has made it true and released the word.
  const APPROACH: seq<Action> :=
    [Starts(0), Moves(0), Moves(0), Notify(0, false, {0}), WakerMoves(0), WakerMoves(0)]

  // The second thread calls FutexWait and takes the word back; the waker wakes nobody; both sleep.
  const OVERTAKEN: seq<Action> :=
    [Starts(1), Moves(1), WakerMoves(0), Moves(0), Moves(1), Moves(1)]

  lemma {:induction false} RunAppend(s: State, a: seq<Action>, b: seq<Action>)
    ensures Run(s, a + b) == Run(Run(s, a), b)
    decreases |a|
  {
    if a == [] {
      assert a + b == b;
    } else {
      assert (a + b)[1..] == a[1..] + b;
      RunAppend(Do(s, a[0]), a[1..], b);
    }
  }

  lemma RunOne(s: State, actions: seq<Action>)
    requires actions != []
    ensures Run(s, actions) == Run(Do(s, actions[0]), actions[1..])
  {
  }

  // Two threads, and others that do not call FutexWait.
  function Pair(word: nat, p: Place, pred: bool, q: Place, wakers: map<nat, Waker>, others: nat): State {
    State(word, [Waiter(p, 0, pred), Waiter(q, 0, false)] + seq(others, i => Waiter(Outside, 0, false)), wakers)
  }

  lemma StepsTo(s: State, a: Action, t: State)
    requires Do(s, a).word == t.word && Do(s, a).wakers == t.wakers && |Do(s, a).waiters| == |t.waiters|
    requires forall i :: 0 <= i < |t.waiters| ==> Do(s, a).waiters[i] == t.waiters[i]
    ensures Do(s, a) == t
  {
  }

  lemma RunSix(s: State, a: seq<Action>)
    requires |a| == 6
    ensures Run(s, a) == Do(Do(Do(Do(Do(Do(s, a[0]), a[1]), a[2]), a[3]), a[4]), a[5])
  {
    var s1 := Do(s, a[0]);
    var s2 := Do(s1, a[1]);
    var s3 := Do(s2, a[2]);
    var s4 := Do(s3, a[3]);
    var s5 := Do(s4, a[4]);
    RunOne(s, a);
    RunOne(s1, a[1..]);
    RunOne(s2, a[2..]);
    RunOne(s3, a[3..]);
    RunOne(s4, a[4..]);
    RunOne(s5, a[5..]);
  }

  lemma Approached(n: nat)
    ensures Run(Pair(IS_READY, Outside, false, Outside, map[], n), APPROACH)
         == Pair(IS_READY, Calling, true, Outside, map[0 := Waking], n)
  {
    var s0 := Pair(IS_READY, Outside, false, Outside, map[], n);
    var s1 := Pair(IS_READY, Swapping, false, Outside, map[], n);
    var s2 := Pair(IS_NOT_READY, Checking, false, Outside, map[], n);
    var s3 := Pair(IS_NOT_READY, Calling, false, Outside, map[], n);
    var s4 := Pair(IS_NOT_READY, Calling, true, Outside, map[0 := Loading(false)], n);
    var s5 := Pair(IS_NOT_READY, Calling, true, Outside, map[0 := Releasing], n);
    var s6 := Pair(IS_READY, Calling, true, Outside, map[0 := Waking], n);
    StepsTo(s0, Starts(0), s1);
    StepsTo(s1, Moves(0), s2);
    StepsTo(s2, Moves(0), s3);
    StepsTo(s3, Notify(0, false, {0}), s4);
    StepsTo(s4, WakerMoves(0), s5);
    StepsTo(s5, WakerMoves(0), s6);
    RunSix(s0, APPROACH);
  }

  lemma Overtaken(n: nat)
    ensures Run(Pair(IS_READY, Calling, true, Outside, map[0 := Waking], n), OVERTAKEN)
         == Pair(IS_NOT_READY, Asleep, true, Asleep, map[], n)
  {
    var s0 := Pair(IS_READY, Calling, true, Outside, map[0 := Waking], n);
    var s1 := Pair(IS_READY, Calling, true, Swapping, map[0 := Waking], n);
    var s2 := Pair(IS_NOT_READY, Calling, true, Checking, map[0 := Waking], n);
    var s3 := Pair(IS_NOT_READY, Calling, true, Checking, map[], n);
    var s4 := Pair(IS_NOT_READY, Asleep, true, Checking, map[], n);
    var s5 := Pair(IS_NOT_READY, Asleep, true, Calling, map[], n);
    var s6 := Pair(IS_NOT_READY, Asleep, true, Asleep, map[], n);
    StepsTo(s0, Starts(1), s1);
    StepsTo(s1, Moves(1), s2);
    StepsTo(s2, WakerMoves(0), s3);
    StepsTo(s3, Moves(0), s4);
    StepsTo(s4, Moves(1), s5);
    StepsTo(s5, Moves(1), s6);
    RunSix(s0, OVERTAKEN);
  }

  lemma ReachedInTwo(s: State, a: seq<Action>, b: seq<Action>)
    requires Start(s)
    ensures Reachable(Run(Run(s, a), b), |s.waiters|)
  {
    RunAppend(s, a, b);
  }

  // With a second thread in FutexWait on the same word the guarantee is lost: its compare-and-swap
  // between the waker's release and the first waiter's kernel call is enough. No waker is left, and the
  // first waiter sleeps although its predicate is true.
  lemma TwoWaitersCanLoseAWakeup(n: nat)
    ensures var t := Pair(IS_NOT_READY, Asleep, true, Asleep, map[], n);
            Reachable(t, n + 2) && t.wakers == map[] && t.waiters[0].place == Asleep && t.waiters[0].pred
  {
    var s := Pair(IS_READY, Outside, false, Outside, map[], n);
    Approached(n);
    Overtaken(n);
    ReachedInTwo(s, APPROACH, OVERTAKEN);
  }

  // No waker is left, and a waiter sleeps although its predicate is true.
  ghost predicate Lost(t: State) {
    t.wakers == map[] && exists w <- t.waiters :: w.place == Asleep && w.pred
  }

  // No wake-up is ever lost if and only if at most one thread waits on the word.
  lemma LostExactly(waiters: nat)
    ensures (forall t :: Reachable(t, waiters) ==> !Lost(t)) <==> waiters <= 1
  {
    if waiters >= 2 {
      TwoWaitersCanLoseAWakeup(waiters - 2);
      var t := Pair(IS_NOT_READY, Asleep, true, Asleep, map[], waiters - 2);
      assert t.waiters[0] in t.waiters && Lost(t);
    } else {
      forall t | Reachable(t, waiters)
        ensures !Lost(t)
      {
        if waiters == 1 && t.wakers == map[] {
          NoLostWakeup(t);
        } else if waiters == 0 {
          NobodyWaits(t);
        }
      }
    }
  }

  lemma NobodyWaits(t: State)
    requires Reachable(t, 0)
    ensures t.waiters == []
  {
    var s, actions :| Start(s) && |s.waiters| == 0 && Run(s, actions) == t;
    StaysEmpty(s, actions);
  }

  lemma {:induction false} StaysEmpty(s: State, actions: seq<Action>)
    requires s.waiters == []
    ensures Run(s, actions).waiters == []
    decreases |actions|
  {
    if actions != [] {
      StaysEmpty(Do(s, actions[0]), actions[1..]);
    }
  }
}
