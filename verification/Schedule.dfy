/** What the output scheduler owes its clients, as statements about event sequences: which events
    are due when, which ones the driver can be given, and the account that is kept per client. */
module Schedule {
  import opened Words
  import opened RingLayout

  // The time an event is due: its unsigned time stamp as a signed 64-bit count of nanoseconds.
  function Due(e: Event): (due: int)
    ensures -TWO_63 <= due < TWO_63 && (due - e.timestamp) % TWO_64 == 0
  {
    if e.timestamp < TWO_63 then e.timestamp else e.timestamp - TWO_64
  }

  predicate IsImmediate(e: Event) {
    e.timestamp == 0
  }

  function PayloadBytes(e: Event): nat {
    4 * |e.data|
  }

  // Empty payloads and payloads larger than the whole cache never reach the driver.
  predicate Deliverable(e: Event, limit: nat) {
    0 < PayloadBytes(e) <= limit
  }

  function CachedBytes(es: seq<Event>): nat {
    if es == [] then 0 else CachedBytes(es[..|es| - 1]) + PayloadBytes(es[|es| - 1])
  }

  // The immediate events the driver can be given, in order.
  function Immediate(es: seq<Event>, limit: nat): seq<Event> {
    if es == [] then []
    else
      var e := es[|es| - 1];
      Immediate(es[..|es| - 1], limit) + if IsImmediate(e) && Deliverable(e, limit) then [e] else []
  }

  // The events that wait for their time.
  function Timed(es: seq<Event>): multiset<Event> {
    if es == [] then multiset{} else Timed(es[..|es| - 1]) + Timed1(es[|es| - 1])
  }

  function Timed1(e: Event): multiset<Event> {
    if IsImmediate(e) then multiset{} else multiset{e}
  }

  lemma Snoc(es: seq<Event>, e: Event, limit: nat)
    ensures CachedBytes(es + [e]) == CachedBytes(es) + PayloadBytes(e)
    ensures Immediate(es + [e], limit) ==
            Immediate(es, limit) + if IsImmediate(e) && Deliverable(e, limit) then [e] else []
    ensures Timed(es + [e]) == Timed(es) + Timed1(e)
    ensures multiset(es + [e]) == multiset(es) + multiset{e}
  {
    assert (es + [e])[..|es|] == es;
  }

  // What went out, what is pending and what was cleared make up what was taken, as far as the driver
  // can be given it; nothing else went out.
  ghost predicate Reconciled(out: multiset<Event>, pending: multiset<Event>, cleared: multiset<Event>,
                             taken: multiset<Event>, limit: nat) {
    forall e: Event ::
      if Deliverable(e, limit) then out[e] + pending[e] + cleared[e] == taken[e]
      else out[e] == 0 && pending[e] + cleared[e] <= taken[e]
  }

  // A client's account: everything taken from its ring went out, is pending or was cleared at the
  // client's own request, exactly once; and its immediate events went out in ring order.
  ghost predicate Accounted(out: seq<Event>, pending: multiset<Event>, cleared: multiset<Event>,
                            taken: seq<Event>, limit: nat) {
    && Reconciled(multiset(out), pending, cleared, multiset(taken), limit)
    && Immediate(out, limit) == Immediate(taken, limit)
  }

  // What one event adds to what goes out.
  function Deliveries(e: Event, limit: nat): seq<Event> {
    if Deliverable(e, limit) then [e] else []
  }

  lemma OutSnoc(out: seq<Event>, e: Event, limit: nat)
    ensures multiset(out + Deliveries(e, limit)) ==
            multiset(out) + if Deliverable(e, limit) then multiset{e} else multiset{}
    ensures Immediate(out + Deliveries(e, limit), limit) ==
            Immediate(out, limit) + if IsImmediate(e) && Deliverable(e, limit) then [e] else []
  {
    Snoc(out, e, limit);
    assert out + [] == out && Immediate(out, limit) + [] == Immediate(out, limit);
  }

  lemma AccountImmediate(out: seq<Event>, pending: multiset<Event>, cleared: multiset<Event>,
                         taken: seq<Event>, limit: nat, e: Event)
    requires Accounted(out, pending, cleared, taken, limit) && IsImmediate(e)
    ensures Accounted(out + Deliveries(e, limit), pending, cleared, taken + [e], limit)
  {
    OutSnoc(out, e, limit);
    Snoc(taken, e, limit);
  }

  lemma AccountTimed(out: seq<Event>, pending: multiset<Event>, cleared: multiset<Event>,
                     taken: seq<Event>, limit: nat, e: Event)
    requires Accounted(out, pending, cleared, taken, limit) && !IsImmediate(e)
    ensures Accounted(out, pending + multiset{e}, cleared, taken + [e], limit)
  {
    Snoc(taken, e, limit);
  }

  lemma AccountDue(out: seq<Event>, pending: multiset<Event>, cleared: multiset<Event>,
                   taken: seq<Event>, limit: nat, e: Event)
    requires Accounted(out, pending, cleared, taken, limit) && e in pending && !IsImmediate(e)
    ensures Accounted(out + Deliveries(e, limit), pending - multiset{e}, cleared, taken, limit)
  {
    OutSnoc(out, e, limit);
    OneGone(multiset(out), pending, cleared, multiset(taken), limit, e);
  }

  lemma OneGone(out: multiset<Event>, pending: multiset<Event>, cleared: multiset<Event>, taken: multiset<Event>,
                limit: nat, e: Event)
    requires Reconciled(out, pending, cleared, taken, limit) && e in pending
    ensures Reconciled(out + if Deliverable(e, limit) then multiset{e} else multiset{}, pending - multiset{e},
                       cleared, taken, limit)
  {
  }

  lemma AccountCleared(out: seq<Event>, pending: multiset<Event>, cleared: multiset<Event>,
                       taken: seq<Event>, limit: nat)
    requires Accounted(out, pending, cleared, taken, limit)
    ensures Accounted(out, multiset{}, cleared + pending, taken, limit)
  {
  }

  datatype Account = Account(pending: multiset<Event>, cleared: multiset<Event>, taken: seq<Event>)

  // A client's ring was drained: what was taken, followed by what is left, begins with what was
  // there before; timed events went to the heap.
  ghost predicate Drained(ring: seq<Event>, ring': seq<Event>, a: Account, a': Account) {
    && a.taken <= a'.taken && a'.cleared == a.cleared
    && var drained := a'.taken[|a.taken|..];
    ring <= drained + ring' && a'.pending == a.pending + Timed(drained)
  }

  // The same over a whole pass, which also collects some of what is pending.
  ghost predicate Passed(ring: seq<Event>, ring': seq<Event>, a: Account, a': Account, collected: seq<Event>) {
    && a.taken <= a'.taken && a'.cleared == a.cleared
    && var drained := a'.taken[|a.taken|..];
    ring <= drained + ring' && multiset(collected) + a'.pending == a.pending + Timed(drained)
  }

  // A ring of 2048 bytes has room for so many headers.
  const MAX_RING_EVENTS := 85

  // The larger of what a heap held before and its limit.
  function HeapRoom(held: nat, max: nat): nat {
    if held > max then held else max
  }

  // A drained ring whose heap was not filled beyond its limit.
  ghost predicate Advanced(ring: seq<Event>, ring': seq<Event>, a: Account, a': Account, max: nat) {
    Drained(ring, ring', a, a') && |a'.pending| <= HeapRoom(|a.pending|, max)
  }

  // Why a ring's draining stopped, if nothing arrived meanwhile: the ring is empty, or a timed event met
  // a full heap.
  ghost predicate Exhausted(ring: seq<Event>, ring': seq<Event>, a: Account, taken: seq<Event>, max: nat) {
    && a.taken <= taken
    && var drained := taken[|a.taken|..];
    && |a.pending + Timed(drained)| <= HeapRoom(|a.pending|, max)
    && (ring == drained + ring' && |ring| <= MAX_RING_EVENTS ==>
          ring' == [] || (!IsImmediate(ring'[0]) && |a.pending + Timed(drained)| >= max))
  }

  lemma DrainEnds(ring: seq<Event>, ring': seq<Event>, a: Account, a': Account, max: nat)
    requires Advanced(ring, ring', a, a', max)
    requires |a'.taken| > |a.taken| + MAX_RING_EVENTS || ring' == [] || (!IsImmediate(ring'[0]) && |a'.pending| >= max)
    ensures Exhausted(ring, ring', a, a'.taken, max)
  {
  }

  lemma AdvancedNothing(ring: seq<Event>, ring': seq<Event>, a: Account, max: nat)
    requires ring <= ring'
    ensures Advanced(ring, ring', a, a, max)
  {
    DrainedNothing(ring, ring', a);
  }

  lemma AdvancedOne(ring: seq<Event>, a: Account, a': Account, max: nat)
    requires ring != [] && a' == Account(a.pending + Timed1(ring[0]), a.cleared, a.taken + [ring[0]])
    requires IsImmediate(ring[0]) || |a.pending| < max
    ensures Advanced(ring, ring[1..], a, a', max)
  {
    DrainedOne(ring, a, a');
  }

  lemma AdvancedTwice(ring: seq<Event>, ring': seq<Event>, ring'': seq<Event>, a: Account, a': Account,
                      a'': Account, max: nat)
    requires Advanced(ring, ring', a, a', max) && Advanced(ring', ring'', a', a'', max)
    ensures Advanced(ring, ring'', a, a'', max)
  {
    DrainedTwice(ring, ring', ring'', a, a', a'');
  }

  lemma ExhaustedTwice(ring: seq<Event>, ring': seq<Event>, ring'': seq<Event>, a: Account, a': Account,
                       a'': Account, max: nat)
    requires Advanced(ring, ring', a, a', max) && Drained(ring', ring'', a', a'')
    requires Exhausted(ring', ring'', a', a''.taken, max)
    ensures Exhausted(ring, ring'', a, a''.taken, max)
  {
    DrainedTwice(ring, ring', ring'', a, a', a'');
    var d, d', all := a'.taken[|a.taken|..], a''.taken[|a'.taken|..], a''.taken[|a.taken|..];
    assert a''.pending == a.pending + Timed(all) == a'.pending + Timed(d');
    if ring == all + ring'' {
      TakenTwice(a.taken, a'.taken, a''.taken);
      assert |ring'| == |d'| + |ring''|;
      assert ring' == d' + ring'';
    }
  }

  lemma TakenTwice(t: seq<Event>, t': seq<Event>, t'': seq<Event>)
    requires t <= t' <= t''
    ensures t''[|t|..] == t'[|t|..] + t''[|t'|..]
  {
  }

  // What is left behind, if nothing arrives meanwhile: something if and only if the heap and the timed
  // events of the ring together exceed the heap's limit.
  lemma LeftBehindExactly(ring: seq<Event>, ring': seq<Event>, a: Account, taken: seq<Event>, max: nat)
    requires Exhausted(ring, ring', a, taken, max) && |a.pending| <= max
    requires ring == taken[|a.taken|..] + ring' && |ring| <= MAX_RING_EVENTS
    ensures ring' != [] <==> |a.pending| + |Timed(ring)| > max
  {
    var drained := taken[|a.taken|..];
    TimedAppend(drained, ring');
    assert |a.pending + Timed(drained)| == |a.pending| + |Timed(drained)|;
    if ring' == [] {
      assert ring == drained;
    } else {
      TimedHead(ring');
    }
  }

  // What is pending and the timed events among the first k of the ring fill the heap, and are all due.
  predicate FullAndDue(ring: seq<Event>, pending: multiset<Event>, max: nat, now: int, k: nat) {
    && k <= |ring| && |pending| + |Timed(ring[..k])| == max
    && (forall e <- pending :: Due(e) <= now) && forall e <- Timed(ring[..k]) :: Due(e) <= now
  }

  ghost predicate FillsAndFallsDue(ring: seq<Event>, pending: multiset<Event>, max: nat, now: int) {
    exists k: nat :: FullAndDue(ring, pending, max, now, k)
  }

  // A pass that collects what is due by `now` stalls a client, with events in its ring and none in its heap
  // to arm the timer for, if and only if more timed events were waiting than the heap takes, and those
  // that fill it are all due.
  lemma StallsExactly(ring: seq<Event>, ring': seq<Event>, a: Account, a': Account, collected: seq<Event>, max: nat,
                      now: int)
    requires Exhausted(ring, ring', a, a'.taken, max) && Passed(ring, ring', a, a', collected)
    requires |a.pending| <= max && ring == a'.taken[|a.taken|..] + ring' && |ring| <= MAX_RING_EVENTS
    requires (forall e <- collected :: Due(e) <= now) && forall e <- a'.pending :: now < Due(e)
    ensures ring' != [] && |a'.pending| == 0 <==>
            |a.pending| + |Timed(ring)| > max && FillsAndFallsDue(ring, a.pending, max, now)
  {
    LeftBehindExactly(ring, ring', a, a'.taken, max);
    var drained := a'.taken[|a.taken|..];
    assert ring[..|drained|] == drained;
    assert |a.pending + Timed(drained)| == |a.pending| + |Timed(drained)|;
    if ring' != [] && |a'.pending| == 0 {
      AllCollected(a.pending, Timed(drained), collected, a'.pending, now);
      assert FullAndDue(ring, a.pending, max, now, |drained|);
    } else if ring' != [] && FillsAndFallsDue(ring, a.pending, max, now) {
      var k :| FullAndDue(ring, a.pending, max, now, k);
      SameTimed(ring, k, |drained|);
      NoneLater(a.pending, Timed(drained), collected, a'.pending, now);
    }
  }

  lemma AllCollected(pending: multiset<Event>, timed: multiset<Event>, collected: seq<Event>,
                     pending': multiset<Event>, now: int)
    requires multiset(collected) + pending' == pending + timed && |pending'| == 0
    requires forall e <- collected :: Due(e) <= now
    ensures (forall e <- pending :: Due(e) <= now) && forall e <- timed :: Due(e) <= now
  {
    assert pending' == multiset{} && pending + timed == multiset(collected);
    forall e | e in pending || e in timed
      ensures Due(e) <= now
    {
      assert e in pending + timed;
      assert e in collected;
    }
  }

  lemma NoneLater(pending: multiset<Event>, timed: multiset<Event>, collected: seq<Event>,
                  pending': multiset<Event>, now: int)
    requires multiset(collected) + pending' == pending + timed
    requires (forall e <- pending :: Due(e) <= now) && (forall e <- timed :: Due(e) <= now)
    requires forall e <- pending' :: now < Due(e)
    ensures |pending'| == 0
  {
    assert forall e <- pending' :: e in multiset(collected) + pending';
    assert forall e <- pending + timed :: Due(e) <= now;
    EmptyBag(pending');
  }

  lemma EmptyBag(bag: multiset<Event>)
    requires forall e: Event :: e !in bag
    ensures |bag| == 0
  {
    assert bag == multiset{};
  }

  // Two fronts with as many timed events have the same ones.
  lemma SameTimed(ring: seq<Event>, j: nat, k: nat)
    requires j <= |ring| && k <= |ring| && |Timed(ring[..j])| == |Timed(ring[..k])|
    ensures Timed(ring[..j]) == Timed(ring[..k])
  {
    if j <= k {
      assert ring[..k] == ring[..j] + ring[j..k];
      TimedAppend(ring[..j], ring[j..k]);
      NoMore(Timed(ring[..j]), Timed(ring[j..k]));
    } else {
      SameTimed(ring, k, j);
    }
  }

  lemma NoMore(a: multiset<Event>, b: multiset<Event>)
    requires |a + b| == |a|
    ensures a + b == a
  {
    assert |b| == 0;
    assert b == multiset{};
  }

  lemma TimedHead(es: seq<Event>)
    requires es != [] && !IsImmediate(es[0])
    ensures |Timed(es)| > 0
  {
    assert es == [es[0]] + es[1..];
    TimedAppend([es[0]], es[1..]);
    TimedSnoc([], es[0]);
    assert [] + [es[0]] == [es[0]];
  }

  lemma DrainedAndCollected(ring: seq<Event>, ring': seq<Event>, a: Account, mid: Account, a': Account,
                            collected: seq<Event>)
    requires Drained(ring, ring', a, mid)
    requires a'.taken == mid.taken && a'.cleared == mid.cleared && multiset(collected) + a'.pending == mid.pending
    ensures Passed(ring, ring', a, a', collected)
  {
  }

  lemma DrainedNothing(ring: seq<Event>, ring': seq<Event>, a: Account)
    requires ring <= ring'
    ensures Drained(ring, ring', a, a)
  {
    assert a.taken[|a.taken|..] == [] && [] + ring' == ring';
  }

  lemma DrainedOne(ring: seq<Event>, a: Account, a': Account)
    requires ring != [] && a' == Account(a.pending + Timed1(ring[0]), a.cleared, a.taken + [ring[0]])
    ensures Drained(ring, ring[1..], a, a')
  {
    assert a'.taken[|a.taken|..] == [] + [ring[0]] && [ring[0]] + ring[1..] == ring;
    Snoc([], ring[0], 0);
  }

  lemma DrainedTwice(ring: seq<Event>, ring': seq<Event>, ring'': seq<Event>, a: Account, a': Account, a'': Account)
    requires Drained(ring, ring', a, a') && Drained(ring', ring'', a', a'')
    ensures Drained(ring, ring'', a, a'')
  {
    var d, d', all := a'.taken[|a.taken|..], a''.taken[|a'.taken|..], a''.taken[|a.taken|..];
    TakenTwice(a.taken, a'.taken, a''.taken);
    assert all + ring'' == d + (d' + ring'');
    TimedAppend(d, d');
    AddBags(a.pending, Timed(d), Timed(d'));
  }

  lemma {:induction false} TimedAppend(a: seq<Event>, b: seq<Event>)
    ensures Timed(a + b) == Timed(a) + Timed(b)
  {
    if b == [] {
      assert a + b == a;
    } else {
      var e, init := b[|b| - 1], b[..|b| - 1];
      assert b == init + [e] && a + (init + [e]) == (a + init) + [e];
      TimedAppend(a, init);
      TimedOneMore(a, init, e);
    }
  }

  lemma TimedOneMore(a: seq<Event>, init: seq<Event>, e: Event)
    requires Timed(a + init) == Timed(a) + Timed(init)
    ensures Timed(a + init + [e]) == Timed(a) + Timed(init + [e])
  {
    TimedSnoc(a + init, e);
    TimedSnoc(init, e);
    AddBags(Timed(a), Timed(init), Timed1(e));
  }

  lemma TimedSnoc(es: seq<Event>, e: Event)
    ensures Timed(es + [e]) == Timed(es) + Timed1(e)
  {
    assert (es + [e])[..|es|] == es;
  }

  lemma AddBags(a: multiset<Event>, b: multiset<Event>, c: multiset<Event>)
    ensures a + (b + c) == a + b + c
  {
  }

  ghost function Sum(sizes: seq<nat>): nat {
    if sizes == [] then 0 else sizes[0] + Sum(sizes[1..])
  }

  lemma {:induction false} SumShrinks(sizes: seq<nat>, sizes': seq<nat>, k: int)
    requires |sizes'| == |sizes| && forall i :: 0 <= i < |sizes| ==> sizes'[i] <= sizes[i]
    requires 0 <= k < |sizes| ==> sizes'[k] < sizes[k]
    ensures Sum(sizes') <= Sum(sizes)
    ensures 0 <= k < |sizes| ==> Sum(sizes') < Sum(sizes)
  {
    if sizes != [] {
      SumShrinks(sizes[1..], sizes'[1..], k - 1);
    }
  }

  // ---------- Earliest events ----------

  ghost predicate IsEarliest(e: Event, pending: multiset<Event>) {
    e in pending && forall x <- pending :: Due(e) <= Due(x)
  }

  lemma {:induction false} EarliestExists(pending: multiset<Event>) returns (e: Event)
    requires |pending| > 0
    ensures IsEarliest(e, pending)
    decreases |pending|
  {
    e :| e in pending;
    var rest := pending - multiset{e};
    if |rest| > 0 {
      var e' := EarliestExists(rest);
      if Due(e') < Due(e) {
        e := e';
      }
    }
  }
}
