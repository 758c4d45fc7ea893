/** The output scheduler: rings are drained, timed events wait in per-client heaps, due ones are
    merged into a bounded cache, the cache goes to the driver, and the timer is armed again. */
module Scheduler {
  import opened Words
  import opened RingLayout
  import opened Schedule

  const MAX_DRAIN_PER_CLIENT := 128
  const NS_PER_SECOND := 1_000_000_000

  class ClientConnectionInServer {
    const clientId: word
    var maxPending: nat
    // The unread events of the ring, oldest first.
    var ring: seq<Event>
    // What the client is going to write; how much of it is there at a peek is left open.
    var arriving: seq<Event>
    // The heap. Which of several earliest events is on top is left open.
    var pending: multiset<Event>
    // Everything ever taken from the ring, and what was cleared from the heap.
    ghost var taken: seq<Event>
    ghost var cleared: multiset<Event>

    constructor (clientId: word)
      ensures this.clientId == clientId && ring == [] && pending == multiset{}
      ensures taken == [] && cleared == multiset{} && maxPending == 1024 && arriving == []
    {
      this.clientId := clientId;
      maxPending := 1024;
      ring, arriving, pending, taken, cleared := [], [], multiset{}, [], multiset{};
    }

    method SetMaxPending(maxPending: nat)
      modifies this`maxPending
      ensures this.maxPending == maxPending
    {
      this.maxPending := maxPending;
    }

    predicate IsPendingFull()
      reads this
    {
      |pending| >= maxPending
    }

    method EnqueueNonRealtime(e: Event) returns (ok: bool)
      modifies this`pending
      ensures ok == !old(IsPendingFull())
      ensures pending == old(pending) + if ok then multiset{e} else multiset{}
    {
      if IsPendingFull() {
        return false;
      }
      pending := pending + multiset{e};
      return true;
    }

    method PeekPendingTop() returns (top: Option<Event>)
      ensures top.None? <==> |pending| == 0
      ensures top.Some? ==> IsEarliest(top.value, pending)
    {
      if |pending| == 0 {
        return None;
      }
      ghost var earliest := EarliestExists(pending);
      var e :| e in pending && forall x <- pending :: Due(e) <= Due(x);
      return Some(e);
    }

    method PopPendingTop() returns (top: Option<Event>)
      modifies this`pending
      ensures top.None? <==> |old(pending)| == 0
      ensures top.None? ==> pending == old(pending)
      ensures top.Some? ==> IsEarliest(top.value, old(pending)) && pending == old(pending) - multiset{top.value}
    {
      top := PeekPendingTop();
      if top.Some? {
        pending := pending - multiset{top.value};
      }
    }

    // The client may have written more events before the server looks.
    method PeekRing() returns (top: Option<Event>)
      modifies this`ring, this`arriving
      ensures old(ring) <= ring && ring + arriving == old(ring) + old(arriving)
      ensures top == if ring == [] then None else Some(ring[0])
    {
      var n :| 0 <= n <= |arriving|;
      ring, arriving := ring + arriving[..n], arriving[n..];
      return if ring == [] then None else Some(ring[0]);
    }

    method CommitRead()
      requires ring != []
      modifies this`ring, this`taken
      ensures ring == old(ring)[1..] && taken == old(taken) + [old(ring)[0]]
    {
      taken := taken + [ring[0]];
      ring := ring[1..];
    }

    method Flush()
      modifies this`ring, this`pending, this`cleared
      ensures ring == [] && pending == multiset{} && cleared == old(cleared) + old(pending)
    {
      cleared := cleared + pending;
      pending, ring := multiset{}, [];
    }
  }

  // ---------- What went out, by client ----------

  datatype Sent = Sent(client: ClientConnectionInServer, event: Event)

  ghost function Untagged(log: seq<Sent>): seq<Event> {
    if log == [] then [] else Untagged(log[..|log| - 1]) + [log[|log| - 1].event]
  }

  ghost function From(log: seq<Sent>, c: ClientConnectionInServer): seq<Event> {
    if log == [] then []
    else
      var s := log[|log| - 1];
      From(log[..|log| - 1], c) + if s.client == c then [s.event] else []
  }

  // The entries the driver can be given.
  ghost function Kept(log: seq<Sent>, limit: nat): seq<Sent> {
    if log == [] then []
    else
      var s := log[|log| - 1];
      Kept(log[..|log| - 1], limit) + if Deliverable(s.event, limit) then [s] else []
  }

  lemma LogSnoc(log: seq<Sent>, s: Sent, limit: nat)
    ensures Untagged(log + [s]) == Untagged(log) + [s.event]
    ensures From(log + [s], s.client) == From(log, s.client) + [s.event]
    ensures forall c :: c != s.client ==> From(log + [s], c) == From(log, c)
    ensures Kept(log + [s], limit) == Kept(log, limit) + if Deliverable(s.event, limit) then [s] else []
  {
    assert (log + [s])[..|log|] == log;
    forall c | c != s.client
      ensures From(log + [s], c) == From(log, c)
    {
      assert From(log, c) + [] == From(log, c);
    }
  }

  // The log after s was handed on: its entry is there if the driver can be given it.
  ghost function Logged(log: seq<Sent>, s: Sent, limit: nat): seq<Sent> {
    if Deliverable(s.event, limit) then log + [s] else log
  }

  lemma LoggedFrom(log: seq<Sent>, s: Sent, limit: nat)
    ensures From(Logged(log, s, limit), s.client) == From(log, s.client) + Deliveries(s.event, limit)
    ensures forall c :: c != s.client ==> From(Logged(log, s, limit), c) == From(log, c)
  {
    LogSnoc(log, s, limit);
    assert From(log, s.client) + [] == From(log, s.client);
  }

  ghost function Books(c: ClientConnectionInServer): Account
    reads c
  {
    Account(c.pending, c.cleared, c.taken)
  }

  ghost predicate Settled(log: seq<Sent>, c: ClientConnectionInServer, a: Account, limit: nat) {
    Accounted(From(log, c), a.pending, a.cleared, a.taken, limit)
  }

  lemma OthersStaySettled(log: seq<Sent>, s: Sent, c: ClientConnectionInServer, a: Account, limit: nat)
    requires Settled(log, c, a, limit) && c != s.client
    ensures Settled(Logged(log, s, limit), c, a, limit)
  {
    LoggedFrom(log, s, limit);
  }

  lemma SettledImmediate(log: seq<Sent>, s: Sent, a: Account, limit: nat)
    requires Settled(log, s.client, a, limit) && IsImmediate(s.event)
    ensures Settled(Logged(log, s, limit), s.client, a.(taken := a.taken + [s.event]), limit)
  {
    LoggedFrom(log, s, limit);
    AccountImmediate(From(log, s.client), a.pending, a.cleared, a.taken, limit, s.event);
  }

  lemma SettledTimed(log: seq<Sent>, s: Sent, a: Account, limit: nat)
    requires Settled(log, s.client, a, limit) && !IsImmediate(s.event)
    ensures Settled(log, s.client, a.(pending := a.pending + multiset{s.event}, taken := a.taken + [s.event]), limit)
  {
    AccountTimed(From(log, s.client), a.pending, a.cleared, a.taken, limit, s.event);
  }

  lemma SettledDue(log: seq<Sent>, s: Sent, a: Account, limit: nat)
    requires Settled(log, s.client, a, limit) && s.event in a.pending && !IsImmediate(s.event)
    ensures Settled(Logged(log, s, limit), s.client, a.(pending := a.pending - multiset{s.event}), limit)
  {
    LoggedFrom(log, s, limit);
    AccountDue(From(log, s.client), a.pending, a.cleared, a.taken, limit, s.event);
  }

  // Any client's account when the pending event of s is handed on.
  lemma DueKeepsSettled(log: seq<Sent>, s: Sent, c: ClientConnectionInServer, a: Account, a': Account, limit: nat)
    requires Settled(log, c, a, limit)
    requires if c == s.client
             then s.event in a.pending && !IsImmediate(s.event) && a' == a.(pending := a.pending - multiset{s.event})
             else a' == a
    ensures Settled(Logged(log, s, limit), c, a', limit)
  {
    if c == s.client {
      SettledDue(log, s, a, limit);
    } else {
      OthersStaySettled(log, s, c, a, limit);
    }
  }

  lemma SettledCleared(log: seq<Sent>, c: ClientConnectionInServer, a: Account, limit: nat)
    requires Settled(log, c, a, limit)
    ensures Settled(log, c, a.(pending := multiset{}, cleared := a.cleared + a.pending), limit)
  {
    AccountCleared(From(log, c), a.pending, a.cleared, a.taken, limit);
  }

  lemma {:induction false} FromNone(log: seq<Sent>, c: ClientConnectionInServer)
    requires forall s <- log :: s.client != c
    ensures From(log, c) == []
  {
    if log != [] {
      FromNone(log[..|log| - 1], c);
    }
  }

  // Events were collected in the order they were due.
  ghost predicate InOrder(collected: seq<Sent>) {
    forall i, j :: 0 <= i < j < |collected| ==> Due(collected[i].event) <= Due(collected[j].event)
  }

  type Heaps = map<ClientConnectionInServer, multiset<Event>>

  // One collection: each client's part of what was collected, with what is still pending, is what
  // was pending before.
  ghost predicate Conserved(before: Heaps, after: Heaps, collected: seq<Sent>) {
    after.Keys == before.Keys && forall c <- before :: multiset(From(collected, c)) + after[c] == before[c]
  }

  // What was collected was due by `now`, came in the order it was due, and nothing still pending is
  // due earlier.
  ghost predicate Merged(after: Heaps, collected: seq<Sent>, now: int) {
    InOrder(collected) && forall s <- collected :: s.client in after && Due(s.event) <= now && NotLater(s.event, after)
  }

  ghost predicate NotLater(e: Event, heaps: Heaps) {
    forall c <- heaps :: forall x <- heaps[c] :: Due(e) <= Due(x)
  }

  ghost predicate NothingDueBy(heaps: Heaps, now: int) {
    forall c <- heaps :: forall e <- heaps[c] :: now < Due(e)
  }

  ghost function Popped(heaps: Heaps, s: Sent): Heaps
    requires s.client in heaps
  {
    heaps[s.client := heaps[s.client] - multiset{s.event}]
  }

  lemma ConservedNothing(heaps: Heaps)
    ensures Conserved(heaps, heaps, [])
  {
  }

  lemma ConservedOne(before: Heaps, heaps: Heaps, collected: seq<Sent>, s: Sent)
    requires Conserved(before, heaps, collected) && s.client in heaps && s.event in heaps[s.client]
    ensures Conserved(before, Popped(heaps, s), collected + [s])
  {
    var after := Popped(heaps, s);
    forall c | c in before
      ensures multiset(From(collected + [s], c)) + after[c] == before[c]
    {
      CollectedAt(collected, s, c, heaps[c], after[c], before[c]);
    }
  }

  lemma CollectedAt(collected: seq<Sent>, s: Sent, c: ClientConnectionInServer,
                    pending: multiset<Event>, pending': multiset<Event>, before: multiset<Event>)
    requires multiset(From(collected, c)) + pending == before
    requires if c == s.client then s.event in pending && pending' == pending - multiset{s.event}
             else pending' == pending
    ensures multiset(From(collected + [s], c)) + pending' == before
  {
    LogSnoc(collected, s, 0);
    if c == s.client {
      Snoc(From(collected, c), s.event, 0);
    }
  }

  lemma PoppedNotLater(e: Event, heaps: Heaps, s: Sent)
    requires NotLater(e, heaps) && s.client in heaps
    ensures NotLater(e, Popped(heaps, s))
  {
  }

  lemma MergedLater(after: Heaps, collected: seq<Sent>, now: int, later: int)
    requires Merged(after, collected, now) && now <= later
    ensures Merged(after, collected, later)
  {
  }

  lemma MergedOne(heaps: Heaps, collected: seq<Sent>, s: Sent, now: int)
    requires Merged(heaps, collected, now) && s.client in heaps && s.event in heaps[s.client]
    requires NotLater(s.event, heaps) && Due(s.event) <= now
    ensures Merged(Popped(heaps, s), collected + [s], now)
  {
    forall x | x in collected
      ensures Due(x.event) <= Due(s.event)
    {
      assert NotLater(x.event, heaps);
    }
    InOrderMore(collected, s);
    forall x | x in collected + [s]
      ensures x.client in heaps && Due(x.event) <= now && NotLater(x.event, Popped(heaps, s))
    {
      assert x in collected || x == s;
      PoppedNotLater(x.event, heaps, s);
    }
  }

  // s is pending, due by `now`, and nothing pending anywhere is due earlier.
  ghost predicate IsNext(s: Sent, heaps: Heaps, now: int) {
    s.client in heaps && s.event in heaps[s.client] && NotLater(s.event, heaps) && Due(s.event) <= now
  }

  // The state of a collection that began with `before`.
  ghost predicate Collecting(before: Heaps, heaps: Heaps, collected: seq<Sent>, now: int) {
    Conserved(before, heaps, collected) && Merged(heaps, collected, now)
  }

  lemma CollectingMore(before: Heaps, heaps: Heaps, collected: seq<Sent>, now: int, s: Sent, later: int)
    requires Collecting(before, heaps, collected, now) && IsNext(s, heaps, now) && now <= later
    ensures Collecting(before, Popped(heaps, s), collected + [s], later)
  {
    ConservedOne(before, heaps, collected, s);
    MergedOne(heaps, collected, s, now);
    MergedLater(Popped(heaps, s), collected + [s], now, later);
  }

  lemma InOrderMore(collected: seq<Sent>, s: Sent)
    requires InOrder(collected) && forall x <- collected :: Due(x.event) <= Due(s.event)
    ensures InOrder(collected + [s])
  {
  }

  // Where a client stands: its ring and what will come into it, its books and the limit of its heap.
  datatype Stand = Stand(ring: seq<Event>, arriving: seq<Event>, books: Account, max: nat)

  type Stands = map<ClientConnectionInServer, Stand>

  ghost function StandOf(c: ClientConnectionInServer): Stand
    reads c
  {
    Stand(c.ring, c.arriving, Books(c), c.maxPending)
  }

  ghost predicate RingDone(s: Stand, mid: Stand) {
    && WentOn(s, mid)
    && Exhausted(s.ring, mid.ring, s.books, mid.books.taken, s.max)
  }

  ghost predicate RingsDone(before: Stands, mid: Stands) {
    mid.Keys == before.Keys && forall c <- before :: RingDone(before[c], mid[c])
  }

  // A pass over the rings has done the first i clients.
  ghost predicate DoneUpTo(cs: seq<ClientConnectionInServer>, i: nat, before: Stands, now: Stands) {
    && i <= |cs| && now.Keys == before.Keys && (forall c <- cs :: c in before)
    && (forall c <- before :: WentOn(before[c], now[c]))
    && forall j :: 0 <= j < i ==> RingDone(before[cs[j]], now[cs[j]])
  }

  ghost predicate WentOn(s: Stand, now: Stand) {
    Advanced(s.ring, now.ring, s.books, now.books, s.max) && now.max == s.max && Written(now) == Written(s)
  }

  // All that the client ever writes, in order.
  ghost function Written(s: Stand): seq<Event> {
    s.books.taken + s.ring + s.arriving
  }

  lemma WentNowhere(s: Stand, now: Stand)
    requires s.ring <= now.ring && now.ring + now.arriving == s.ring + s.arriving
    requires now.books == s.books && now.max == s.max
    ensures WentOn(s, now)
  {
    AdvancedNothing(s.ring, now.ring, s.books, s.max);
    assert Written(now) == s.books.taken + (now.ring + now.arriving);
    assert Written(s) == s.books.taken + (s.ring + s.arriving);
  }

  lemma WentOneOn(s: Stand, now: Stand)
    requires s.ring != [] && now.ring == s.ring[1..] && now.arriving == s.arriving && now.max == s.max
    requires now.books == Account(s.books.pending + Timed1(s.ring[0]), s.books.cleared, s.books.taken + [s.ring[0]])
    requires IsImmediate(s.ring[0]) || |s.books.pending| < s.max
    ensures WentOn(s, now)
  {
    AdvancedOne(s.ring, s.books, now.books, s.max);
    assert [s.ring[0]] + s.ring[1..] == s.ring;
    assert Written(now) == s.books.taken + ([s.ring[0]] + s.ring[1..]) + s.arriving;
  }

  lemma WentOnTwice(s: Stand, mid: Stand, now: Stand)
    requires WentOn(s, mid) && WentOn(mid, now)
    ensures WentOn(s, now)
  {
    AdvancedTwice(s.ring, mid.ring, now.ring, s.books, mid.books, now.books, s.max);
  }

  lemma NothingDone(cs: seq<ClientConnectionInServer>, stands: Stands)
    requires forall c <- cs :: c in stands
    ensures DoneUpTo(cs, 0, stands, stands)
  {
    forall c | c in stands
      ensures WentOn(stands[c], stands[c])
    {
      WentNowhere(stands[c], stands[c]);
    }
  }

  lemma DoneMore(cs: seq<ClientConnectionInServer>, i: nat, before: Stands, now: Stands, s: Stand)
    requires i < |cs| && DoneUpTo(cs, i, before, now) && RingDone(now[cs[i]], s)
    ensures DoneUpTo(cs, i + 1, before, now[cs[i] := s])
  {
    assert WentOn(before[cs[i]], now[cs[i]]);
    DoneAtLast(before[cs[i]], now[cs[i]], s);
  }

  lemma DoneAtLast(b: Stand, n: Stand, s: Stand)
    requires WentOn(b, n) && RingDone(n, s)
    ensures WentOn(b, s) && RingDone(b, s)
  {
    AdvancedTwice(b.ring, n.ring, s.ring, b.books, n.books, s.books, b.max);
    ExhaustedTwice(b.ring, n.ring, s.ring, b.books, n.books, s.books, b.max);
  }

  lemma AllDone(cs: seq<ClientConnectionInServer>, before: Stands, now: Stands)
    requires DoneUpTo(cs, |cs|, before, now) && forall c <- before :: c in cs
    ensures RingsDone(before, now)
  {
    forall c | c in before
      ensures RingDone(before[c], now[c])
    {
      var j :| 0 <= j < |cs| && cs[j] == c;
    }
  }

  lemma OneChanged(stands: Stands, stands': Stands, c: ClientConnectionInServer)
    requires stands'.Keys == stands.Keys && c in stands
    requires forall d <- stands :: d != c ==> stands'[d] == stands[d]
    ensures stands' == stands[c := stands'[c]]
  {
  }

  // One client's part of a pass: what was taken from its ring and its heap, and why no more was taken.
  ghost predicate PassedOver(s: Stand, s': Stand, collected: seq<Event>) {
    && Passed(s.ring, s'.ring, s.books, s'.books, collected) && s'.max == s.max && Written(s') == Written(s)
    && Exhausted(s.ring, s'.ring, s.books, s'.books.taken, s.max)
  }

  // All clients' parts; exactly what was due by the last reading of the clock was collected, in due order.
  ghost predicate PassDone(before: Stands, after: Stands, heaps: Heaps, collected: seq<Sent>, lastNow: int) {
    && after.Keys == before.Keys && (forall c <- before :: PassedOver(before[c], after[c], From(collected, c)))
    && Merged(heaps, collected, lastNow) && NothingDueBy(heaps, lastNow)
  }

  ghost function Heaped(stands: Stands): Heaps {
    map c | c in stands :: stands[c].books.pending
  }

  // The clients after some of what was pending is gone.
  ghost function WithHeaps(stands: Stands, heaps: Heaps): Stands
    requires heaps.Keys == stands.Keys
  {
    map c | c in stands :: stands[c].(books := stands[c].books.(pending := heaps[c]))
  }

  lemma PassIsDone(before: Stands, mid: Stands, heaps: Heaps, collected: seq<Sent>, lastNow: int)
    requires RingsDone(before, mid)
    requires Collecting(Heaped(mid), heaps, collected, lastNow) && NothingDueBy(heaps, lastNow)
    ensures PassDone(before, WithHeaps(mid, heaps), heaps, collected, lastNow)
  {
    var after := WithHeaps(mid, heaps);
    forall c | c in before
      ensures PassedOver(before[c], after[c], From(collected, c))
    {
      var s, m := before[c], mid[c];
      assert RingDone(s, m);
      DrainedAndCollected(s.ring, m.ring, s.books, m.books, after[c].books, From(collected, c));
    }
  }

  // The number of pending events of each client.
  ghost function Sizes(cs: seq<ClientConnectionInServer>, heaps: Heaps): seq<nat>
    requires forall c <- cs :: c in heaps
  {
    seq(|cs|, i requires 0 <= i < |cs| => |heaps[cs[i]]|)
  }

  lemma SizesShrink(cs: seq<ClientConnectionInServer>, heaps: Heaps, s: Sent)
    requires forall c <- cs :: c in heaps
    requires s.client in cs && s.event in heaps[s.client]
    ensures Sum(Sizes(cs, Popped(heaps, s))) < Sum(Sizes(cs, heaps))
  {
    var k :| 0 <= k < |cs| && cs[k] == s.client;
    SumShrinks(Sizes(cs, heaps), Sizes(cs, Popped(heaps, s)), k);
  }

  lemma OneMore(log: seq<Sent>, out: seq<Event>, cache: seq<Event>, c: ClientConnectionInServer, e: Event)
    requires Untagged(log) == out + cache
    ensures Untagged(log + [Sent(c, e)]) == out + (cache + [e])
    ensures CachedBytes(cache + [e]) == CachedBytes(cache) + PayloadBytes(e)
  {
    Snoc(cache, e, 0);
    LogSnoc(log, Sent(c, e), 0);
    assert out + (cache + [e]) == out + cache + [e];
  }

  // The clients with another id, in order.
  function Others(cs: seq<ClientConnectionInServer>, clientId: word): seq<ClientConnectionInServer> {
    if cs == [] then []
    else
      var c := cs[|cs| - 1];
      Others(cs[..|cs| - 1], clientId) + if c.clientId == clientId then [] else [c]
  }

  // Client by client, and in order.
  lemma {:induction false} OthersInOrder(a: seq<ClientConnectionInServer>, b: seq<ClientConnectionInServer>,
                                         clientId: word)
    ensures Others(a + b, clientId) == Others(a, clientId) + Others(b, clientId)
    ensures |b| == 1 ==> Others(b, clientId) == if b[0].clientId == clientId then [] else b
    decreases |b|
  {
    if b == [] {
      assert a + b == a;
    } else {
      var init, last := b[..|b| - 1], b[|b| - 1];
      var one := if last.clientId == clientId then [] else [last];
      assert (a + b)[..|a + b| - 1] == a + init && (a + b)[|a + b| - 1] == last;
      OthersInOrder(a, init, clientId);
      assert Others(a, clientId) + (Others(init, clientId) + one) == Others(a, clientId) + Others(init, clientId) + one;
      if |b| == 1 {
        assert init == [] && b == [last];
      }
    }
  }

  lemma {:induction false} OthersOnly(cs: seq<ClientConnectionInServer>, clientId: word)
    ensures forall c :: c in Others(cs, clientId) <==> c in cs && c.clientId != clientId
  {
    if cs != [] {
      OthersOnly(cs[..|cs| - 1], clientId);
      assert cs == cs[..|cs| - 1] + [cs[|cs| - 1]];
    }
  }

  class DeviceConnectionForOutput {
    var clients: seq<ClientConnectionInServer>
    const maxSendCacheBytes: nat
    const hasDriver: bool
    var sendCache: seq<Event>
    var currentSendCacheBytes: nat
    // Everything handed to the driver, call after call.
    var driverOut: seq<Event>
    // The latest reading of the steady clock, which never goes back.
    var clock: int
    // What the timer was armed with last, and whether the worker woke itself instead.
    var timerSec: int
    var timerNsec: int
    var wokeItself: bool
    // Whose events went to the driver or the cache, in order.
    ghost var log: seq<Sent>

    ghost predicate CacheOk()
      reads this`sendCache, this`currentSendCacheBytes, this`driverOut, this`log
    {
      && currentSendCacheBytes == CachedBytes(sendCache) <= maxSendCacheBytes
      && Untagged(log) == driverOut + sendCache
    }

    ghost predicate ClientOk(c: ClientConnectionInServer)
      reads this`log, c
    {
      (forall e <- c.pending :: !IsImmediate(e)) && (hasDriver ==> Settled(log, c, Books(c), maxSendCacheBytes))
    }

    ghost predicate Valid()
      reads this`clients, this`sendCache, this`currentSendCacheBytes, this`driverOut, this`log, clients
    {
      CacheOk() && forall c <- clients :: ClientOk(c)
    }

    constructor (hasDriver: bool, maxSendCacheBytes: nat)
      ensures Valid() && clients == [] && sendCache == [] && driverOut == []
      ensures this.hasDriver == hasDriver && this.maxSendCacheBytes == maxSendCacheBytes && clock == 0
    {
      this.hasDriver, this.maxSendCacheBytes := hasDriver, maxSendCacheBytes;
      clients, sendCache, currentSendCacheBytes, driverOut := [], [], 0, [];
      clock, timerSec, timerNsec, wokeItself := 0, 0, 0, false;
      log := [];
    }

    method Now() returns (now: int)
      requires Valid()
      modifies this`clock
      ensures Valid() && now == clock >= old(clock)
    {
      now :| now >= clock;
      clock := now;
    }

    // ---------- The send cache ----------

    method TryAppendToSendCache(e: Event, ghost c: ClientConnectionInServer) returns (ok: bool)
      requires CacheOk()
      modifies this`sendCache, this`currentSendCacheBytes, this`log
      ensures CacheOk()
      ensures ok == (PayloadBytes(e) == 0 || old(currentSendCacheBytes) + PayloadBytes(e) <= maxSendCacheBytes)
      ensures ok && PayloadBytes(e) > 0 ==> log == old(log) + [Sent(c, e)] && sendCache == old(sendCache) + [e]
      ensures !ok || PayloadBytes(e) == 0 ==>
                log == old(log) && sendCache == old(sendCache) && currentSendCacheBytes == old(currentSendCacheBytes)
    {
      if |e.data| == 0 {
        return true;
      }
      var payloadBytes := 4 * |e.data|;
      if payloadBytes > maxSendCacheBytes {
        return false;
      }
      if currentSendCacheBytes + payloadBytes > maxSendCacheBytes {
        return false;
      }
      OneMore(log, driverOut, sendCache, c, e);
      sendCache := sendCache + [e];
      log := log + [Sent(c, e)];
      currentSendCacheBytes := currentSendCacheBytes + payloadBytes;
      return true;
    }

    method FlushSendCacheToDriver()
      requires CacheOk()
      modifies this`sendCache, this`currentSendCacheBytes, this`driverOut
      ensures CacheOk()
      ensures driverOut == old(driverOut) + if hasDriver then old(sendCache) else []
      ensures sendCache == if hasDriver then [] else old(sendCache)
    {
      if sendCache == [] {
        return;
      }
      if !hasDriver {
        return;
      }
      driverOut := driverOut + sendCache;
      sendCache, currentSendCacheBytes := [], 0;
      assert driverOut + sendCache == driverOut;
    }

    // The last resort, which does nothing.
    method SendToDriver(e: Event)
    {
    }

    // Append; the driver is called if and only if the cache has no room, and then gets all of it. With a
    // driver, exactly the deliverable events are kept.
    method AppendOrFlush(e: Event, ghost c: ClientConnectionInServer) returns (first: bool)
      requires CacheOk()
      modifies this`sendCache, this`currentSendCacheBytes, this`driverOut, this`log
      ensures CacheOk()
      ensures log == Logged(old(log), Sent(c, e), if hasDriver then maxSendCacheBytes
                                                  else maxSendCacheBytes - old(currentSendCacheBytes))
      ensures first == (PayloadBytes(e) == 0 || old(currentSendCacheBytes) + PayloadBytes(e) <= maxSendCacheBytes)
      ensures driverOut == old(driverOut) + if hasDriver && !first then old(sendCache) else []
    {
      first := TryAppendToSendCache(e, c);
      if first {
        return;
      }
      FlushSendCacheToDriver();
      var second := TryAppendToSendCache(e, c);
      if !second {
        SendToDriver(e);
      }
    }

    // ---------- Step 1: drain the rings ----------

    method ConsumeRealtimeEvent(c: ClientConnectionInServer)
      requires Valid() && c in clients && c.ring != [] && IsImmediate(c.ring[0])
      modifies this`sendCache, this`currentSendCacheBytes, this`driverOut, this`log, c`ring, c`taken
      ensures Valid() && c.ring == old(c.ring)[1..] && c.taken == old(c.taken) + [old(c.ring)[0]]
      ensures hasDriver ==> log == Logged(old(log), Sent(c, old(c.ring)[0]), maxSendCacheBytes)
    {
      var e := c.ring[0];
      c.CommitRead();
      var _ := AppendOrFlush(e, c);
      forall d | d in clients
        ensures ClientOk(d)
      {
        assert old(ClientOk(d));
        if hasDriver {
          if d == c {
            SettledImmediate(old(log), Sent(c, e), old(Books(c)), maxSendCacheBytes);
          } else {
            OthersStaySettled(old(log), Sent(c, e), d, Books(d), maxSendCacheBytes);
          }
        }
      }
    }

    // Nothing is taken from the ring while the heap is full.
    method ConsumeNonRealtimeEvent(c: ClientConnectionInServer) returns (ok: bool)
      requires Valid() && c in clients && c.ring != [] && !IsImmediate(c.ring[0])
      modifies c`ring, c`taken, c`pending
      ensures Valid() && ok == !old(c.IsPendingFull())
      ensures !ok ==> c.ring == old(c.ring) && c.taken == old(c.taken) && c.pending == old(c.pending)
      ensures ok ==> c.ring == old(c.ring)[1..] && c.taken == old(c.taken) + [old(c.ring)[0]]
      ensures ok ==> c.pending == old(c.pending) + multiset{old(c.ring)[0]}
    {
      if c.IsPendingFull() {
        return false;
      }
      var e := c.ring[0];
      c.CommitRead();
      ok := c.EnqueueNonRealtime(e);
      forall d | d in clients
        ensures ClientOk(d)
      {
        assert old(ClientOk(d));
        if d == c && hasDriver {
          SettledTimed(log, Sent(c, e), old(Books(c)), maxSendCacheBytes);
        }
      }
    }

    // What went out while rings were drained: immediate events only.
    ghost predicate Burst(start: seq<Sent>, burst: seq<Sent>, log: seq<Sent>) {
      (hasDriver ==> log == start + burst) && forall s <- burst :: IsImmediate(s.event)
    }

    lemma NoBurst(log: seq<Sent>)
      ensures Burst(log, [], log)
    {
      assert log + [] == log;
    }

    lemma BurstOne(start: seq<Sent>, burst: seq<Sent>, log: seq<Sent>, log': seq<Sent>, s: Sent)
      returns (burst': seq<Sent>)
      requires Burst(start, burst, log) && IsImmediate(s.event)
      requires hasDriver ==> log' == Logged(log, s, maxSendCacheBytes)
      ensures Burst(start, burst', log')
    {
      burst' := Logged(burst, s, maxSendCacheBytes);
      assert start + (burst + [s]) == start + burst + [s];
    }

    lemma BurstTwice(start: seq<Sent>, burst: seq<Sent>, log: seq<Sent>, more: seq<Sent>, log': seq<Sent>)
      requires Burst(start, burst, log) && Burst(log, more, log')
      ensures Burst(start, burst + more, log')
    {
      assert start + (burst + more) == start + burst + more;
    }

    // Why a client's ring was left: at most 128 events are taken, fewer if the ring is empty or a timed
    // event meets a full heap.
    ghost predicate Stopped(c: ClientConnectionInServer, taken: seq<Event>)
      reads c
    {
      || |c.taken| == |taken| + MAX_DRAIN_PER_CLIENT || c.ring == []
      || (!IsImmediate(c.ring[0]) && c.IsPendingFull())
    }

    method DrainSingleClientRing(c: ClientConnectionInServer) returns (ghost burst: seq<Sent>)
      requires Valid() && c in clients
      modifies this`sendCache, this`currentSendCacheBytes, this`driverOut, this`log
      modifies c`ring, c`arriving, c`taken, c`pending
      ensures Valid() && WentOn(old(StandOf(c)), StandOf(c)) && Burst(old(log), burst, log)
      ensures |c.taken| <= |old(c.taken)| + MAX_DRAIN_PER_CLIENT && Stopped(c, old(c.taken))
    {
      burst := [];
      NoBurst(log);
      WentNowhere(StandOf(c), StandOf(c));
      var drained, going := 0, true;
      while going
        invariant Valid() && WentOn(old(StandOf(c)), StandOf(c)) && Burst(old(log), burst, log)
        invariant 0 <= drained <= MAX_DRAIN_PER_CLIENT && |c.taken| == |old(c.taken)| + drained
        invariant !going ==> Stopped(c, old(c.taken))
        decreases MAX_DRAIN_PER_CLIENT - drained, going
      {
        ghost var mid, before := StandOf(c), log;
        ghost var more;
        going, more := DrainRound(c, drained == MAX_DRAIN_PER_CLIENT);
        WentOnTwice(old(StandOf(c)), mid, StandOf(c));
        BurstTwice(old(log), burst, before, more, log);
        burst := burst + more;
        drained := drained + if going then 1 else 0;
      }
    }

    // One round of the drain loop: look, and take the event on top unless the round is one too many.
    method DrainRound(c: ClientConnectionInServer, last: bool) returns (ok: bool, ghost burst: seq<Sent>)
      requires Valid() && c in clients
      modifies this`sendCache, this`currentSendCacheBytes, this`driverOut, this`log
      modifies c`ring, c`arriving, c`taken, c`pending
      ensures Valid() && WentOn(old(StandOf(c)), StandOf(c)) && Burst(old(log), burst, log)
      ensures |c.taken| == |old(c.taken)| + if ok then 1 else 0
      ensures last ==> !ok
      ensures !ok ==> last || c.ring == [] || (!IsImmediate(c.ring[0]) && c.IsPendingFull())
    {
      var top := LookAtRing(c);
      if top.None? || last {
        NoBurst(log);
        return false, [];
      }
      ghost var mid := StandOf(c);
      ok, burst := ConsumeOne(c);
      WentOnTwice(old(StandOf(c)), mid, StandOf(c));
    }

    method LookAtRing(c: ClientConnectionInServer) returns (top: Option<Event>)
      requires Valid() && c in clients
      modifies c`ring, c`arriving
      ensures Valid() && WentOn(old(StandOf(c)), StandOf(c)) && c.taken == old(c.taken)
      ensures top == if c.ring == [] then None else Some(c.ring[0])
    {
      top := c.PeekRing();
      WentNowhere(old(StandOf(c)), StandOf(c));
      forall d | d in clients
        ensures ClientOk(d)
      {
        assert old(ClientOk(d));
      }
    }

    // The event on top of the ring.
    method ConsumeOne(c: ClientConnectionInServer) returns (ok: bool, ghost burst: seq<Sent>)
      requires Valid() && c in clients && c.ring != []
      modifies this`sendCache, this`currentSendCacheBytes, this`driverOut, this`log, c`ring, c`taken, c`pending
      ensures Valid() && WentOn(old(StandOf(c)), StandOf(c)) && Burst(old(log), burst, log)
      ensures ok == (IsImmediate(old(c.ring)[0]) || !old(c.IsPendingFull()))
      ensures |c.taken| == |old(c.taken)| + if ok then 1 else 0
      ensures !ok ==> c.ring == old(c.ring) && c.pending == old(c.pending)
    {
      burst, ok := [], true;
      NoBurst(log);
      var e := c.ring[0];
      if IsImmediate(e) {
        ConsumeRealtimeEvent(c);
        burst := BurstOne(old(log), [], old(log), log, Sent(c, e));
      } else {
        ok := ConsumeNonRealtimeEvent(c);
      }
      if ok {
        WentOneOn(old(StandOf(c)), StandOf(c));
      } else {
        WentNowhere(old(StandOf(c)), StandOf(c));
      }
    }

    ghost function Standing(): Stands
      reads this`clients, clients
    {
      map c | c in clients :: StandOf(c)
    }

    // One client's ring: drained until nothing is left, a timed event meets a full heap, or, with more
    // than the ring holds, after 128 events.
    method DrainClient(c: ClientConnectionInServer) returns (ghost burst: seq<Sent>)
      requires Valid() && c in clients
      modifies this`sendCache, this`currentSendCacheBytes, this`driverOut, this`log
      modifies c`ring, c`arriving, c`taken, c`pending
      ensures Valid() && Burst(old(log), burst, log)
      ensures c in old(Standing()) && Standing() == old(Standing())[c := StandOf(c)]
      ensures RingDone(old(Standing())[c], StandOf(c))
    {
      burst := DrainUntilDone(c);
      OnlyMoved(c);
    }

    twostate lemma OnlyMoved(c: ClientConnectionInServer)
      requires clients == old(clients) && c in clients && unchanged(set d | d in clients && d != c)
      ensures c in old(Standing()) && old(Standing())[c] == old(StandOf(c))
      ensures Standing() == old(Standing())[c := StandOf(c)]
    {
      var start, now := old(Standing()), Standing();
      forall d | d in start && d != c
        ensures now[d] == start[d]
      {
        assert d in (set d | d in clients && d != c);
      }
      OneChanged(start, now, c);
    }

    method DrainUntilDone(c: ClientConnectionInServer) returns (ghost burst: seq<Sent>)
      requires Valid() && c in clients
      modifies this`sendCache, this`currentSendCacheBytes, this`driverOut, this`log
      modifies c`ring, c`arriving, c`taken, c`pending
      ensures Valid() && Burst(old(log), burst, log)
      ensures RingDone(old(StandOf(c)), StandOf(c))
    {
      ghost var s := StandOf(c);
      burst := DrainSingleClientRing(c);
      DrainEnds(s.ring, c.ring, s.books, Books(c), c.maxPending);
    }

    method DrainAllClientsRings() returns (ghost burst: seq<Sent>)
      requires Valid()
      modifies this`sendCache, this`currentSendCacheBytes, this`driverOut, this`log
      modifies clients`ring, clients`arriving, clients`taken, clients`pending
      ensures Valid() && Burst(old(log), burst, log) && RingsDone(old(Standing()), Standing())
    {
      burst := [];
      NoBurst(log);
      NothingDone(clients, Standing());
      for i := 0 to |clients|
        invariant Valid() && Burst(old(log), burst, log)
        invariant DoneUpTo(clients, i, old(Standing()), Standing())
      {
        ghost var before, now := log, Standing();
        ghost var more := DrainClient(clients[i]);
        BurstTwice(old(log), burst, before, more, log);
        burst := burst + more;
        DoneMore(clients, i, old(Standing()), now, StandOf(clients[i]));
      }
      AllDone(clients, old(Standing()), Standing());
    }

    // ---------- Step 2: collect due events ----------

    // The earliest time an event is due, None when no event is pending.
    ghost predicate NextDue(due: Option<int>)
      reads this`clients, clients
    {
      if due.None? then forall c <- clients :: |c.pending| == 0
      else
        && (exists c <- clients :: exists e <- c.pending :: Due(e) == due.value)
        && forall c <- clients :: forall e <- c.pending :: due.value <= Due(e)
    }

    // The first client that has an event due at the earliest time.
    ghost predicate FirstDue(index: nat, due: int)
      reads this`clients, clients
    {
      && index < |clients| && (exists e <- clients[index].pending :: Due(e) == due)
      && forall i :: 0 <= i < |clients| ==>
           forall e <- clients[i].pending :: if i < index then due < Due(e) else due <= Due(e)
    }

    method FindClientWithEarliestDue() returns (best: Option<ClientConnectionInServer>, due: int, ghost index: nat)
      ensures NextDue(if best.None? then None else Some(due))
      ensures best.Some? ==> FirstDue(index, due) && best.value == clients[index]
    {
      best, due, index := None, 0, 0;
      for i := 0 to |clients|
        invariant best.None? <==> forall j :: 0 <= j < i ==> |clients[j].pending| == 0
        invariant best.Some? ==> index < i && best.value == clients[index]
        invariant best.Some? ==> exists e <- best.value.pending :: Due(e) == due
        invariant best.Some? ==> forall j :: 0 <= j < i ==>
                    forall e <- clients[j].pending :: if j < index then due < Due(e) else due <= Due(e)
      {
        var top := clients[i].PeekPendingTop();
        if top.Some? && (best.None? || Due(top.value) < due) {
          best, due, index := Some(clients[i]), Due(top.value), i;
        }
      }
      assert best.Some? ==> FirstDue(index, due);
    }

    // Pops the event due first and hands it on.
    method HandOnEarliest(c: ClientConnectionInServer) returns (first: bool, ghost e: Event)
      requires Valid() && c in clients && |c.pending| > 0
      modifies this`sendCache, this`currentSendCacheBytes, this`driverOut, this`log, c`pending
      ensures Valid() && IsEarliest(e, old(c.pending)) && c.pending == old(c.pending) - multiset{e}
      ensures hasDriver ==> log == Logged(old(log), Sent(c, e), maxSendCacheBytes)
    {
      var top := c.PopPendingTop();
      e := top.value;
      first := AppendOrFlush(top.value, c);
      forall d | d in clients
        ensures ClientOk(d)
      {
        assert old(ClientOk(d));
        if hasDriver {
          DueKeepsSettled(old(log), Sent(c, e), d, old(Books(d)), Books(d), maxSendCacheBytes);
        }
      }
    }

    ghost function Pending(): Heaps
      reads this`clients, clients
    {
      map c | c in clients :: c.pending
    }

    lemma EarliestIsNext(index: nat, due: int, now: int)
      requires FirstDue(index, due) && due <= now
      ensures |clients[index].pending| > 0
      ensures forall e :: IsEarliest(e, clients[index].pending) ==> IsNext(Sent(clients[index], e), Pending(), now)
    {
      var c := clients[index];
      forall e | IsEarliest(e, c.pending)
        ensures IsNext(Sent(c, e), Pending(), now)
      {
        var x :| x in c.pending && Due(x) == due;
        assert Due(e) <= Due(x);
      }
    }

    lemma NothingDue(next: Option<int>, now: int)
      requires NextDue(next) && (next.None? || next.value > now)
      ensures NothingDueBy(Pending(), now)
    {
    }

    // One round of the collection: an event that no pending one precedes is handed on, if it is due.
    method CollectOne(now: int) returns (found: bool, later: int, ghost s: Option<Sent>)
      requires Valid() && now <= clock
      modifies this`sendCache, this`currentSendCacheBytes, this`driverOut, this`log, this`clock, clients`pending
      ensures Valid() && found == s.Some? && now <= later <= clock && old(clock) <= clock
      ensures var heaps := old(Pending());
              if s.None? then Pending() == heaps && log == old(log) && later == now && NothingDueBy(Pending(), now)
              else
                && IsNext(s.value, heaps, now) && Pending() == Popped(heaps, s.value)
                && (hasDriver ==> log == Logged(old(log), s.value, maxSendCacheBytes))
    {
      later := now;
      var earliest, due, index := FindClientWithEarliestDue();
      NothingChanged();
      if earliest.None? || due > now {
        NothingDue(if earliest.None? then None else Some(due), now);
        return false, later, None;
      }
      ghost var e;
      EarliestIsNext(index, due, now);
      later, e := PopNext(earliest.value, now);
      return true, later, Some(Sent(earliest.value, e));
    }

    method PopNext(c: ClientConnectionInServer, now: int) returns (later: int, ghost e: Event)
      requires Valid() && c in clients && |c.pending| > 0 && now <= clock
      modifies this`sendCache, this`currentSendCacheBytes, this`driverOut, this`log, this`clock, c`pending
      ensures Valid() && now <= later <= clock && old(clock) <= clock
      ensures IsEarliest(e, old(c.pending)) && Pending() == Popped(old(Pending()), Sent(c, e))
      ensures hasDriver ==> log == Logged(old(log), Sent(c, e), maxSendCacheBytes)
    {
      later, e := HandOnAndRead(c, now);
      OnlyItsHeap(c);
    }

    twostate lemma OnlyItsHeap(c: ClientConnectionInServer)
      requires clients == old(clients) && c in clients && unchanged(set d | d in clients && d != c)
      ensures c in old(Pending()) && old(Pending())[c] == old(c.pending)
      ensures Pending() == old(Pending())[c := c.pending]
    {
      var before, after := old(Pending()), Pending();
      forall d | d in before && d != c
        ensures after[d] == before[d]
      {
        assert d in (set d | d in clients && d != c);
      }
      assert after == before[c := c.pending];
    }

    // The clock is read again only after the cache was full.
    method HandOnAndRead(c: ClientConnectionInServer, now: int) returns (later: int, ghost e: Event)
      requires Valid() && c in clients && |c.pending| > 0 && now <= clock
      modifies this`sendCache, this`currentSendCacheBytes, this`driverOut, this`log, this`clock, c`pending
      ensures Valid() && now <= later <= clock && old(clock) <= clock
      ensures IsEarliest(e, old(c.pending)) && c.pending == old(c.pending) - multiset{e}
      ensures hasDriver ==> log == Logged(old(log), Sent(c, e), maxSendCacheBytes)
    {
      var first;
      first, e := HandOnEarliest(c);
      later := now;
      if !first {
        later := Now();
      }
    }

    // What went out while due events were collected: the deliverable ones, in order.
    ghost predicate HandedOn(start: seq<Sent>, collected: seq<Sent>, log: seq<Sent>) {
      hasDriver ==> log == start + Kept(collected, maxSendCacheBytes)
    }

    lemma HandedOnNothing(log: seq<Sent>)
      ensures HandedOn(log, [], log)
    {
      assert log + [] == log;
    }

    lemma HandedOnOne(start: seq<Sent>, collected: seq<Sent>, log: seq<Sent>, s: Sent, log': seq<Sent>)
      requires HandedOn(start, collected, log) && (hasDriver ==> log' == Logged(log, s, maxSendCacheBytes))
      ensures HandedOn(start, collected + [s], log')
    {
      var kept := Kept(collected, maxSendCacheBytes);
      LogSnoc(collected, s, maxSendCacheBytes);
      assert kept + [] == kept && start + (kept + [s]) == start + kept + [s];
    }

    // What a collection has done so far.
    ghost predicate Collected(start: Heaps, sent: seq<Sent>, collected: seq<Sent>, now: int)
      reads this, clients
    {
      Collecting(start, Pending(), collected, now) && HandedOn(sent, collected, log)
    }

    method CollectRound(now: int, ghost start: Heaps, ghost sent: seq<Sent>, ghost collected: seq<Sent>)
      returns (found: bool, later: int, ghost collected': seq<Sent>)
      requires Valid() && now <= clock && Collected(start, sent, collected, now)
      modifies this`sendCache, this`currentSendCacheBytes, this`driverOut, this`log, this`clock, clients`pending
      ensures Valid() && Collected(start, sent, collected', later) && now <= later <= clock && old(clock) <= clock
      ensures if found then Sum(Sizes(clients, Pending())) < Sum(Sizes(clients, old(Pending())))
              else NothingDueBy(Pending(), later)
    {
      ghost var heaps, before, s := Pending(), log, None;
      found, later, s := CollectOne(now);
      collected' := collected;
      if found {
        collected' := collected + [s.value];
        CollectingMore(start, heaps, collected, now, s.value, later);
        HandedOnOne(sent, collected, before, s.value, log);
        SizesShrink(clients, heaps, s.value);
      }
    }

    // Collects, across all clients and in the order they are due, exactly the events that are due by
    // the last reading of the clock.
    method CollectDueEventsFromClientHeaps() returns (ghost collected: seq<Sent>, ghost lastNow: int)
      requires Valid()
      modifies this`sendCache, this`currentSendCacheBytes, this`driverOut, this`log, this`clock, clients`pending
      ensures Valid() && old(clock) <= lastNow <= clock
      ensures Collected(old(Pending()), old(log), collected, lastNow) && NothingDueBy(Pending(), lastNow)
    {
      var now := Now();
      collected := [];
      HandedOnNothing(log);
      ConservedNothing(Pending());
      var found := true;
      while found
        invariant Valid() && old(clock) <= now <= clock
        invariant Collected(old(Pending()), old(log), collected, now)
        invariant !found ==> NothingDueBy(Pending(), now)
        decreases found, Sum(Sizes(clients, Pending()))
      {
        found, now, collected := CollectRound(now, old(Pending()), old(log), collected);
      }
      lastNow := now;
    }

    lemma PendingIsHeaped()
      ensures Pending() == Heaped(Standing())
    {
    }

    twostate lemma OnlyHeapsChanged()
      requires clients == old(clients)
      requires forall c <- clients :: unchanged(c`ring, c`arriving, c`taken, c`cleared, c`maxPending)
      ensures Pending().Keys == old(Standing()).Keys && Standing() == WithHeaps(old(Standing()), Pending())
    {
      var before, after, heaps := old(Standing()), Standing(), Pending();
      assert forall c <- clients :: after[c] == StandOf(c) && before[c] == old(StandOf(c)) && heaps[c] == c.pending;
    }

    twostate lemma NothingChanged()
      requires clients == old(clients) && forall c <- clients :: unchanged(c)
      ensures Standing() == old(Standing()) && Pending() == old(Pending())
    {
      var before, after := old(Standing()), Standing();
      assert forall c <- clients :: after[c] == StandOf(c) && before[c] == old(StandOf(c));
    }

    // The same, with what it leaves as it was.
    method CollectDueEvents() returns (ghost collected: seq<Sent>, ghost lastNow: int)
      requires Valid()
      modifies this`sendCache, this`currentSendCacheBytes, this`driverOut, this`log, this`clock, clients`pending
      ensures Valid() && old(clock) <= lastNow <= clock
      ensures Collecting(Heaped(old(Standing())), Pending(), collected, lastNow) && NothingDueBy(Pending(), lastNow)
      ensures HandedOn(old(log), collected, log) && Standing() == WithHeaps(old(Standing()), Pending())
    {
      PendingIsHeaped();
      collected, lastNow := CollectDueEventsFromClientHeaps();
      OnlyHeapsChanged();
    }

    // ---------- Steps 3 and 4: flush, and arm the timer ----------

    // The timer is armed exactly when an event is next, for the time until it is due but at least one
    // nanosecond; the worker also wakes itself if that time has passed.
    ghost predicate ArmedFor(next: Option<int>)
      reads this`clock, this`timerSec, this`timerNsec, this`wokeItself
    {
      && 0 <= timerSec && 0 <= timerNsec < NS_PER_SECOND
      && timerSec * NS_PER_SECOND + timerNsec ==
         (if next.None? then 0 else if next.value <= clock then 1 else next.value - clock)
      && wokeItself == (next.Some? && next.value < clock)
    }

    method UpdateNextTimer() returns (ghost next: Option<int>)
      requires Valid()
      modifies this`clock, this`timerSec, this`timerNsec, this`wokeItself
      ensures Valid() && old(clock) <= clock && NextDue(next) && ArmedFor(next)
    {
      var earliest, due, index := FindClientWithEarliestDue();
      next := if earliest.None? then None else Some(due);
      assert NextDue(next);
      if earliest.None? {
        SetTimer(0, 0, false, next);
      } else {
        ArmTimer(due);
      }
    }

    method ArmTimer(due: int)
      requires Valid() && NextDue(Some(due))
      modifies this`clock, this`timerSec, this`timerNsec, this`wokeItself
      ensures Valid() && old(clock) <= clock && NextDue(Some(due))
      ensures 0 <= timerSec && 0 <= timerNsec < NS_PER_SECOND
      ensures timerSec * NS_PER_SECOND + timerNsec == if due <= clock then 1 else due - clock
      ensures wokeItself == (due < clock)
    {
      var now := Now();
      var sec, nsec := TimeUntil(due, now);
      SetTimer(sec, nsec, due < now, Some(due));
    }

    // Never zero, which would disarm the timer.
    method TimeUntil(due: int, now: int) returns (sec: int, nsec: int)
      ensures 0 <= sec && 0 <= nsec < NS_PER_SECOND
      ensures sec * NS_PER_SECOND + nsec == if due <= now then 1 else due - now
    {
      if due < now {
        return 0, 1;
      }
      var deltaNs := due - now;
      if deltaNs <= 0 {
        deltaNs := 1;
      }
      return deltaNs / NS_PER_SECOND, deltaNs % NS_PER_SECOND;
    }

    method SetTimer(sec: int, nsec: int, woke: bool, ghost next: Option<int>)
      requires Valid() && NextDue(next)
      modifies this`timerSec, this`timerNsec, this`wokeItself
      ensures Valid() && NextDue(next) && timerSec == sec && timerNsec == nsec && wokeItself == woke
    {
      timerSec, timerNsec, wokeItself := sec, nsec, woke;
    }

    method FlushAll()
      requires Valid()
      modifies this`sendCache, this`currentSendCacheBytes, this`driverOut
      ensures Valid() && (hasDriver ==> sendCache == [])
    {
      FlushSendCacheToDriver();
      forall c | c in clients
        ensures ClientOk(c)
      {
        assert old(ClientOk(c));
      }
    }

    // Steps 1 and 2 of a pass.
    method DrainAndCollect() returns (ghost burst: seq<Sent>, ghost collected: seq<Sent>, ghost lastNow: int)
      requires Valid()
      modifies this`sendCache, this`currentSendCacheBytes, this`driverOut, this`log, this`clock
      modifies clients`ring, clients`arriving, clients`taken, clients`pending
      ensures Valid() && old(clock) <= lastNow <= clock
      ensures PassDone(old(Standing()), Standing(), Pending(), collected, lastNow)
      ensures HandedOver(old(log), burst, collected)
    {
      ghost var before := Standing();
      burst := DrainAllClientsRings();
      ghost var mid := Standing();
      collected, lastNow := CollectDueEvents();
      PassIsDone(before, mid, Pending(), collected, lastNow);
    }

    // What the driver and the cache were given in a pass: the immediate events, then the due ones.
    ghost predicate HandedOver(start: seq<Sent>, burst: seq<Sent>, collected: seq<Sent>)
      reads this`log
    {
      && (forall s <- burst :: IsImmediate(s.event))
      && (hasDriver ==> log == start + burst + Kept(collected, maxSendCacheBytes))
    }

    // One pass. Rings keep what was not taken, which is nothing but what stands behind a full heap or came
    // in meanwhile; of what was pending or came in timed, exactly what was due by the last reading of the
    // clock was collected, in due order, and the rest is pending; and the driver was given the old cache,
    // then the immediate events, then the due ones.
    method HandleWakeupOnce()
      returns (ghost burst: seq<Sent>, ghost collected: seq<Sent>, ghost lastNow: int, ghost next: Option<int>)
      requires Valid()
      modifies this`sendCache, this`currentSendCacheBytes, this`driverOut, this`log, this`clock
      modifies this`timerSec, this`timerNsec, this`wokeItself
      modifies clients`ring, clients`arriving, clients`taken, clients`pending
      ensures Valid() && old(clock) <= lastNow <= clock
      ensures PassDone(old(Standing()), Standing(), Pending(), collected, lastNow)
      ensures HandedOver(old(log), burst, collected) && (hasDriver ==> sendCache == [])
      ensures NextDue(next) && ArmedFor(next)
    {
      burst, collected, lastNow := DrainAndCollect();
      next := FlushAndArm();
    }

    // If nothing arrived meanwhile, a client with events left in its ring has the timer armed, unless its
    // heap fills up and all that fills it is due.
    lemma LeftBehindIsTimed(c: ClientConnectionInServer, s: Stand, collected: seq<Event>, now: int, next: Option<int>)
      requires c in clients && PassedOver(s, StandOf(c), collected) && |s.books.pending| <= s.max
      requires (forall e <- collected :: Due(e) <= now) && forall e <- c.pending :: now < Due(e)
      requires |s.ring| <= MAX_RING_EVENTS && s.ring == c.taken[|s.books.taken|..] + c.ring
      requires NextDue(next) && ArmedFor(next)
      ensures c.ring != [] && !FillsAndFallsDue(s.ring, s.books.pending, s.max, now) ==> timerSec > 0 || timerNsec > 0
    {
      StallsExactly(s.ring, c.ring, s.books, Books(c), collected, s.max, now);
    }

    // Steps 3 and 4 leave the clients as they are.
    method FlushAndArm() returns (ghost next: Option<int>)
      requires Valid()
      modifies this`sendCache, this`currentSendCacheBytes, this`driverOut
      modifies this`clock, this`timerSec, this`timerNsec, this`wokeItself
      ensures Valid() && old(clock) <= clock && NextDue(next) && ArmedFor(next) && (hasDriver ==> sendCache == [])
      ensures Standing() == old(Standing()) && Pending() == old(Pending())
    {
      FlushAll();
      next := UpdateNextTimer();
      NothingChanged();
    }

    // ---------- The client list ----------

    method AddClientConnection(clientId: word) returns (c: ClientConnectionInServer)
      requires Valid()
      modifies this`clients
      ensures Valid() && fresh(c) && clients == old(clients) + [c] && c.clientId == clientId
      ensures StandOf(c) == Stand([], [], Account(multiset{}, multiset{}, []), 1024)
    {
      c := new ClientConnectionInServer(clientId);
      FromNone(log, c);
      clients := clients + [c];
      forall d | d in clients
        ensures ClientOk(d)
      {
        assert d != c ==> old(ClientOk(d));
      }
    }

    method RemoveClientConnection(clientId: word)
      requires Valid()
      modifies this`clients
      ensures Valid() && clients == Others(old(clients), clientId)
    {
      var kept: seq<ClientConnectionInServer> := [];
      for i := 0 to |clients|
        invariant kept == Others(clients[..i], clientId)
      {
        assert clients[..i + 1][..i] == clients[..i];
        if clients[i].clientId != clientId {
          kept := kept + [clients[i]];
        }
      }
      assert clients[..|clients|] == clients;
      OthersOnly(clients, clientId);
      clients := kept;
      forall c | c in clients
        ensures ClientOk(c)
      {
        assert old(ClientOk(c));
      }
    }

    // Clears what the client has waiting, in its heap and its ring; what went out stays.
    method FlushClientCache(clientId: word)
      requires Valid()
      modifies clients`ring, clients`pending, clients`cleared
      ensures Valid()
      ensures forall c <- clients :: if c.clientId == clientId then c.pending == multiset{} && c.ring == []
                                     else c.pending == old(c.pending) && c.ring == old(c.ring)
    {
      for i := 0 to |clients|
        invariant Valid()
        invariant forall c <- clients[..i] :: c.clientId == clientId ==> c.pending == multiset{} && c.ring == []
        invariant forall c <- clients :: c.clientId != clientId ==> c.pending == old(c.pending) && c.ring == old(c.ring)
      {
        if clients[i].clientId == clientId {
          FlushClient(clients[i]);
        }
      }
      assert clients[..|clients|] == clients;
    }

    method FlushClient(c: ClientConnectionInServer)
      requires Valid() && c in clients
      modifies c`ring, c`pending, c`cleared
      ensures Valid() && c.pending == multiset{} && c.ring == []
    {
      c.Flush();
      forall d | d in clients
        ensures ClientOk(d)
      {
        assert old(ClientOk(d));
        if d == c && hasDriver {
          SettledCleared(log, c, old(Books(c)), maxSendCacheBytes);
        }
      }
    }
  }
}
