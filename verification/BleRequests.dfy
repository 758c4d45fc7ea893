/** Requests to open a Bluetooth device, from being accepted to being answered. A ticket names the
    callback that a request waits to have called. */
module BleRequests {
  import opened Words

  datatype Request = Request(client: word, ticket: nat)

  // What became of an accepted request.
  datatype Fate = Waiting(address: string) | Answered | Cancelled

  type Pending = map<string, seq<Request>>
  type Fates = map<nat, Fate>

  function Tickets(list: seq<Request>): set<nat> {
    set r | r in list :: r.ticket
  }

  function Askers(list: seq<Request>): set<word> {
    set r | r in list :: r.client
  }

  function LiveAskers(list: seq<Request>, clients: set<word>): set<word> {
    set r | r in list && r.client in clients :: r.client
  }

  lemma AllLive(list: seq<Request>, clients: set<word>)
    requires forall r <- list :: r.client in clients
    ensures LiveAskers(list, clients) == Askers(list) <= clients
    ensures Askers(list) == {} <==> list == []
  {
    if list != [] {
      assert list[0].client in Askers(list);
    }
  }

  // Each once, in the order the requests were made.
  ghost predicate InTurn(list: seq<Request>) {
    forall i, j :: 0 <= i < j < |list| ==> list[i].ticket < list[j].ticket
  }

  ghost predicate ListOk(list: seq<Request>, clients: set<word>) {
    list != [] && InTurn(list) && forall r <- list :: r.client in clients
  }

  ghost predicate InList(pending: Pending, fates: Fates, a: string)
    requires a in pending
  {
    forall t <- Tickets(pending[a]) :: t in fates && fates[t] == Waiting(a)
  }

  ghost predicate OnList(pending: Pending, fates: Fates, t: nat)
    requires t in fates
  {
    fates[t].Waiting? ==> fates[t].address in pending && t in Tickets(pending[fates[t].address])
  }

  // The waiting requests of an address are exactly those in its list.
  ghost predicate Traced(pending: Pending, fates: Fates) {
    && (forall a {:trigger InList(pending, fates, a)} :: a in pending ==> InList(pending, fates, a))
    && (forall t {:trigger OnList(pending, fates, t)} :: t in fates ==> OnList(pending, fates, t))
  }

  // Every list waits for somebody, each request once, and only for live clients.
  ghost predicate Booked(pending: Pending, clients: set<word>, fates: Fates, requests: nat) {
    && (forall t <- fates :: t < requests)
    && (forall a {:trigger ListOk(pending[a], clients)} :: a in pending ==> ListOk(pending[a], clients))
    && Traced(pending, fates)
  }

  // A request's callback was called.
  datatype Answer = Answer(ticket: nat, success: bool)

  function AnsweredTickets(answers: seq<Answer>): set<nat> {
    set a | a in answers :: a.ticket
  }

  // Exactly the answered requests had their callback called, each once.
  ghost predicate Told(fates: Fates, answers: seq<Answer>) {
    && (forall i, j :: 0 <= i < j < |answers| ==> answers[i].ticket != answers[j].ticket)
    && AnsweredTickets(answers) == set t | t in fates && fates[t] == Answered
  }

  function AnswersFor(waiting: seq<Request>, success: bool): seq<Answer> {
    seq(|waiting|, i requires 0 <= i < |waiting| => Answer(waiting[i].ticket, success))
  }

  // Everybody who waited was called, in order and once, with the outcome, and nobody else.
  ghost predicate Called(before: seq<Answer>, after: seq<Answer>, waiting: seq<Request>, success: bool) {
    && |after| == |before| + |waiting| && before <= after
    && forall i :: 0 <= i < |waiting| ==>
         var answer := after[|before| + i]; answer.ticket == waiting[i].ticket && answer.success == success
  }

  // Fates only change from waiting to answered or cancelled: nothing is answered twice.
  ghost predicate Settling(fates: Fates, fates': Fates) {
    && fates.Keys <= fates'.Keys
    && forall t <- fates :: fates'[t] == fates[t] || (fates[t].Waiting? && !fates'[t].Waiting?)
  }

  function Decided(fates: Fates, tickets: set<nat>, fate: Fate): Fates {
    map t | t in fates :: if t in tickets then fate else fates[t]
  }

  lemma AnswersTickets(waiting: seq<Request>, success: bool)
    ensures AnsweredTickets(AnswersFor(waiting, success)) == Tickets(waiting)
  {
    var answers := AnswersFor(waiting, success);
    assert forall r <- waiting :: Answer(r.ticket, success) in answers by {
      forall r | r in waiting
        ensures Answer(r.ticket, success) in answers
      {
        var i :| 0 <= i < |waiting| && waiting[i] == r;
        assert answers[i] == Answer(r.ticket, success);
      }
    }
  }

  // Requests that waited, each once, are answered and their callbacks called.
  lemma ToldMore(fates: Fates, answers: seq<Answer>, waiting: seq<Request>, success: bool)
    requires Told(fates, answers) && InTurn(waiting)
    requires forall t <- Tickets(waiting) :: t in fates && fates[t].Waiting?
    ensures Told(Decided(fates, Tickets(waiting), Answered), answers + AnswersFor(waiting, success))
  {
    var more := AnswersFor(waiting, success);
    AnswersTickets(waiting, success);
    assert AnsweredTickets(answers + more) == AnsweredTickets(answers) + AnsweredTickets(more);
    forall i, j | 0 <= i < |answers| && 0 <= j < |more|
      ensures answers[i].ticket != more[j].ticket
    {
      assert answers[i].ticket in AnsweredTickets(answers);
      assert waiting[j].ticket in Tickets(waiting);
    }
  }

  lemma ToldOne(fates: Fates, answers: seq<Answer>, t: nat, success: bool)
    requires Told(fates, answers) && t !in fates
    ensures Told(fates[t := Answered], answers + [Answer(t, success)])
  {
    assert t !in AnsweredTickets(answers);
    assert AnsweredTickets(answers + [Answer(t, success)]) == AnsweredTickets(answers) + {t};
  }

  // Requests that begin to wait or are cancelled call nobody.
  lemma ToldNothing(fates: Fates, fates': Fates, answers: seq<Answer>)
    requires Told(fates, answers)
    requires forall t: nat :: (t in fates' && fates'[t] == Answered) <==> (t in fates && fates[t] == Answered)
    ensures Told(fates', answers)
  {
  }

  lemma TicketsSnoc(list: seq<Request>, r: Request)
    ensures Tickets(list + [r]) == Tickets(list) + {r.ticket}
    ensures InTurn(list) && (forall t <- Tickets(list) :: t < r.ticket) ==> InTurn(list + [r])
  {
    if InTurn(list) && forall t <- Tickets(list) :: t < r.ticket {
      assert forall x <- list :: x.ticket in Tickets(list);
    }
  }

  // A request at the end of its address's list.
  function Queued(pending: Pending, a: string, r: Request): Pending {
    pending[a := (if a in pending then pending[a] else []) + [r]]
  }

  lemma EnqueueBooks(pending: Pending, clients: set<word>, fates: Fates, requests: nat, a: string, c: word)
    requires Booked(pending, clients, fates, requests) && c in clients
    ensures Booked(Queued(pending, a, Request(c, requests)), clients, fates[requests := Waiting(a)], requests + 1)
  {
    var list := if a in pending then pending[a] else [];
    var pending', fates' := pending[a := list + [Request(c, requests)]], fates[requests := Waiting(a)];
    assert a in pending ==> ListOk(pending[a], clients) && InList(pending, fates, a);
    TicketsSnoc(list, Request(c, requests));
    assert forall r <- list + [Request(c, requests)] :: r in list || r == Request(c, requests);
    forall x | x in pending'
      ensures ListOk(pending'[x], clients) && InList(pending', fates', x)
    {
      assert x != a ==> ListOk(pending[x], clients) && InList(pending, fates, x);
    }
    forall t | t in fates'
      ensures OnList(pending', fates', t)
    {
      assert t != requests ==> OnList(pending, fates, t);
    }
  }

  lemma AnsweredAtOnce(pending: Pending, clients: set<word>, fates: Fates, requests: nat)
    requires Booked(pending, clients, fates, requests)
    ensures Booked(pending, clients, fates[requests := Answered], requests + 1)
  {
    var fates' := fates[requests := Answered];
    forall a | a in pending
      ensures ListOk(pending[a], clients) && InList(pending, fates', a)
    {
      assert InList(pending, fates, a);
    }
    forall t | t in fates'
      ensures OnList(pending, fates', t)
    {
      assert t != requests ==> OnList(pending, fates, t);
    }
  }

  lemma NewTicket(pending: Pending, clients: set<word>, fates: Fates, requests: nat, fate: Fate)
    requires Booked(pending, clients, fates, requests)
    ensures Settling(fates, fates[requests := fate])
  {
  }

  lemma AnswerBooks(pending: Pending, clients: set<word>, fates: Fates, requests: nat, a: string)
    requires Booked(pending, clients, fates, requests) && a in pending
    ensures var tickets := Tickets(pending[a]);
            && Booked(pending - {a}, clients, Decided(fates, tickets, Answered), requests)
            && (forall t <- tickets :: t in fates && fates[t] == Waiting(a))
  {
    var pending', fates' := pending - {a}, Decided(fates, Tickets(pending[a]), Answered);
    assert InList(pending, fates, a);
    forall x | x in pending'
      ensures ListOk(pending'[x], clients) && InList(pending', fates', x)
    {
      assert ListOk(pending[x], clients) && InList(pending, fates, x);
    }
    forall t | t in fates'
      ensures OnList(pending', fates', t)
    {
      assert OnList(pending, fates, t);
    }
  }

  // ---------- A client goes away ----------

  function RemoveIf(list: seq<Request>, c: word): seq<Request> {
    if list == [] then [] else (if list[0].client == c then [] else [list[0]]) + RemoveIf(list[1..], c)
  }

  function Mine(list: seq<Request>, c: word): set<nat> {
    set r | r in list && r.client == c :: r.ticket
  }

  // Request by request, and in order.
  lemma {:induction false} RemoveIfInOrder(a: seq<Request>, b: seq<Request>, c: word)
    ensures RemoveIf(a + b, c) == RemoveIf(a, c) + RemoveIf(b, c)
    ensures |a| == 1 ==> RemoveIf(a, c) == if a[0].client == c then [] else a
    decreases |a|
  {
    if a == [] {
      assert a + b == b;
    } else {
      var one := if a[0].client == c then [] else [a[0]];
      assert (a + b)[1..] == a[1..] + b;
      RemoveIfInOrder(a[1..], b, c);
      assert one + (RemoveIf(a[1..], c) + RemoveIf(b, c)) == one + RemoveIf(a[1..], c) + RemoveIf(b, c);
      if |a| == 1 {
        assert a[1..] == [] && a == [a[0]];
      }
    }
  }

  lemma {:induction false} RemoveIfMembers(list: seq<Request>, c: word)
    ensures forall r :: r in RemoveIf(list, c) <==> r in list && r.client != c
    ensures InTurn(list) ==> InTurn(RemoveIf(list, c))
  {
    if list != [] {
      var rest := list[1..];
      RemoveIfMembers(rest, c);
      assert list == [list[0]] + rest;
      if InTurn(list) {
        assert forall r <- rest :: list[0].ticket < r.ticket;
      }
    }
  }

  lemma OneOfATicket(list: seq<Request>, r: Request, s: Request)
    requires InTurn(list) && r in list && s in list && r.ticket == s.ticket
    ensures r == s
  {
  }

  lemma TicketsKept(list: seq<Request>, c: word)
    requires InTurn(list)
    ensures Tickets(RemoveIf(list, c)) == Tickets(list) - Mine(list, c)
  {
    RemoveIfMembers(list, c);
    forall t | t in Tickets(list)
      ensures t in Tickets(RemoveIf(list, c)) <==> t !in Mine(list, c)
    {
      var r :| r in list && r.ticket == t;
      if t in Mine(list, c) {
        var s :| s in list && s.client == c && s.ticket == t;
        if t in Tickets(RemoveIf(list, c)) {
          var s' :| s' in RemoveIf(list, c) && s'.ticket == t;
          OneOfATicket(list, s, s');
        }
      }
    }
  }

  // The lists with that of address a replaced, dropped if it became empty.
  function Replaced(pending: Pending, a: string, list: seq<Request>): Pending {
    if list == [] then pending - {a} else pending[a := list]
  }

  lemma CancelTraced(pending: Pending, fates: Fates, a: string, list: seq<Request>, gone: set<nat>)
    requires Traced(pending, fates) && a in pending
    requires Tickets(list) == Tickets(pending[a]) - gone && gone <= Tickets(pending[a])
    ensures Traced(Replaced(pending, a, list), Decided(fates, gone, Cancelled))
  {
    var pending', fates' := Replaced(pending, a, list), Decided(fates, gone, Cancelled);
    assert list == [] ==> Tickets(list) == {};
    assert InList(pending, fates, a);
    forall x | x in pending'
      ensures InList(pending', fates', x)
    {
      assert InList(pending, fates, x);
    }
    forall t | t in fates'
      ensures OnList(pending', fates', t)
    {
      assert OnList(pending, fates, t);
      assert fates'[t] == Waiting(a) ==> t in Tickets(list);
    }
  }

  // One address whose list loses c's requests.
  lemma CancelOne(pending: Pending, clients: set<word>, fates: Fates, requests: nat, a: string, c: word)
    requires Booked(pending, clients, fates, requests) && a in pending
    ensures var list := RemoveIf(pending[a], c);
            && Booked(Replaced(pending, a, list), clients, Decided(fates, Mine(pending[a], c), Cancelled), requests)
            && (forall r <- list :: r.client != c)
  {
    var list, mine := RemoveIf(pending[a], c), Mine(pending[a], c);
    assert ListOk(pending[a], clients);
    RemoveIfMembers(pending[a], c);
    TicketsKept(pending[a], c);
    assert mine <= Tickets(pending[a]);
    CancelTraced(pending, fates, a, list, mine);
  }

  lemma CancelSettles(pending: Pending, fates: Fates, a: string, c: word)
    requires Traced(pending, fates) && a in pending
    ensures Settling(fates, Decided(fates, Mine(pending[a], c), Cancelled))
  {
    assert InList(pending, fates, a);
    assert Mine(pending[a], c) <= Tickets(pending[a]);
  }

  lemma WithoutClient(pending: Pending, clients: set<word>, fates: Fates, requests: nat, c: word)
    requires Booked(pending, clients, fates, requests) && forall a <- pending, r <- pending[a] :: r.client != c
    ensures Booked(pending, clients - {c}, fates, requests)
  {
    forall a | a in pending
      ensures ListOk(pending[a], clients - {c})
    {
      assert ListOk(pending[a], clients);
    }
  }

  lemma WithClient(pending: Pending, clients: set<word>, fates: Fates, requests: nat, c: word)
    requires Booked(pending, clients, fates, requests)
    ensures Booked(pending, clients + {c}, fates, requests)
  {
    forall a | a in pending
      ensures ListOk(pending[a], clients + {c})
    {
      assert ListOk(pending[a], clients);
    }
  }

  lemma SettlingTwice(fates: Fates, fates': Fates, fates'': Fates)
    requires Settling(fates, fates') && Settling(fates', fates'')
    ensures Settling(fates, fates'')
  {
  }

  // A client's requests are gone from the lists, and empty lists with them, except at the addresses to do.
  ghost predicate Filtered(start: Pending, pending: Pending, todo: set<string>, c: word) {
    && (forall a :: a in pending <==> a in start && (a in todo || RemoveIf(start[a], c) != []))
    && forall a <- pending :: pending[a] == if a in todo then start[a] else RemoveIf(start[a], c)
  }

  lemma FilterStep(start: Pending, pending: Pending, todo: set<string>, a: string, c: word)
    requires Filtered(start, pending, todo, c) && a in todo && todo <= start.Keys
    ensures a in pending && Filtered(start, Replaced(pending, a, RemoveIf(pending[a], c)), todo - {a}, c)
  {
  }

  // One address more is done.
  lemma CancelMore(start: Pending, fate: Fates, pending: Pending, clients: set<word>, fates: Fates, requests: nat,
                   todo: set<string>, a: string, c: word)
    requires Booked(pending, clients, fates, requests) && Settling(fate, fates) && SameAnswered(fate, fates)
    requires Filtered(start, pending, todo, c) && a in todo && todo <= start.Keys
    ensures a in pending
    ensures var pending', fates' := Replaced(pending, a, RemoveIf(pending[a], c)),
                                    Decided(fates, Mine(pending[a], c), Cancelled);
            && Booked(pending', clients, fates', requests) && Settling(fate, fates') && SameAnswered(fate, fates')
            && Filtered(start, pending', todo - {a}, c)
  {
    FilterStep(start, pending, todo, a, c);
    CancelOne(pending, clients, fates, requests, a, c);
    CancelSettles(pending, fates, a, c);
    SettlingTwice(fate, fates, Decided(fates, Mine(pending[a], c), Cancelled));
  }

  ghost predicate SameAnswered(fates: Fates, fates': Fates) {
    forall t: nat :: (t in fates' && fates'[t] == Answered) <==> (t in fates && fates[t] == Answered)
  }
}
