/**
  The client broker of com/comclient.go. Its goroutines share one mutex, so a run is any
  interleaving of four kinds of step: send, response, tick and close.
 */
module Brokers {
  import opened Bytes
  import opened Queues

  type Channel = nat

  const OP_OK: byte := 200
  const OP_ERR: byte := 201
  const OP_RESPONSE: byte := 202

  datatype Result =
    | Answered(value: bytes)       // a response with a value
    | Acknowledged                 // an OK without a value
    | RemoteError(text: bytes)     // the server's error
    | InvalidCode(typ: byte)       // a response of unknown type
    | TimedOut(now: int)
    | ConnectionClosed

  /** What the requester gets for a response message. */
  function ResultOf(typ: byte, value: bytes): (r: Result)
    ensures !r.TimedOut? && !r.ConnectionClosed?
  {
    if typ == OP_RESPONSE then Answered(value)
    else if typ == OP_OK then Acknowledged
    else if typ == OP_ERR then RemoteError(value)
    else InvalidCode(typ)
  }

  /** A request that expects a reply. */
  datatype Request = Request(rch: Channel, deadline: int)

  /** A result put on a channel for a request. */
  datatype Delivery = Delivery(tid: nat, rch: Channel, result: Result)

  /** The waits table, the requests sent so far and the results delivered so far. */
  datatype Book = Book(waits: map<nat, Channel>, sent: map<nat, Request>, results: seq<Delivery>)

  /** How many results request `tid` has had. */
  function Count(ds: seq<Delivery>, tid: nat): nat {
    if ds == [] then 0
    else Count(ds[..|ds| - 1], tid) + if ds[|ds| - 1].tid == tid then 1 else 0
  }

  ghost predicate Sound(d: Delivery, sent: map<nat, Request>) {
    && d.tid in sent && d.rch == sent[d.tid].rch
    && (d.result.TimedOut? ==> d.result.now > sent[d.tid].deadline)
  }

  /**
    A waiting request has had no result and every other one exactly one, on its own
    channel; nobody is told of a timeout before its deadline.
   */
  ghost predicate Accounted(b: Book) {
    && (forall t :: t in b.waits ==> t in b.sent && b.waits[t] == b.sent[t].rch)
    && (forall t :: t in b.sent ==> Count(b.results, t) == if t in b.waits then 0 else 1)
    && (forall t :: t !in b.sent ==> Count(b.results, t) == 0)
    && (forall i :: 0 <= i < |b.results| ==> Sound(b.results[i], b.sent))
  }

  function Note(b: Book, tid: nat, rch: Channel, deadline: int): Book {
    b.(waits := b.waits[tid := rch], sent := b.sent[tid := Request(rch, deadline)])
  }

  lemma NoteAccounted(b: Book, tid: nat, rch: Channel, deadline: int)
    requires Accounted(b) && tid !in b.sent
    ensures Accounted(Note(b, tid, rch, deadline))
  {
  }

  /** Deliver a result if the request still waits, and forget it. */
  function Answer(b: Book, tid: nat, r: Result): Book {
    if tid in b.waits
    then b.(waits := b.waits - {tid}, results := b.results + [Delivery(tid, b.waits[tid], r)])
    else b
  }

  lemma CountSnoc(ds: seq<Delivery>, d: Delivery, tid: nat)
    ensures Count(ds + [d], tid) == Count(ds, tid) + if d.tid == tid then 1 else 0
  {
    assert (ds + [d])[..|ds|] == ds;
  }

  lemma AnswerAccounted(b: Book, tid: nat, r: Result)
    requires Accounted(b)
    requires r.TimedOut? && tid in b.sent ==> r.now > b.sent[tid].deadline
    ensures Accounted(Answer(b, tid, r))
  {
    if tid in b.waits {
      var d := Delivery(tid, b.waits[tid], r);
      forall t
        ensures Count(b.results + [d], t) == Count(b.results, t) + if tid == t then 1 else 0
      {
        CountSnoc(b.results, d, t);
      }
    }
  }

  function AnswerAll(b: Book, es: seq<Entry>, r: Result): Book {
    if es == [] then b
    else
      var n := |es| - 1;
      Answer(AnswerAll(b, es[..n], r), es[n].tid, r)
  }

  /** All deliveries beyond the old ones carry the result `r`. */
  ghost predicate OnlyAdds(ds: seq<Delivery>, ds': seq<Delivery>, r: Result) {
    forall i :: 0 <= i < |ds'| ==> ds'[i] in ds || ds'[i].result == r
  }

  lemma {:induction false} AnswerAllAdds(b: Book, es: seq<Entry>, r: Result)
    ensures OnlyAdds(b.results, AnswerAll(b, es, r).results, r)
  {
    if es != [] {
      AnswerAllAdds(b, es[..|es| - 1], r);
    }
  }

  /** Each queue entry carries the deadline of its request. */
  ghost predicate Dated(es: seq<Entry>, sent: map<nat, Request>) {
    forall i :: 0 <= i < |es| ==> es[i].tid in sent && es[i].t == sent[es[i].tid].deadline
  }

  /** Every waiting request is in the queue. */
  ghost predicate Queued(b: Book, es: seq<Entry>) {
    forall t :: t in b.waits ==> exists i :: 0 <= i < |es| && es[i].tid == t
  }

  lemma {:induction false} AnswerAllWaits(b: Book, es: seq<Entry>, r: Result, t: nat)
    ensures AnswerAll(b, es, r).sent == b.sent
    ensures t in AnswerAll(b, es, r).waits <==> t in b.waits && forall i :: 0 <= i < |es| ==> es[i].tid != t
  {
    if es != [] {
      var n := |es| - 1;
      AnswerAllWaits(b, es[..n], r, t);
      assert forall i :: 0 <= i < n ==> es[..n][i] == es[i];
    }
  }

  lemma {:induction false} AnswerAllKeeps(b: Book, es: seq<Entry>, r: Result)
    requires Accounted(b) && Dated(es, b.sent)
    requires r.TimedOut? ==> Expired(es, r.now)
    ensures Accounted(AnswerAll(b, es, r)) && AnswerAll(b, es, r).sent == b.sent
  {
    if es != [] {
      var n := |es| - 1;
      AnswerAllKeeps(b, es[..n], r);
      AnswerAccounted(AnswerAll(b, es[..n], r), es[n].tid, r);
    }
  }

  lemma AnswerAllAccounted(b: Book, es: seq<Entry>, r: Result)
    requires Accounted(b) && Dated(es, b.sent)
    requires r.TimedOut? ==> Expired(es, r.now)
    ensures var b' := AnswerAll(b, es, r);
      && Accounted(b') && b'.sent == b.sent
      && (forall t :: t in b'.waits <==> t in b.waits && forall i :: 0 <= i < |es| ==> es[i].tid != t)
  {
    AnswerAllKeeps(b, es, r);
    forall t
      ensures t in AnswerAll(b, es, r).waits <==> t in b.waits && forall i :: 0 <= i < |es| ==> es[i].tid != t
    {
      AnswerAllWaits(b, es, r, t);
    }
  }

  /** Whoever still waits after the removed entries were answered is among the others. */
  lemma StillQueued(b: Book, removed: seq<Entry>, rest: seq<Entry>, r: Result)
    requires Accounted(b) && Queued(b, removed + rest) && Dated(removed, b.sent)
    requires r.TimedOut? ==> Expired(removed, r.now)
    ensures Queued(AnswerAll(b, removed, r), rest)
  {
    var b' := AnswerAll(b, removed, r);
    AnswerAllAccounted(b, removed, r);
    forall t | t in b'.waits
      ensures exists i :: 0 <= i < |rest| && rest[i].tid == t
    {
      var i :| 0 <= i < |removed + rest| && (removed + rest)[i].tid == t;
      assert i >= |removed| && rest[i - |removed|].tid == t;
    }
  }

  /** The invariant of the broker, with identifiers below `next` in use. */
  ghost predicate Ledger(b: Book, es: seq<Entry>, next: nat) {
    && Accounted(b) && Dated(es, b.sent) && Queued(b, es)
    && forall t :: t in b.sent ==> t < next
  }

  /** Names a book whose ledger a proof wants to see; see `OpenBook`. */
  ghost predicate Audited(b: Book) {
    true
  }

  /** The same as `Ledger`, but instantiated only for audited books. */
  ghost predicate Balanced(b: Book, es: seq<Entry>, next: nat) {
    forall x: Book {:trigger Audited(x)} :: Audited(x) && x == b ==> Ledger(x, es, next)
  }

  lemma OpenBook(b: Book, es: seq<Entry>, next: nat)
    requires Balanced(b, es, next)
    ensures Ledger(b, es, next)
  {
    assert Audited(b);
  }

  lemma SendBalanced(b: Book, es: seq<Entry>, next: nat, rch: Channel, deadline: int)
    requires Balanced(b, es, next) && Sorted(es)
    ensures Balanced(Note(b, next, rch, deadline), Insert(es, Entry(deadline, next)), next + 1)
    ensures Balanced(b, es, next + 1)
  {
    OpenBook(b, es, next);
    NoteAccounted(b, next, rch, deadline);
    SendKeeps(b, es, next, rch, deadline);
  }

  lemma ResponseBalanced(b: Book, es: seq<Entry>, next: nat, id: nat, r: Result)
    requires Balanced(b, es, next) && !r.TimedOut?
    ensures Balanced(Answer(b, id, r), es, next)
  {
    OpenBook(b, es, next);
    AnswerAccounted(b, id, r);
    assert Ledger(Answer(b, id, r), es, next);
  }

  lemma TickBalanced(b: Book, removed: seq<Entry>, rest: seq<Entry>, next: nat, now: int)
    requires Balanced(b, removed + rest, next)
    requires Expired(removed, now) && Unexpired(rest, now)
    ensures var b' := AnswerAll(b, removed, TimedOut(now));
      && Balanced(b', rest, next) && b'.sent == b.sent
      && (forall t :: t in b.waits ==> t in b.sent)
      && (forall t :: t in b'.waits <==> t in b.waits && b.sent[t].deadline >= now)
  {
    OpenBook(b, removed + rest, next);
    TickKeeps(b, removed, rest, now);
    assert Ledger(AnswerAll(b, removed, TimedOut(now)), rest, next);
  }

  lemma CloseBalanced(b: Book, removed: seq<Entry>, next: nat)
    requires Balanced(b, removed, next)
    ensures var b' := AnswerAll(b, removed, ConnectionClosed);
      && Balanced(b', [], next) && b'.waits == map[] && b'.sent == b.sent
      && (forall t :: t in b.sent ==> Count(b'.results, t) == 1)
  {
    OpenBook(b, removed, next);
    assert removed + [] == removed;
    StillQueued(b, removed, [], ConnectionClosed);
    AnswerAllAccounted(b, removed, ConnectionClosed);
    assert Ledger(AnswerAll(b, removed, ConnectionClosed), [], next);
  }

  class Broker {
    const pq: Queue
    var waits: map<nat, Channel>
    var tid: nat
    var results: seq<Delivery>
    var closed: bool
    ghost var sent: map<nat, Request>

    ghost function State(): Book
      reads this
    {
      Book(waits, sent, results)
    }

    ghost predicate Valid()
      reads this, pq, pq.nodes
    {
      && pq.Valid() && tid < TWO_32
      && Balanced(State(), pq.es, tid)
      && (closed ==> waits == map[])
    }

    constructor ()
      ensures Valid() && fresh(pq) && pq.nodes == [] && sent == map[] && results == [] && tid == 0 && !closed
    {
      pq := new Queue();
      waits, tid, results, closed, sent := map[], 0, [], false, map[];
    }

    /**
      To world: a request with a timeout gets a queue entry and a place in the waits
      table; one without is only numbered. The identifier must not wrap around.
     */
    method Send(timeout: int, rch: Channel, now: int)
      requires Valid() && !closed && tid + 1 < TWO_32
      requires timeout > 0 ==> pq.es == [] || pq.es[0].t <= now + timeout
      modifies this, pq, pq.nodes
      ensures Valid() && tid == old(tid) + 1 && results == old(results) && !closed
      ensures sent == if timeout > 0 then old(sent)[old(tid) := Request(rch, now + timeout)] else old(sent)
      ensures waits == if timeout > 0 then old(waits)[old(tid) := rch] else old(waits)
      ensures forall n :: n in pq.nodes ==> n in old(pq.nodes) || fresh(n)
      ensures pq.es == if timeout > 0 then Insert(old(pq.es), Entry(now + timeout, old(tid))) else old(pq.es)
    {
      if timeout > 0 {
        Enqueue(rch, now + timeout);
      } else {
        SendBalanced(State(), pq.es, tid, rch, now);
      }
      Number();
    }

    /** The identifier of the next message. */
    method Number()
      requires pq.Valid() && Balanced(State(), pq.es, tid + 1) && tid + 1 < TWO_32 && (closed ==> waits == map[])
      modifies `tid
      ensures Valid() && tid == old(tid) + 1
    {
      tid := (tid + 1) % TWO_32;
    }

    method Enqueue(rch: Channel, deadline: int)
      requires Valid() && !closed
      requires pq.es == [] || pq.es[0].t <= deadline
      modifies `waits, `sent, pq, pq.nodes
      ensures pq.Valid() && Balanced(State(), pq.es, tid + 1)
      ensures State() == Note(old(State()), tid, rch, deadline)
      ensures pq.es == Insert(old(pq.es), Entry(deadline, tid))
      ensures forall n :: n in pq.nodes ==> n in old(pq.nodes) || fresh(n)
    {
      SendBalanced(State(), pq.es, tid, rch, deadline);
      var tm := new Node(deadline, tid);
      pq.Push(tm);
      waits := waits[tid := rch];
      sent := sent[tid := Request(rch, deadline)];
    }

    /** From world: a response to a request that no longer waits is dropped. */
    method Response(id: nat, typ: byte, value: bytes)
      requires Valid()
      modifies `waits, `results
      ensures Valid() && State() == Answer(old(State()), id, ResultOf(typ, value))
    {
      ResponseBalanced(State(), pq.es, tid, id, ResultOf(typ, value));
      if id in waits {
        results := results + [Delivery(id, waits[id], ResultOf(typ, value))];
        waits := waits - {id};
      }
    }

    /** The callback of clean and forall, over the entries they remove. */
    method Notify(removed: seq<Entry>, r: Result)
      modifies `waits, `results
      ensures State() == AnswerAll(old(State()), removed, r)
    {
      for i := 0 to |removed|
        invariant State() == AnswerAll(old(State()), removed[..i], r)
      {
        assert removed[..i + 1][..i] == removed[..i];
        var t := removed[i].tid;
        if t in waits {
          results := results + [Delivery(t, waits[t], r)];
          waits := waits - {t};
        }
      }
      assert removed[..|removed|] == removed;
    }

    /** A tick answers the waiters whose deadline has passed, and leaves no such waiter. */
    method Tick(now: int)
      requires Valid()
      modifies this, pq, pq.nodes
      ensures Valid() && sent == old(sent) && tid == old(tid) && closed == old(closed)
      ensures OnlyAdds(old(results), results, TimedOut(now))
      ensures forall t :: t in old(waits) ==> t in sent
      ensures forall t :: t in waits <==> t in old(waits) && sent[t].deadline >= now
      ensures forall n :: n in pq.nodes ==> n in old(pq.nodes)
      ensures pq.es == Remaining(old(pq.es), now)
    {
      var removed := pq.Clean(now);
      RemainingIs(removed, pq.es, now);
      TickBalanced(State(), removed, pq.es, tid, now);
      AnswerAllAdds(State(), removed, TimedOut(now));
      Notify(removed, TimedOut(now));
    }

    /** Close answers everybody who still waits. */
    method Close()
      requires Valid() && !closed
      modifies this, pq, pq.nodes
      ensures Valid() && closed && waits == map[] && sent == old(sent) && tid == old(tid)
      ensures forall t :: t in sent ==> Count(results, t) == 1
      ensures OnlyAdds(old(results), results, ConnectionClosed)
      ensures pq.es == [] && pq.nodes == []
    {
      var removed := pq.Drain();
      CloseBalanced(State(), removed, tid);
      AnswerAllAdds(State(), removed, ConnectionClosed);
      Notify(removed, ConnectionClosed);
      closed := true;
    }
  }

  lemma SendKeeps(b: Book, es: seq<Entry>, tid: nat, rch: Channel, deadline: int)
    requires Accounted(b) && Dated(es, b.sent) && Queued(b, es) && tid !in b.sent && Sorted(es)
    ensures var es', b' := Insert(es, Entry(deadline, tid)), Note(b, tid, rch, deadline);
      Dated(es', b'.sent) && Queued(b', es')
  {
    var e := Entry(deadline, tid);
    var es', b' := Insert(es, e), Note(b, tid, rch, deadline);
    InsertSorted(es, e);
    forall i | 0 <= i < |es'|
      ensures es'[i].tid in b'.sent && es'[i].t == b'.sent[es'[i].tid].deadline
    {
      assert es'[i] in es';
    }
    forall t | t in b'.waits
      ensures exists i :: 0 <= i < |es'| && es'[i].tid == t
    {
      if t == tid {
        assert e in es';
      } else {
        var i :| 0 <= i < |es| && es[i].tid == t;
        assert es[i] in es';
      }
    }
  }

  lemma TickKeeps(b: Book, removed: seq<Entry>, rest: seq<Entry>, now: int)
    requires Accounted(b) && Dated(removed + rest, b.sent) && Queued(b, removed + rest)
    requires Expired(removed, now) && Unexpired(rest, now)
    ensures var b' := AnswerAll(b, removed, TimedOut(now));
      && Accounted(b') && b'.sent == b.sent && Dated(rest, b.sent) && Queued(b', rest)
      && (forall t :: t in b'.waits <==> t in b.waits && b.sent[t].deadline >= now)
  {
    var b' := AnswerAll(b, removed, TimedOut(now));
    var all := removed + rest;
    assert forall i :: 0 <= i < |removed| ==> all[i] == removed[i];
    assert forall i :: 0 <= i < |rest| ==> all[|removed| + i] == rest[i];
    AnswerAllAccounted(b, removed, TimedOut(now));
    StillQueued(b, removed, rest, TimedOut(now));
    forall t | t in b'.waits
      ensures b.sent[t].deadline >= now
    {
      var i :| 0 <= i < |rest| && rest[i].tid == t;
    }
  }

  // ------------------------------------------------------------ whole runs

  /** A send with a timeout of 0 or less expects no reply. */
  datatype Event =
    | SendEvent(timeout: int, rch: Channel, at: int)
    | ResponseEvent(id: nat, typ: byte, value: bytes)
    | TickEvent(at: int)
    | CloseEvent

  /** The identifier that the next send gets: requests without reply are numbered too. */
  function NextTid(events: seq<Event>): nat {
    if events == [] then 0
    else NextTid(events[..|events| - 1]) + if events[|events| - 1].SendEvent? then 1 else 0
  }

  predicate Closed(events: seq<Event>) {
    CloseEvent in events
  }

  /** The requests that expect a reply, by identifier. */
  function Requests(events: seq<Event>): map<nat, Request> {
    if events == [] then map[]
    else
      var before, e := events[..|events| - 1], events[|events| - 1];
      if e.SendEvent? && e.timeout > 0
      then Requests(before)[NextTid(before) := Request(e.rch, e.at + e.timeout)]
      else Requests(before)
  }

  /** The deadlines that are queued. */
  function QueueAfter(events: seq<Event>): seq<Entry> {
    if events == [] then []
    else
      var before, e := events[..|events| - 1], events[|events| - 1];
      match e
      case SendEvent(timeout, _, at) =>
        if timeout > 0 then Insert(QueueAfter(before), Entry(at + timeout, NextTid(before))) else QueueAfter(before)
      case ResponseEvent(_, _, _) => QueueAfter(before)
      case TickEvent(at) => Remaining(QueueAfter(before), at)
      case CloseEvent => []
  }

  /**
    What may come next. The send channel is closed once and not used afterwards, while
    responses and ticks still come; identifiers do not wrap around; and a deadline is not
    before the head of the queue, the exact condition under which `push` works.
   */
  predicate Possible(before: seq<Event>, e: Event) {
    match e
    case SendEvent(timeout, _, at) =>
      && !Closed(before) && NextTid(before) + 1 < TWO_32
      && (timeout > 0 ==> QueueAfter(before) == [] || QueueAfter(before)[0].t <= at + timeout)
    case ResponseEvent(_, _, _) => true
    case TickEvent(_) => true
    case CloseEvent => !Closed(before)
  }

  /** A queued deadline stems from a send. */
  ghost predicate SentFor(e: Event, x: Entry) {
    e.SendEvent? && e.timeout > 0 && x.t == e.at + e.timeout
  }

  lemma {:induction false} QueuedBySend(events: seq<Event>, x: Entry)
    requires x in QueueAfter(events)
    ensures exists j :: 0 <= j < |events| && SentFor(events[j], x)
  {
    var n := |events| - 1;
    var before, e := events[..n], events[n];
    if SentFor(e, x) {
      return;
    }
    if e.SendEvent? && e.timeout > 0 {
      InsertMember(QueueAfter(before), Entry(e.at + e.timeout, NextTid(before)), x);
    } else if e.TickEvent? {
      RemainingMember(QueueAfter(before), e.at, x);
    }
    QueuedBySend(before, x);
    var j :| 0 <= j < |before| && SentFor(before[j], x);
    assert events[j] == before[j];
  }

  /** The condition on the deadline holds while clocks do not go back and timeouts do not shrink. */
  lemma GrowingTimeoutsFit(events: seq<Event>, i: nat)
    requires i < |events| && events[i].SendEvent?
    requires forall j :: 0 <= j < i && events[j].SendEvent? ==>
      events[j].at <= events[i].at && events[j].timeout <= events[i].timeout
    ensures var q := QueueAfter(events[..i]); q == [] || q[0].t <= events[i].at + events[i].timeout
  {
    var q := QueueAfter(events[..i]);
    if q != [] {
      QueuedBySend(events[..i], q[0]);
      var j :| 0 <= j < i && SentFor(events[..i][j], q[0]);
      assert events[j] == events[..i][j];
    }
  }

  /** A result is what some response to the request said, a timeout of some tick, or a close. */
  ghost predicate Genuine(d: Delivery, events: seq<Event>) {
    exists i :: 0 <= i < |events| && Causes(events[i], d)
  }

  ghost predicate Causes(e: Event, d: Delivery) {
    match e
    case SendEvent(_, _, _) => false
    case ResponseEvent(id, typ, value) => id == d.tid && d.result == ResultOf(typ, value)
    case TickEvent(at) => d.result == TimedOut(at)
    case CloseEvent => d.result == ConnectionClosed
  }

  ghost predicate Responded(events: seq<Event>, id: nat, typ: byte, value: bytes) {
    exists i :: 0 <= i < |events| && events[i] == ResponseEvent(id, typ, value)
  }

  /** What a result says about the events, by the numbers of the protocol. */
  ghost predicate Explained(d: Delivery, events: seq<Event>) {
    match d.result
    case Acknowledged => exists x :: Responded(events, d.tid, 200, x)
    case RemoteError(x) => Responded(events, d.tid, 201, x)
    case Answered(x) => Responded(events, d.tid, 202, x)
    case InvalidCode(typ) => (typ < 200 || typ > 202) && exists x :: Responded(events, d.tid, typ, x)
    case TimedOut(now) => TickEvent(now) in events
    case ConnectionClosed => CloseEvent in events
  }

  lemma GenuineIsExplained(d: Delivery, events: seq<Event>)
    requires Genuine(d, events)
    ensures Explained(d, events)
  {
    var i :| 0 <= i < |events| && Causes(events[i], d);
    if events[i].ResponseEvent? {
      assert Responded(events, d.tid, events[i].typ, events[i].value);
    }
  }

  lemma AllExplained(ds: seq<Delivery>, events: seq<Event>)
    requires AllGenuine(ds, events)
    ensures forall i :: 0 <= i < |ds| ==> Explained(ds[i], events)
  {
    forall i | 0 <= i < |ds|
      ensures Explained(ds[i], events)
    {
      GenuineIsExplained(ds[i], events);
    }
  }

  /** The requests by what was sent: a request waits under the number of its send, if it has a timeout. */
  ghost predicate RequestedBy(events: seq<Event>, i: nat, t: nat, r: Request) {
    && i < |events| && events[i].SendEvent? && events[i].timeout > 0
    && t == NextTid(events[..i]) && r == Request(events[i].rch, events[i].at + events[i].timeout)
  }

  lemma {:induction false} NumbersGrow(events: seq<Event>, i: nat)
    requires i < |events|
    ensures NextTid(events[..i]) + (if events[i].SendEvent? then 1 else 0) <= NextTid(events)
  {
    var n := |events| - 1;
    if i < n {
      NumbersGrow(events[..n], i);
      assert events[..n][..i] == events[..i];
    }
  }

  /** Exactly the sends with a timeout are requests, each under its own number. */
  lemma {:induction false} RequestsExact(events: seq<Event>, t: nat, r: Request)
    ensures t in Requests(events) && Requests(events)[t] == r <==> exists i :: RequestedBy(events, i, t, r)
  {
    if events != [] {
      var n := |events| - 1;
      RequestsExact(events[..n], t, r);
      if i: nat :| RequestedBy(events, i, t, r) {
        if i < n {
          NumbersGrow(events[..n], i);
          assert events[..n][..i] == events[..i];
          assert RequestedBy(events[..n], i, t, r);
        }
      }
      if i: nat :| RequestedBy(events[..n], i, t, r) {
        NumbersGrow(events[..n], i);
        assert events[..n][..i] == events[..i];
        assert RequestedBy(events, i, t, r);
      }
      if t in Requests(events) && Requests(events)[t] == r && !(t in Requests(events[..n]) && Requests(events[..n])[t] == r) {
        assert RequestedBy(events, n, t, r);
      }
    }
  }

  ghost predicate AllGenuine(ds: seq<Delivery>, events: seq<Event>) {
    forall i :: 0 <= i < |ds| ==> Genuine(ds[i], events)
  }

  lemma GenuineStep(ds: seq<Delivery>, ds': seq<Delivery>, events: seq<Event>, e: Event)
    requires AllGenuine(ds, events)
    requires forall i :: 0 <= i < |ds'| ==> ds'[i] in ds || Causes(e, ds'[i])
    ensures AllGenuine(ds', events + [e])
  {
    forall i | 0 <= i < |ds'|
      ensures Genuine(ds'[i], events + [e])
    {
      var all := events + [e];
      if ds'[i] in ds {
        assert Genuine(ds'[i], events);
        var k :| 0 <= k < |events| && Causes(events[k], ds'[i]);
        assert all[k] == events[k];
      } else {
        assert all[|events|] == e;
      }
    }
  }

  /** The broker is where the events so far lead. */
  ghost predicate Follows(b: Broker, events: seq<Event>)
    reads b, b.pq, b.pq.nodes
  {
    && b.Valid() && b.tid == NextTid(events) && b.closed == Closed(events)
    && b.sent == Requests(events) && b.pq.es == QueueAfter(events)
    && AllGenuine(b.results, events)
  }

  /** One event. */
  method Handle(b: Broker, ev: Event)
    requires b.Valid() && (ev.SendEvent? || ev.CloseEvent? ==> !b.closed)
    requires ev.SendEvent? ==> b.tid + 1 < TWO_32
    requires ev.SendEvent? && ev.timeout > 0 ==> b.pq.es == [] || b.pq.es[0].t <= ev.at + ev.timeout
    modifies b, b.pq, b.pq.nodes
    ensures b.Valid() && b.closed == (old(b.closed) || ev.CloseEvent?)
    ensures b.tid == old(b.tid) + if ev.SendEvent? then 1 else 0
    ensures b.sent == if ev.SendEvent? && ev.timeout > 0
      then old(b.sent)[old(b.tid) := Request(ev.rch, ev.at + ev.timeout)] else old(b.sent)
    ensures b.pq.es ==
      match ev
      case SendEvent(timeout, _, at) =>
        (if timeout > 0 then Insert(old(b.pq.es), Entry(at + timeout, old(b.tid))) else old(b.pq.es))
      case ResponseEvent(_, _, _) => old(b.pq.es)
      case TickEvent(at) => Remaining(old(b.pq.es), at)
      case CloseEvent => []
    ensures forall i :: 0 <= i < |b.results| ==> b.results[i] in old(b.results) || Causes(ev, b.results[i])
    ensures forall n :: n in b.pq.nodes ==> n in old(b.pq.nodes) || fresh(n)
  {
    match ev
    case SendEvent(timeout, rch, at) => b.Send(timeout, rch, at);
    case ResponseEvent(id, typ, value) => b.Response(id, typ, value);
    case TickEvent(at) => b.Tick(at);
    case CloseEvent => b.Close();
  }

  lemma Snoc(events: seq<Event>, e: Event)
    ensures (events + [e])[..|events|] == events && (events + [e])[|events|] == e
    ensures Closed(events + [e]) <==> Closed(events) || e == CloseEvent
  {
  }

  method Advance(b: Broker, ev: Event, ghost before: seq<Event>)
    requires Follows(b, before) && Possible(before, ev)
    modifies b, b.pq, b.pq.nodes
    ensures Follows(b, before + [ev])
    ensures forall n :: n in b.pq.nodes ==> n in old(b.pq.nodes) || fresh(n)
  {
    ghost var ds := b.results;
    Snoc(before, ev);
    Handle(b, ev);
    GenuineStep(ds, b.results, before, ev);
  }

  /**
    Any interleaving of sends with their own timeouts, responses, ticks and a close, also
    of responses and ticks after the close. A request that expects a reply has had one
    result or still waits; after a close nobody waits. Results come on the request's own
    channel, a timeout never before the deadline, and each has its cause among the events.
   */
  method RunBroker(events: seq<Event>) returns (b: Broker)
    requires forall i :: 0 <= i < |events| ==> Possible(events[..i], events[i])
    ensures b.sent == Requests(events) && b.closed == Closed(events)
    ensures forall t :: t in b.sent ==> Count(b.results, t) == if t in b.waits then 0 else 1
    ensures b.closed ==> b.waits == map[]
    ensures forall t :: t !in b.sent ==> Count(b.results, t) == 0
    ensures forall t :: t in b.waits ==> exists i :: 0 <= i < |b.pq.es| && b.pq.es[i].tid == t
    ensures b.pq.es == QueueAfter(events)
    ensures forall i :: 0 <= i < |b.results| ==> Sound(b.results[i], b.sent)
    ensures AllGenuine(b.results, events)
    ensures forall i :: 0 <= i < |b.results| ==> Explained(b.results[i], events)
  {
    b := new Broker();
    for i := 0 to |events|
      invariant fresh(b) && fresh(b.pq) && forall j :: 0 <= j < |b.pq.nodes| ==> fresh(b.pq.nodes[j])
      invariant Follows(b, events[..i])
    {
      ghost var ns := b.pq.nodes;
      Advance(b, events[i], events[..i]);
      assert events[..i + 1] == events[..i] + [events[i]];
      forall j | 0 <= j < |b.pq.nodes|
        ensures fresh(b.pq.nodes[j])
      {
        assert b.pq.nodes[j] in b.pq.nodes;
        if b.pq.nodes[j] in ns {
          var k :| 0 <= k < |ns| && ns[k] == b.pq.nodes[j];
        }
      }
    }
    assert events[..|events|] == events;
    AllExplained(b.results, events);
    OpenBook(b.State(), b.pq.es, b.tid);
  }
}
