/**
 The asynchronous logger (Async, startLogger, writeMsg, flush and Flush of logs/gon_logger.go)
 as a machine whose goroutines take turns at every channel, pool and WaitGroup operation.

 Any number of goroutines log messages; at most one is inside Flush.
 */
module AsyncLog {
  import opened Text

  /** A LogMsg object; what it holds is in `content`. */
  type Obj = nat

  type Msg = string

  /** The goroutine of startLogger: `flushing` tells whether it took the message inside flush. */
  datatype Consumer = Selecting | Took(o: Obj, flushing: bool) | Wrote(o: Obj, flushing: bool) | Draining | Drained

  datatype Flusher = Quiet | Sending | Waiting | Adding

  datatype State = State(
    /** `msgChan` */
    queue: seq<Obj>,
    /** Whether `signalChan` holds a signal. */
    signal: bool,
    wg: int,
    pool: set<Obj>,
    content: map<Obj, Msg>,
    /** Messages whose writer has not yet copied them, and those it is about to send. */
    making: set<Obj>,
    sending: set<Obj>,
    consumer: Consumer,
    flusher: Flusher,
    /** What went into the queue and what came out at the outputs, with the contents of that moment. */
    enqueued: seq<Msg>,
    written: seq<Msg>,
    /** What had been enqueued when the current Flush was called. */
    mark: seq<Msg>)

  datatype Event =
    | Make(o: Obj, m: Msg) | Copy(o: Obj, copy: Obj) | Enqueue(o: Obj)
    | Take | Write | Put | Signalled | Empty | Done
    | Call | Send | Wake | Return
    | Forget(o: Obj)

  const START := State([], false, 1, {}, map[], {}, {}, Selecting, Quiet, [], [], [])

  function Holds(content: map<Obj, Msg>, o: Obj): Msg
  {
    if o in content then content[o] else ""
  }

  function AllHold(content: map<Obj, Msg>, os: seq<Obj>): seq<Msg>
  {
    seq(|os|, i requires 0 <= i < |os| => Holds(content, os[i]))
  }

  /** Whether the step can be taken; `capacity` is that of the queue. */
  predicate Enabled(capacity: nat, s: State, e: Event)
  {
    match e
    case Make(o, _) => o !in s.content
    case Copy(o, copy) => o in s.making && (copy in s.pool || copy !in s.content)
    case Enqueue(o) => o in s.sending && |s.queue| < capacity
    case Take => (s.consumer.Selecting? || s.consumer.Draining?) && s.queue != []
    case Write => s.consumer.Took?
    case Put => s.consumer.Wrote?
    case Signalled => s.consumer.Selecting? && s.signal
    case Empty => s.consumer.Draining? && s.queue == []
    case Done => s.consumer.Drained?
    case Call => s.flusher.Quiet?
    case Send => s.flusher.Sending? && !s.signal
    case Wake => s.flusher.Waiting? && s.wg == 0
    case Return => s.flusher.Adding?
    case Forget(o) => o in s.pool
  }

  function Next(capacity: nat, s: State, e: Event): State
    requires Enabled(capacity, s, e)
  {
    match e
    case Make(o, m) => s.(content := s.content[o := m], making := s.making + {o})
    case Copy(o, copy) =>
      s.(pool := s.pool - {copy}, content := s.content[copy := Holds(s.content, o)],
         making := s.making - {o}, sending := s.sending + {o})
    case Enqueue(o) =>
      s.(queue := s.queue + [o], sending := s.sending - {o}, enqueued := s.enqueued + [Holds(s.content, o)])
    case Take => s.(queue := s.queue[1..], consumer := Took(s.queue[0], s.consumer.Draining?))
    case Write =>
      s.(written := s.written + [Holds(s.content, s.consumer.o)], consumer := Wrote(s.consumer.o, s.consumer.flushing))
    case Put => s.(pool := s.pool + {s.consumer.o}, consumer := if s.consumer.flushing then Draining else Selecting)
    case Signalled => s.(signal := false, consumer := Draining)
    case Empty => s.(consumer := Drained)
    case Done => s.(wg := s.wg - 1, consumer := Selecting)
    case Call => s.(flusher := Sending, mark := s.enqueued)
    case Send => s.(signal := true, flusher := Waiting)
    case Wake => s.(flusher := Adding)
    case Return => s.(wg := s.wg + 1, flusher := Quiet)
    case Forget(o) => s.(pool := s.pool - {o})
  }

  // ---------------------------------------------------------------- what every step keeps

  function InFlight(s: State): seq<Obj>
  {
    if s.consumer.Took? then [s.consumer.o] else []
  }

  /** What is written, in flight and queued is what was enqueued, in order. */
  predicate Ordered(s: State)
  {
    s.written + AllHold(s.content, InFlight(s)) + AllHold(s.content, s.queue) == s.enqueued
  }

  function Held(s: State): set<Obj>
  {
    if s.consumer.Took? || s.consumer.Wrote? then {s.consumer.o} else {}
  }

  /** No object has two owners: the pool, the queue, the consumer, or the writer that made it. */
  ghost predicate Owned(s: State)
  {
    (forall i, j :: 0 <= i < j < |s.queue| ==> s.queue[i] != s.queue[j]) &&
    (forall o :: o in s.queue ==> o !in s.pool && o !in s.making && o !in s.sending && o !in Held(s)) &&
    Held(s) !! s.pool !! s.making !! s.sending &&
    (forall o :: o in s.queue || o in s.pool || o in s.making || o in s.sending || o in Held(s) ==> o in s.content)
  }

  predicate InFlush(c: Consumer)
  {
    c.Draining? || c.Drained? || ((c.Took? || c.Wrote?) && c.flushing)
  }

  /** Where the signal of a Flush is: to be sent, in the channel, being served, or served. */
  predicate Signals(s: State)
  {
    match s.flusher
    case Quiet => !s.signal && !InFlush(s.consumer) && s.wg == 1
    case Sending => !s.signal && !InFlush(s.consumer) && s.wg == 1
    case Waiting => !(s.signal && InFlush(s.consumer)) && s.wg == if s.signal || InFlush(s.consumer) then 1 else 0
    case Adding => !s.signal && !InFlush(s.consumer) && s.wg == 0
  }

  /** Once a Flush has been served, all that had been enqueued when it was called is written. */
  predicate Barrier(s: State)
  {
    (!s.flusher.Quiet? ==> s.mark <= s.enqueued) &&
    (s.consumer.Drained? || s.wg == 0 ==> s.mark <= s.written)
  }

  ghost predicate Inv(capacity: nat, s: State)
  {
    Ordered(s) && Owned(s) && Signals(s) && Barrier(s) && |s.queue| <= capacity
  }

  lemma HoldsElsewhere(content: map<Obj, Msg>, os: seq<Obj>, o: Obj, m: Msg)
    requires o !in os
    ensures AllHold(content[o := m], os) == AllHold(content, os)
  {
  }

  lemma OrderedKept(capacity: nat, s: State, e: Event)
    requires Inv(capacity, s) && Enabled(capacity, s, e)
    ensures Ordered(Next(capacity, s, e))
  {
    match e {
      case Make(o, m) =>
        HoldsElsewhere(s.content, s.queue, o, m);
        HoldsElsewhere(s.content, InFlight(s), o, m);
      case Copy(o, copy) =>
        HoldsElsewhere(s.content, s.queue, copy, Holds(s.content, o));
        HoldsElsewhere(s.content, InFlight(s), copy, Holds(s.content, o));
      case Enqueue(o) => EnqueueOrdered(capacity, s, o);
      case Take => TakeOrdered(capacity, s);
      case Write => WriteOrdered(capacity, s);
      case _ =>
    }
  }

  lemma EnqueueOrdered(capacity: nat, s: State, o: Obj)
    requires Ordered(s) && Enabled(capacity, s, Enqueue(o))
    ensures Ordered(Next(capacity, s, Enqueue(o)))
  {
    var out := s.written + AllHold(s.content, InFlight(s));
    assert AllHold(s.content, s.queue + [o]) == AllHold(s.content, s.queue) + [Holds(s.content, o)];
    Assoc(out, AllHold(s.content, s.queue), [Holds(s.content, o)]);
  }

  lemma TakeOrdered(capacity: nat, s: State)
    requires Ordered(s) && Enabled(capacity, s, Take)
    ensures Ordered(Next(capacity, s, Take))
  {
    var first, rest := AllHold(s.content, [s.queue[0]]), AllHold(s.content, s.queue[1..]);
    assert AllHold(s.content, s.queue) == first + rest;
    assert s.written + [] == s.written;
    Assoc(s.written, first, rest);
  }

  lemma WriteOrdered(capacity: nat, s: State)
    requires Ordered(s) && Enabled(capacity, s, Write)
    ensures Ordered(Next(capacity, s, Write))
  {
    var w := [Holds(s.content, s.consumer.o)];
    assert AllHold(s.content, [s.consumer.o]) == w;
    assert (s.written + w) + [] == s.written + w;
  }

  lemma OwnedKept(capacity: nat, s: State, e: Event)
    requires Inv(capacity, s) && Enabled(capacity, s, e)
    ensures Owned(Next(capacity, s, e))
  {
    match e {
      case Make(o, m) => MakeOwned(capacity, s, o, m);
      case Copy(o, copy) => CopyOwned(capacity, s, o, copy);
      case Enqueue(o) => EnqueueOwned(capacity, s, o);
      case Take => TakeOwned(capacity, s);
      case Put => PutOwned(capacity, s);
      case Forget(o) => ForgetOwned(capacity, s, o);
      case _ => OwnedElsewhere(s, Next(capacity, s, e));
    }
  }

  lemma MakeOwned(capacity: nat, s: State, o: Obj, m: Msg)
    requires Owned(s) && Enabled(capacity, s, Make(o, m))
    ensures Owned(Next(capacity, s, Make(o, m)))
  {
  }

  lemma CopyOwned(capacity: nat, s: State, o: Obj, copy: Obj)
    requires Owned(s) && Enabled(capacity, s, Copy(o, copy))
    ensures Owned(Next(capacity, s, Copy(o, copy)))
  {
  }

  lemma EnqueueOwned(capacity: nat, s: State, o: Obj)
    requires Owned(s) && Enabled(capacity, s, Enqueue(o))
    ensures Owned(Next(capacity, s, Enqueue(o)))
  {
  }

  lemma TakeOwned(capacity: nat, s: State)
    requires Owned(s) && Enabled(capacity, s, Take)
    ensures Owned(Next(capacity, s, Take))
  {
  }

  lemma PutOwned(capacity: nat, s: State)
    requires Owned(s) && Enabled(capacity, s, Put)
    ensures Owned(Next(capacity, s, Put))
  {
  }

  lemma ForgetOwned(capacity: nat, s: State, o: Obj)
    requires Owned(s) && Enabled(capacity, s, Forget(o))
    ensures Owned(Next(capacity, s, Forget(o)))
  {
  }

  /** The other steps leave all objects where they are. */
  lemma OwnedElsewhere(s: State, t: State)
    requires Owned(s) && t.queue == s.queue && t.pool == s.pool && t.content == s.content
    requires t.making == s.making && t.sending == s.sending && Held(t) == Held(s)
    ensures Owned(t)
  {
  }

  lemma BarrierKept(capacity: nat, s: State, e: Event)
    requires Inv(capacity, s) && Enabled(capacity, s, e)
    ensures Signals(Next(capacity, s, e)) && Barrier(Next(capacity, s, e))
  {
  }

  lemma StepKeepsInv(capacity: nat, s: State, e: Event)
    requires Inv(capacity, s) && Enabled(capacity, s, e)
    ensures Inv(capacity, Next(capacity, s, e))
  {
    OrderedKept(capacity, s, e);
    OwnedKept(capacity, s, e);
    BarrierKept(capacity, s, e);
  }

  // ---------------------------------------------------------------- runs

  /** The state after the events of a run. */
  ghost predicate Runs(capacity: nat, s: State, events: seq<Event>, s': State)
    decreases |events|
  {
    if events == [] then s' == s
    else Enabled(capacity, s, events[0]) && Runs(capacity, Next(capacity, s, events[0]), events[1..], s')
  }

  /** Every step of every run keeps the order, the owners, the counter and the barrier. */
  lemma {:induction false} RunKeepsInv(capacity: nat, s: State, events: seq<Event>, s': State)
    requires Inv(capacity, s) && Runs(capacity, s, events, s')
    ensures Inv(capacity, s')
    decreases |events|
  {
    if events != [] {
      StepKeepsInv(capacity, s, events[0]);
      RunKeepsInv(capacity, Next(capacity, s, events[0]), events[1..], s');
    }
  }

  /** What holds after any run of the logger. */
  lemma AfterAnyRun(capacity: nat, events: seq<Event>, s: State)
    requires Runs(capacity, START, events, s)
    ensures Inv(capacity, s)
    ensures s.written <= s.enqueued && |s.queue| <= capacity && 0 <= s.wg <= 1
    ensures forall o :: o in s.queue ==> o !in s.pool
  {
    RunKeepsInv(capacity, START, events, s);
  }

  // ---------------------------------------------------------------- the messages themselves

  function LoggedBy(e: Event): seq<Msg>
  {
    if e.Make? then [e.m] else []
  }

  /** The messages logged in a run, in the order of their `Make` events. */
  function Logged(events: seq<Event>): seq<Msg>
  {
    if events == [] then [] else LoggedBy(events[0]) + Logged(events[1..])
  }

  /** For each object put into the queue, in order, the message it had been made with by then. */
  function SentAs(made: map<Obj, Msg>, events: seq<Event>): seq<Msg>
    decreases |events|
  {
    if events == [] then []
    else
      match events[0]
      case Make(o, m) => SentAs(made[o := m], events[1..])
      case Enqueue(o) => [Holds(made, o)] + SentAs(made, events[1..])
      case _ => SentAs(made, events[1..])
  }

  /** Objects on their way to the queue hold what they were made with. */
  ghost predicate Faithful(s: State, made: map<Obj, Msg>)
  {
    forall o :: o in s.making || o in s.sending ==> Holds(s.content, o) == Holds(made, o)
  }

  lemma FaithfulStep(capacity: nat, s: State, made: map<Obj, Msg>, e: Event)
    requires Inv(capacity, s) && Enabled(capacity, s, e) && Faithful(s, made)
    ensures Faithful(Next(capacity, s, e), if e.Make? then made[e.o := e.m] else made)
  {
  }

  /** Each object is enqueued with the message it was made with, whatever happens in between. */
  lemma {:induction false} EnqueuedAsMade(capacity: nat, s: State, made: map<Obj, Msg>, events: seq<Event>, s': State)
    requires Inv(capacity, s) && Faithful(s, made) && Runs(capacity, s, events, s')
    ensures s'.enqueued == s.enqueued + SentAs(made, events)
    decreases |events|
  {
    if events == [] {
      assert s.enqueued + [] == s.enqueued;
    } else {
      var e, t := events[0], Next(capacity, s, events[0]);
      var made' := if e.Make? then made[e.o := e.m] else made;
      StepKeepsInv(capacity, s, e);
      FaithfulStep(capacity, s, made, e);
      EnqueuedAsMade(capacity, t, made', events[1..], s');
      if e.Enqueue? {
        Assoc(s.enqueued, [Holds(made, e.o)], SentAs(made, events[1..]));
      }
    }
  }

  /** Lists the objects whose messages are on their way to the queue, each once. */
  ghost predicate Lists(order: seq<Obj>, s: State)
  {
    && (forall o :: o in order <==> o in s.making || o in s.sending)
    && (forall i, j :: 0 <= i < j < |order| ==> order[i] != order[j])
  }

  /** The messages that have been enqueued or are on their way. */
  function Kept(s: State, order: seq<Obj>): multiset<Msg>
  {
    multiset(s.enqueued) + multiset(AllHold(s.content, order))
  }

  lemma MakeKept(capacity: nat, s: State, o: Obj, m: Msg, order: seq<Obj>)
    requires Inv(capacity, s) && Enabled(capacity, s, Make(o, m)) && Lists(order, s)
    ensures Lists(order + [o], Next(capacity, s, Make(o, m)))
    ensures Kept(Next(capacity, s, Make(o, m)), order + [o]) == Kept(s, order) + multiset{m}
  {
    assert o !in order;
    HoldsElsewhere(s.content, order, o, m);
    OneMore(s.content[o := m], order, o);
    assert Kept(Next(capacity, s, Make(o, m)), order + [o]) ==
           multiset(s.enqueued) + multiset(AllHold(s.content, order) + [m]);
  }

  lemma OneMore(content: map<Obj, Msg>, order: seq<Obj>, o: Obj)
    ensures AllHold(content, order + [o]) == AllHold(content, order) + [Holds(content, o)]
  {
  }

  lemma CopyKept(capacity: nat, s: State, o: Obj, copy: Obj, order: seq<Obj>)
    requires Inv(capacity, s) && Enabled(capacity, s, Copy(o, copy)) && Lists(order, s)
    ensures Lists(order, Next(capacity, s, Copy(o, copy)))
    ensures Kept(Next(capacity, s, Copy(o, copy)), order) == Kept(s, order)
  {
    assert copy !in order;
    HoldsElsewhere(s.content, order, copy, Holds(s.content, o));
  }

  lemma EnqueueKept(capacity: nat, s: State, o: Obj, order: seq<Obj>) returns (rest: seq<Obj>)
    requires Inv(capacity, s) && Enabled(capacity, s, Enqueue(o)) && Lists(order, s)
    ensures Lists(rest, Next(capacity, s, Enqueue(o)))
    ensures Kept(Next(capacity, s, Enqueue(o)), rest) == Kept(s, order)
  {
    var i :| 0 <= i < |order| && order[i] == o;
    rest := order[..i] + order[i + 1..];
    ListsRest(s, order, i, rest, Next(capacity, s, Enqueue(o)));
    TakenOut(s.content, order, i);
  }

  lemma ListsRest(s: State, order: seq<Obj>, i: nat, rest: seq<Obj>, t: State)
    requires Lists(order, s) && i < |order| && rest == order[..i] + order[i + 1..]
    requires t.making == s.making && t.sending == s.sending - {order[i]} && order[i] !in s.making
    ensures Lists(rest, t)
  {
    forall o ensures o in rest <==> o in order && o != order[i] {
      if o in order && o != order[i] {
        var j :| 0 <= j < |order| && order[j] == o;
        assert rest[if j < i then j else j - 1] == o;
      }
    }
  }

  lemma TakenOut(content: map<Obj, Msg>, order: seq<Obj>, i: nat)
    requires i < |order|
    ensures multiset(AllHold(content, order)) ==
            multiset(AllHold(content, order[..i] + order[i + 1..])) + multiset{Holds(content, order[i])}
  {
    var a, b, x := AllHold(content, order[..i]), AllHold(content, order[i + 1..]), Holds(content, order[i]);
    assert AllHold(content, order) == a + [x] + b;
    assert AllHold(content, order[..i] + order[i + 1..]) == a + b;
  }

  lemma StepKept(capacity: nat, s: State, e: Event, order: seq<Obj>) returns (next: seq<Obj>)
    requires Inv(capacity, s) && Enabled(capacity, s, e) && Lists(order, s)
    ensures var t := Next(capacity, s, e);
            Lists(next, t) && Kept(t, next) == Kept(s, order) + multiset(LoggedBy(e))
  {
    next := order;
    match e {
      case Make(o, m) =>
        MakeKept(capacity, s, o, m, order);
        next := order + [o];
      case Copy(o, copy) =>
        CopyKept(capacity, s, o, copy, order);
      case Enqueue(o) =>
        next := EnqueueKept(capacity, s, o, order);
      case _ =>
        OthersKept(s, Next(capacity, s, e), order);
    }
  }

  /** The other steps touch none of these messages. */
  lemma OthersKept(s: State, t: State, order: seq<Obj>)
    requires t.making == s.making && t.sending == s.sending && t.content == s.content && t.enqueued == s.enqueued
    requires Lists(order, s)
    ensures Lists(order, t) && Kept(t, order) == Kept(s, order)
  {
  }

  lemma AddedUp(a: multiset<Msg>, b: multiset<Msg>, c: multiset<Msg>, x: seq<Msg>, y: seq<Msg>)
    requires b == a + multiset(x) && c == b + multiset(y)
    ensures c == a + multiset(x + y)
  {
  }

  /** No message is lost, invented or changed: what was logged is enqueued or on its way. */
  lemma {:induction false} MessagesKept(capacity: nat, s: State, events: seq<Event>, s': State, order: seq<Obj>)
    returns (order': seq<Obj>)
    requires Inv(capacity, s) && Runs(capacity, s, events, s') && Lists(order, s)
    ensures Lists(order', s') && Kept(s', order') == Kept(s, order) + multiset(Logged(events))
    decreases |events|
  {
    if events == [] {
      order' := order;
    } else {
      var e, t := events[0], Next(capacity, s, events[0]);
      StepKeepsInv(capacity, s, e);
      var next := StepKept(capacity, s, e, order);
      order' := MessagesKept(capacity, t, events[1..], s', next);
      AddedUp(Kept(s, order), Kept(t, next), Kept(s', order'), LoggedBy(e), Logged(events[1..]));
    }
  }

  lemma SomeListed(order: seq<Obj>)
    requires order != []
    ensures exists o :: o in order
  {
    assert order[0] in order;
  }

  lemma NothingOnItsWay(capacity: nat, s: State, order: seq<Obj>)
    requires Inv(capacity, s) && Lists(order, s) && s.making == {} && s.sending == {}
    requires s.queue == [] && !s.consumer.Took?
    ensures Kept(s, order) == multiset(s.written) && s.enqueued == s.written
  {
    if order != [] {
      SomeListed(order);
      assert false;
    }
    assert AllHold(s.content, order) == [];
    assert s.written + [] + [] == s.written;
  }

  lemma StartsEmpty(capacity: nat, s: State)
    requires s == START
    ensures Inv(capacity, s) && Faithful(s, map[]) && Lists([], s) && Kept(s, []) == multiset{} && s.enqueued == []
  {
    assert AllHold(s.content, []) == [];
  }

  /** After any run: enqueued in order as made, and with what is on its way exactly what was logged. */
  lemma LoggedIsKept(capacity: nat, events: seq<Event>, s: State) returns (order: seq<Obj>)
    requires Runs(capacity, START, events, s)
    ensures s.enqueued == SentAs(map[], events)
    ensures Lists(order, s) && multiset(s.enqueued) + multiset(AllHold(s.content, order)) == multiset(Logged(events))
  {
    var start := START;
    StartsEmpty(capacity, start);
    order := MessagesKept(capacity, start, events, s, []);
    EnqueuedAsMade(capacity, start, map[], events, s);
    assert start.enqueued + SentAs(map[], events) == SentAs(map[], events);
  }

  /** Once nothing is on its way or queued, what is written is what was logged, each message as it was made. */
  lemma WrittenIsLogged(capacity: nat, events: seq<Event>, s: State)
    requires Runs(capacity, START, events, s)
    requires s.queue == [] && s.making == {} && s.sending == {} && !s.consumer.Took?
    ensures multiset(s.written) == multiset(Logged(events)) && s.written == SentAs(map[], events)
  {
    RunKeepsInv(capacity, START, events, s);
    var order := LoggedIsKept(capacity, events, s);
    NothingOnItsWay(capacity, s, order);
  }

  /** The events of one Flush, from its call to its return. */
  predicate OneFlush(events: seq<Event>)
  {
    |events| >= 2 && events[0] == Call && events[|events| - 1] == Return &&
    forall i :: 0 < i < |events| - 1 ==> !events[i].Return?
  }

  lemma {:induction false} MarkStays(capacity: nat, s: State, events: seq<Event>, s': State)
    requires Runs(capacity, s, events, s') && !s.flusher.Quiet?
    requires forall i :: 0 <= i < |events| ==> !events[i].Return?
    ensures s'.mark == s.mark && !s'.flusher.Quiet?
    decreases |events|
  {
    if events != [] {
      MarkStays(capacity, Next(capacity, s, events[0]), events[1..], s');
    }
  }

  lemma {:induction false} RunsSplit(capacity: nat, s: State, a: seq<Event>, b: seq<Event>, s': State)
    returns (mid: State)
    requires Runs(capacity, s, a + b, s')
    ensures Runs(capacity, s, a, mid) && Runs(capacity, mid, b, s')
    decreases |a|
  {
    if a == [] {
      assert a + b == b;
      mid := s;
    } else {
      assert (a + b)[1..] == a[1..] + b;
      mid := RunsSplit(capacity, Next(capacity, s, a[0]), a[1..], b, s');
    }
  }

  /** When Flush returns, every message enqueued before it was called has been written, in order. */
  lemma FlushIsABarrier(capacity: nat, before: seq<Event>, flush: seq<Event>, s: State, s': State)
    requires Runs(capacity, START, before, s) && Runs(capacity, s, flush, s') && OneFlush(flush)
    ensures s.enqueued <= s'.written
  {
    AfterAnyRun(capacity, before, s);
    var n := |flush| - 1;
    assert flush == flush[..n] + [Return];
    var last := RunsSplit(capacity, s, flush[..n], [Return], s');
    RunKeepsInv(capacity, s, flush[..n], last);
    MarkStays(capacity, Next(capacity, s, Call), flush[..n][1..], last);
    assert Runs(capacity, Next(capacity, last, Return), [], s');
  }

  // ---------------------------------------------------------------- progress

  /** Steps other than logging another message, calling Flush, and the pool dropping objects. */
  predicate Internal(e: Event)
  {
    !e.Make? && !e.Call? && !e.Forget?
  }

  predicate AtRest(s: State)
  {
    s.queue == [] && s.making == {} && s.sending == {} && s.consumer.Selecting? && s.flusher.Quiet?
  }

  function ConsumerRank(c: Consumer): nat
  {
    match c
    case Selecting => 0
    case Took(_, flushing) => if flushing then 5 else 3
    case Wrote(_, flushing) => if flushing then 4 else 2
    case Draining => 2
    case Drained => 1
  }

  function FlusherRank(f: Flusher): nat
  {
    match f
    case Quiet => 0
    case Sending => 6
    case Waiting => 2
    case Adding => 1
  }

  function Measure(s: State): nat
  {
    6 * |s.making| + 5 * |s.sending| + 4 * |s.queue| + ConsumerRank(s.consumer) + FlusherRank(s.flusher) +
    if s.signal then 3 else 0
  }

  /** Nothing is ever stuck: unless all is at rest, some goroutine can go on. */
  lemma NoDeadlock(capacity: nat, s: State)
    requires capacity > 0 && Inv(capacity, s) && !AtRest(s)
    ensures exists e :: Internal(e) && Enabled(capacity, s, e)
  {
    var e := Progress(s);
    assert Internal(e) && Enabled(capacity, s, e);
  }

  /** A step that can be taken. */
  ghost function Progress(s: State): Event
    requires !AtRest(s)
  {
    match s.consumer
    case Took(_, _) => Write
    case Wrote(_, _) => Put
    case Draining => if s.queue == [] then Empty else Take
    case Drained => Done
    case Selecting =>
      if s.queue != [] then Take
      else if s.signal then Signalled
      else if s.making != {} then var o :| o in s.making; Copy(o, Unused(s.content))
      else if s.sending != {} then var o :| o in s.sending; Enqueue(o)
      else if s.flusher.Sending? then Send
      else if s.flusher.Waiting? then Wake
      else Return
  }

  ghost function Unused(content: map<Obj, Msg>): (o: Obj)
    ensures o !in content
  {
    UnusedExists(content);
    var o: Obj :| o !in content;
    o
  }

  lemma UnusedExists(content: map<Obj, Msg>)
    ensures exists o: Obj :: o !in content
  {
    var top := Bound(content.Keys);
    assert top !in content;
  }

  lemma {:induction false} Bound(os: set<Obj>) returns (top: Obj)
    ensures forall o :: o in os ==> o < top
  {
    if os == {} {
      top := 0;
    } else {
      var o :| o in os;
      var t := Bound(os - {o});
      top := if t > o then t else o + 1;
      assert forall x :: x in os ==> x == o || x in os - {o};
    }
  }

  lemma RemovedCount(os: set<Obj>, o: Obj)
    requires o in os
    ensures |os - {o}| == |os| - 1
  {
  }

  lemma AddedCount(os: set<Obj>, o: Obj)
    ensures |os + {o}| <= |os| + 1
  {
    if o in os {
      assert os + {o} == os;
    }
  }

  lemma CopyDecreases(capacity: nat, s: State, o: Obj, copy: Obj)
    requires Enabled(capacity, s, Copy(o, copy))
    ensures Measure(Next(capacity, s, Copy(o, copy))) < Measure(s)
  {
    RemovedCount(s.making, o);
    AddedCount(s.sending, o);
  }

  lemma Decreases(capacity: nat, s: State, e: Event)
    requires Enabled(capacity, s, e) && Internal(e)
    ensures Measure(Next(capacity, s, e)) < Measure(s)
  {
    match e {
      case Copy(o, copy) => CopyDecreases(capacity, s, o, copy);
      case Enqueue(o) => RemovedCount(s.sending, o);
      case _ =>
    }
  }

  ghost predicate Stuck(capacity: nat, s: State)
  {
    forall e :: Internal(e) ==> !Enabled(capacity, s, e)
  }

  /** At rest everything is written, and conversely only rest stops everything. */
  lemma StuckIsRest(capacity: nat, s: State)
    requires capacity > 0 && Inv(capacity, s)
    requires Stuck(capacity, s)
    ensures AtRest(s) && s.written == s.enqueued
  {
    if !AtRest(s) {
      NoDeadlock(capacity, s);
    }
    assert s.written + [] + [] == s.written;
  }

  /**
   When no more messages are logged, every run comes to rest after finitely many steps: a
   Flush in progress returns and everything enqueued is written.
   */
  lemma {:induction false} ComesToRest(capacity: nat, s: State, events: seq<Event>, s': State)
    requires capacity > 0 && Inv(capacity, s) && Runs(capacity, s, events, s')
    requires forall i :: 0 <= i < |events| ==> Internal(events[i])
    ensures |events| + Measure(s') <= Measure(s)
    ensures Stuck(capacity, s') ==> AtRest(s') && s'.written == s'.enqueued
    decreases |events|
  {
    if events == [] {
      if Stuck(capacity, s') {
        StuckIsRest(capacity, s');
      }
    } else {
      StepKeepsInv(capacity, s, events[0]);
      Decreases(capacity, s, events[0]);
      ComesToRest(capacity, Next(capacity, s, events[0]), events[1..], s');
    }
  }
}
