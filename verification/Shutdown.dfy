/**
 Serve and shutdown of servers/server.go: the goroutine that serves and the one that handles
 signals share a state variable and meet at a channel without room.
 */
module Shutdown {
  import opened Wrappers

  datatype Error = Timeout | Failure(code: nat)

  /** The server's `state` variable. */
  datatype App = Init | Running | ShuttingDown | Terminated

  /** Serve: not called, accepting, waiting for shutdown's result, or back with an error if any. */
  datatype Serving = Uncalled | Accepting | Awaiting | Returned(err: Option<Error>)

  /** handleSignals: waiting for a signal, past shutdown's check, waiting for requests to end, about to send. */
  datatype Handler = Listening | Checked | Draining | Sending(err: Option<Error>)

  /** `closed`: the listener is closed; `active`: requests in progress; `shutdowns`: how often the check was passed. */
  datatype State = State(app: App, serve: Serving, handler: Handler, closed: bool, active: nat, shutdowns: nat)

  datatype Event =
    | Serve | Request | Answer | Fail(code: nat) | NoticeClosed
    | Signal | Close | Drain(timeout: bool) | Meet

  const START := State(Init, Uncalled, Listening, false, 0, 0)

  /** The library's server fails only while its listener is open; afterwards it reports that it was closed. */
  predicate Enabled(s: State, e: Event)
  {
    match e
    case Serve => s.serve.Uncalled?
    case Request => s.serve.Accepting? && !s.closed
    case Answer => s.active > 0
    case Fail(_) => s.serve.Accepting? && !s.closed
    case NoticeClosed => s.serve.Accepting? && s.closed
    case Signal => s.handler.Listening?
    case Close => s.handler.Checked?
    case Drain(timeout) => s.handler.Draining? && (s.active == 0 || timeout)
    case Meet => s.handler.Sending? && s.serve.Awaiting?
  }

  function Next(s: State, e: Event): State
    requires Enabled(s, e)
  {
    match e
    case Serve => s.(app := Running, serve := Accepting)
    case Request => s.(active := s.active + 1)
    case Answer => s.(active := s.active - 1)
    case Fail(code) => s.(app := Terminated, serve := Returned(Some(Failure(code))))
    case NoticeClosed => s.(serve := Awaiting)
    case Signal =>
      if s.app == Running then s.(app := ShuttingDown, handler := Checked, shutdowns := s.shutdowns + 1) else s
    case Close => s.(closed := true, handler := Draining)
    case Drain(timeout) => s.(handler := Sending(if s.active == 0 then None else Some(Timeout)))
    case Meet => s.(app := Terminated, serve := Returned(s.handler.err), handler := Listening)
  }

  predicate CanRun(s: State, events: seq<Event>)
    decreases |events|
  {
    events == [] || (Enabled(s, events[0]) && CanRun(Next(s, events[0]), events[1..]))
  }

  function Run(s: State, events: seq<Event>): State
    requires CanRun(s, events)
    decreases |events|
  {
    if events == [] then s else Run(Next(s, events[0]), events[1..])
  }

  lemma {:induction false} RunPart(s: State, events: seq<Event>, n: nat)
    requires CanRun(s, events) && n <= |events|
    ensures CanRun(s, events[..n]) && CanRun(Run(s, events[..n]), events[n..])
    ensures Run(Run(s, events[..n]), events[n..]) == Run(s, events)
    decreases |events|
  {
    if n == 0 {
      assert events[0..] == events;
    } else {
      RunPart(Next(s, events[0]), events[1..], n - 1);
      assert events[..n][1..] == events[1..][..n - 1] && events[1..][n - 1..] == events[n..];
    }
  }

  /** How the two goroutines, the listener and the state variable go together. */
  predicate Inv(s: State)
  {
    (match s.app
     case Init => s.serve.Uncalled? && s.handler.Listening? && s.shutdowns == 0
     case Running => s.serve.Accepting? && s.handler.Listening? && s.shutdowns == 0
     case ShuttingDown => (s.serve.Accepting? || s.serve.Awaiting?) && !s.handler.Listening? && s.shutdowns == 1
     case Terminated => s.serve.Returned? && s.shutdowns <= 1) &&
    (s.closed <==> s.handler.Draining? || s.handler.Sending? || (s.handler.Listening? && s.shutdowns == 1)) &&
    (s.serve.Awaiting? ==> s.closed) &&
    (s.handler.Sending? && s.handler.err.None? ==> s.active == 0) &&
    (s.serve == Returned(None) ==> s.active == 0 && s.closed && s.handler.Listening?)
  }

  lemma {:induction false} RunKeepsInv(s: State, events: seq<Event>)
    requires Inv(s) && CanRun(s, events)
    ensures Inv(Run(s, events))
    decreases |events|
  {
    if events != [] {
      RunKeepsInv(Next(s, events[0]), events[1..]);
    }
  }

  /** After any run: one shutdown at most, and Serve returns without an error only when all requests are answered. */
  lemma AfterAnyRun(events: seq<Event>)
    requires CanRun(START, events)
    ensures var s := Run(START, events);
            Inv(s) && s.shutdowns <= 1 && (s.serve == Returned(None) ==> s.closed && s.active == 0)
  {
    RunKeepsInv(START, events);
  }

  // ---------------------------------------------------------------- what Serve returns

  /** The first failure of the server in a run. */
  function FirstFailure(events: seq<Event>): Option<nat>
  {
    if events == [] then None
    else if events[0].Fail? then Some(events[0].code)
    else FirstFailure(events[1..])
  }

  /** In the run the wait for requests ends with none in progress. */
  predicate DrainedClean(s: State, events: seq<Event>)
    requires CanRun(s, events)
    decreases |events|
  {
    events != [] && ((events[0].Drain? && s.active == 0) || DrainedClean(Next(s, events[0]), events[1..]))
  }

  function Result(clean: bool): Option<Error>
  {
    if clean then None else Some(Timeout)
  }

  /** What has failed and how the wait ended, as the state shows it. */
  predicate Shows(s: State, failure: Option<nat>, clean: bool)
  {
    && (match s.serve
        case Returned(err) => err == if failure.Some? then Some(Failure(failure.value)) else Result(clean)
        case _ => failure.None?)
    && (s.handler.Sending? ==> s.handler.err == Result(clean))
    && (s.serve.Returned? && failure.None? ==> s.handler.Listening?)
    && (s.handler.Draining? || s.handler.Checked? || s.app.Init? || s.app.Running? ==> !clean)
  }

  lemma StepShows(s: State, e: Event, failure: Option<nat>, clean: bool)
    requires Inv(s) && Enabled(s, e) && Shows(s, failure, clean)
    ensures Shows(Next(s, e), if e.Fail? then Some(e.code) else failure, clean || (e.Drain? && s.active == 0))
    ensures e.Fail? ==> failure.None?
    ensures Inv(Next(s, e))
  {
  }

  lemma {:induction false} RunShows(s: State, events: seq<Event>, failure: Option<nat>, clean: bool)
    requires Inv(s) && CanRun(s, events) && Shows(s, failure, clean)
    ensures Shows(Run(s, events), if failure.Some? then failure else FirstFailure(events),
                  clean || DrainedClean(s, events))
    decreases |events|
  {
    if events != [] {
      var e := events[0];
      StepShows(s, e, failure, clean);
      RunShows(Next(s, e), events[1..], if e.Fail? then Some(e.code) else failure,
               clean || (e.Drain? && s.active == 0));
    }
  }

  /**
   What Serve returns after any run: the failure of the server if it failed; otherwise no error
   if and only if the wait for requests ended with none in progress, and the timeout if not.
   */
  lemma ReturnedIff(events: seq<Event>)
    requires CanRun(START, events) && Run(START, events).serve.Returned?
    ensures var err, failure := Run(START, events).serve.err, FirstFailure(events);
            && (failure.Some? ==> err == Some(Failure(failure.value)))
            && (failure.None? ==> (err.None? <==> DrainedClean(START, events)) && (err.Some? ==> err == Some(Timeout)))
  {
    RunShows(START, events, None, false);
  }

  /** The server failed after shutdown's check and before the listener was closed. */
  predicate Doomed(s: State)
  {
    s.serve.Returned? && !s.handler.Listening?
  }

  /** Only such a failure dooms a run. */
  lemma DoomedByFailure(s: State, e: Event)
    requires Inv(s) && Enabled(s, e) && !Doomed(s)
    ensures Doomed(Next(s, e)) <==> e.Fail? && s.handler.Checked?
  {
  }

  /** From then on no run ever brings the signal handler back: it waits forever to hand over its result. */
  lemma {:induction false} DoomedForever(s: State, events: seq<Event>)
    requires Doomed(s) && CanRun(s, events)
    ensures Doomed(Run(s, events))
    decreases |events|
  {
    if events != [] {
      DoomedForever(Next(s, events[0]), events[1..]);
    }
  }

  /** The `i`-th event is a failure that comes while shutdown is past its check. */
  predicate FailsChecked(events: seq<Event>, i: nat)
    requires CanRun(START, events) && i < |events|
  {
    RunPart(START, events, i);
    events[i].Fail? && Run(START, events[..i]).handler.Checked?
  }

  /** A run from the start ends with the handler stranded if and only if it holds such a failure. */
  lemma {:induction false} DoomedIff(events: seq<Event>)
    requires CanRun(START, events)
    ensures Doomed(Run(START, events)) <==> exists i :: 0 <= i < |events| && FailsChecked(events, i)
    decreases |events|
  {
    if events != [] {
      var n := |events| - 1;
      var before := events[..n];
      RunPart(START, events, n);
      DoomedIff(before);
      AfterAnyRun(before);
      LastStep(Run(START, before), events[n]);
      assert events[n..] == [events[n]];
      forall i | 0 <= i < n ensures FailsChecked(events, i) <==> FailsChecked(before, i) {
        assert before[..i] == events[..i];
      }
      assert FailsChecked(events, n) <==> events[n].Fail? && Run(START, before).handler.Checked?;
      if Doomed(Run(START, before)) {
        DoomedForever(Run(START, before), events[n..]);
        var i :| 0 <= i < |before| && FailsChecked(before, i);
        assert FailsChecked(events, i);
      } else {
        DoomedByFailure(Run(START, before), events[n]);
      }
    }
  }

  lemma LastStep(s: State, e: Event)
    requires Enabled(s, e)
    ensures CanRun(s, [e]) && Run(s, [e]) == Next(s, e)
  {
    assert [e][1..] == [];
    assert Run(Next(s, e), []) == Next(s, e);
  }

  /** The shortest such run: the server fails just after shutdown has found it running. */
  lemma StrandedRun()
    ensures var events := [Serve, Signal, Fail(0)]; CanRun(START, events) && Doomed(Run(START, events))
  {
    var events := [Serve, Signal, Fail(0)];
    var s1 := Next(START, Serve);
    var s2 := Next(s1, Signal);
    assert events[1..] == [Signal, Fail(0)] && [Signal, Fail(0)][1..] == [Fail(0)];
    LastStep(s2, Fail(0));
    assert CanRun(s1, [Signal, Fail(0)]) && Run(s1, [Signal, Fail(0)]) == Run(s2, [Fail(0)]);
  }

  /** Steps other than calling Serve, new requests and signals, and failures. */
  predicate Internal(e: Event)
  {
    !e.Serve? && !e.Request? && !e.Signal? && !e.Fail?
  }

  function Measure(s: State): nat
  {
    s.active + (match s.serve case Uncalled => 0 case Accepting => 2 case Awaiting => 1 case Returned(_) => 0) +
    match s.handler case Listening => 0 case Checked => 3 case Draining => 2 case Sending(_) => 1
  }

  ghost predicate Stuck(s: State)
  {
    forall e :: Internal(e) ==> !Enabled(s, e)
  }

  /**
   A shutdown that is under way and not doomed completes after a bounded number of steps: Serve
   has returned, all requests are answered, and signals are handled again.
   */
  lemma {:induction false} ShutdownCompletes(s: State, events: seq<Event>)
    requires Inv(s) && !Doomed(s) && s.shutdowns == 1
    requires CanRun(s, events) && forall i :: 0 <= i < |events| ==> Internal(events[i])
    ensures var s' := Run(s, events);
            |events| + Measure(s') <= Measure(s) &&
            (Stuck(s') ==> s'.serve.Returned? && s'.handler.Listening? && s'.active == 0)
    decreases |events|
  {
    if events == [] {
      if Stuck(s) {
        var e := if s.active > 0 then Answer else if s.handler.Checked? then Close
          else if s.handler.Draining? then Drain(false)
                 else if s.serve.Accepting? then NoticeClosed else Meet;
        assert Internal(e) && !Enabled(s, e);
      }
    } else {
      DoomedByFailure(s, events[0]);
      LastStep(s, events[0]);
      RunKeepsInv(s, [events[0]]);
      ShutdownCompletes(Next(s, events[0]), events[1..]);
    }
  }
}
