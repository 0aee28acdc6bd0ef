/**
  How the Go connection closes its send channel while any number of callers may
  be inside `Send`. Every atomic load, store and add, every channel operation
  and every turn of the waiting loop is one step; steps of all parties
  interleave freely. Sending on a closed channel, or closing it twice, panics.
 */
module Closing {

  /** One call of `Send`; it also stands for the message it carries. */
  type Call = nat

  const CAPACITY := 16

  /** Where a call of `Send` stands. */
  datatype Pc =
    | Checked               // the first load saw stopped == 0
    | Counted               // activereqcount was incremented
    | Cleared               // the second load saw stopped == 0
    | Leaving(result: bool) // the deferred decrement is still to come
    | Done(result: bool)

  /** Where `Run` stands: in RunRX, waiting for the count to drop, about to close, past the close. */
  datatype RunPc = Receiving | Waiting | Ready | Closed

  datatype State = State(
    stopped: bool, activereqcount: int, queue: seq<Call>, closes: nat, panicked: bool,
    calls: map<Call, Pc>, run: RunPc,
    accepted: seq<Call>, received: seq<Call>)

  datatype Event = Stop | Send(c: Call) | Run | Receive

  // ----- the protocol -------------------------------------------------------------

  function Init(): State {
    State(false, 0, [], 0, false, map[], Receiving, [], [])
  }

  function Step(s: State, e: Event): State {
    match e
    case Stop => s.(stopped := true)
    case Send(c) => SendStep(s, c)
    case Run => RunStep(s)
    case Receive => if s.queue == [] then s else s.(queue := s.queue[1..], received := s.received + [s.queue[0]])
  }

  /** The next step of call `c`; a call that is not in the map is about to start. */
  function SendStep(s: State, c: Call): State {
    if c !in s.calls then
      At(s, c, if s.stopped then Done(false) else Checked)
    else
      match s.calls[c]
      case Checked => At(s, c, Counted).(activereqcount := s.activereqcount + 1)
      case Counted => At(s, c, if s.stopped then Leaving(false) else Cleared)
      case Cleared =>
        if s.closes > 0 then s.(panicked := true)
        else if |s.queue| < CAPACITY then
          At(s, c, Leaving(true)).(queue := s.queue + [c], accepted := s.accepted + [c])
        else At(s, c, Leaving(false))
      case Leaving(r) => At(s, c, Done(r)).(activereqcount := s.activereqcount - 1)
      case Done(_) => s
  }

  function At(s: State, c: Call, pc: Pc): State {
    s.(calls := s.calls[c := pc])
  }

  function RunStep(s: State): State {
    match s.run
    case Receiving => s.(stopped := true, run := Waiting)
    case Waiting => if s.activereqcount > 0 then s else s.(run := Ready)
    case Ready => s.(closes := s.closes + 1, panicked := s.panicked || s.closes > 0, run := Closed)
    case Closed => s
  }

  function After(events: seq<Event>): State {
    if events == [] then Init() else Step(After(events[..|events| - 1]), events[|events| - 1])
  }

  // ----- the invariant --------------------------------------------------------------

  predicate Counts(pc: Pc) {
    pc.Counted? || pc.Cleared? || pc.Leaving?
  }

  /** The calls between their increment and their decrement. */
  function InFlight(calls: map<Call, Pc>): set<Call> {
    set c | c in calls && Counts(calls[c])
  }

  ghost predicate CountInv(s: State) {
    s.activereqcount == |InFlight(s.calls)|
  }

  ghost predicate CloseInv(s: State) {
    && !s.panicked
    && (s.run != Receiving ==> s.stopped)
    && s.closes == (if s.run.Closed? then 1 else 0)
    && (s.run.Ready? || s.run.Closed? ==> forall c <- s.calls :: !s.calls[c].Cleared?)
  }

  predicate Succeeding(pc: Pc) {
    pc == Leaving(true) || pc == Done(true)
  }

  ghost predicate QueueInv(s: State) {
    && s.accepted == s.received + s.queue
    && |s.queue| <= CAPACITY
    && (forall i, j :: 0 <= i < j < |s.accepted| ==> s.accepted[i] != s.accepted[j])
    && (forall c :: c in s.accepted <==> c in s.calls && Succeeding(s.calls[c]))
  }

  ghost predicate Inv(s: State) {
    CountInv(s) && CloseInv(s) && QueueInv(s)
  }

  lemma Moved(calls: map<Call, Pc>, c: Call, pc: Pc)
    ensures InFlight(calls[c := pc]) == if Counts(pc) then InFlight(calls) + {c} else InFlight(calls) - {c}
  {}

  lemma CountKept(s: State, e: Event)
    requires CountInv(s)
    ensures CountInv(Step(s, e))
  {
    hide SendStep, InFlight;
    if e.Send? {
      SendMoves(s, e.c);
      Moved(s.calls, e.c, PcOf(SendStep(s, e.c), e.c));
      Membership(s.calls, e.c);
    }
  }

  function PcOf(s: State, c: Call): Pc {
    if c in s.calls then s.calls[c] else Done(false)
  }

  predicate Has(s: State, c: Call) {
    c in s.calls && Counts(s.calls[c])
  }

  lemma Membership(calls: map<Call, Pc>, c: Call)
    ensures c in InFlight(calls) <==> c in calls && Counts(calls[c])
  {}

  /** A step moves only its own call, and the count follows that call in and out. */
  lemma SendMoves(s: State, c: Call)
    ensures var t := SendStep(s, c);
            && t.calls == s.calls[c := PcOf(t, c)]
            && t.stopped == s.stopped && t.run == s.run && t.closes == s.closes && t.received == s.received
            && t.activereqcount == s.activereqcount + (if Has(t, c) then 1 else 0) - (if Has(s, c) then 1 else 0)
            && (c in s.calls && StepsLeft(s.calls[c]) > 0 && !t.panicked ==>
                  StepsLeft(PcOf(t, c)) < StepsLeft(s.calls[c]))
            && (t.panicked ==> s.panicked || (c in s.calls && s.calls[c].Cleared?))
            && (s.stopped && !(c in s.calls && s.calls[c].Cleared?) ==> !PcOf(t, c).Cleared?)
            && (Succeeding(PcOf(t, c)) ==> c in s.calls && (s.calls[c].Cleared? || Succeeding(s.calls[c])))
  {
    if c in s.calls && (s.calls[c].Done? || (s.calls[c].Cleared? && s.closes > 0)) {
      assert s.calls == s.calls[c := s.calls[c]];
    }
  }

  /** The waiting loop ends only when no call is about to send, and none can get there any more. */
  lemma CloseKept(s: State, e: Event)
    requires CountInv(s) && CloseInv(s)
    ensures CloseInv(Step(s, e))
  {
    if e.Run? && s.run.Waiting? && s.activereqcount == 0 {
      forall c | c in s.calls
        ensures !s.calls[c].Cleared?
      {
        assert c !in InFlight(s.calls);
      }
    }
  }

  lemma QueueKept(s: State, e: Event)
    requires QueueInv(s)
    ensures QueueInv(Step(s, e))
  {
    hide SendStep;
    if e.Receive? && s.queue != [] {
      assert s.received + s.queue == s.received + [s.queue[0]] + s.queue[1..];
    } else if e.Send? {
      var t := SendStep(s, e.c);
      SendMoves(s, e.c);
      SendQueues(s, e.c);
      if t.accepted != s.accepted {
        assert s.received + (s.queue + [e.c]) == s.received + s.queue + [e.c];
      }
    }
  }

  lemma SendQueues(s: State, c: Call)
    ensures var t := SendStep(s, c);
            if t.accepted == s.accepted then
              t.queue == s.queue && (Succeeding(PcOf(t, c)) ==> c in s.calls && Succeeding(s.calls[c])) &&
              (c in s.calls && Succeeding(s.calls[c]) ==> Succeeding(PcOf(t, c)))
            else
              t.accepted == s.accepted + [c] && t.queue == s.queue + [c] && |s.queue| < CAPACITY &&
              c in s.calls && s.calls[c].Cleared? && PcOf(t, c) == Leaving(true)
  {
    assert s.accepted + [c] != s.accepted;
  }

  lemma {:induction false} InvAlways(events: seq<Event>)
    ensures Inv(After(events))
  {
    if events == [] {
      assert InFlight(Init().calls) == {};
    } else {
      var s, e := After(events[..|events| - 1]), events[|events| - 1];
      InvAlways(events[..|events| - 1]);
      CountKept(s, e);
      CloseKept(s, e);
      QueueKept(s, e);
    }
  }

  // ----- what it means for the callers --------------------------------------------------

  /** In every run of any number of callers, nothing panics and the channel is closed at most once. */
  lemma NeverPanics(events: seq<Event>)
    ensures !After(events).panicked && After(events).closes <= 1
  {
    InvAlways(events);
  }

  /**
    What was received and what is still queued are, in order, the messages whose `Send` returned or
    is about to return true, each once. Whether the queued ones are ever received is another matter:
    the receiver leaves its loop once the connection is stopped.
   */
  lemma AcceptedExactlyOnce(events: seq<Event>)
    ensures var s := After(events);
            && s.received + s.queue == s.accepted && |s.queue| <= CAPACITY
            && (forall c :: c in s.calls && s.calls[c].Done? ==> (s.calls[c].result <==> c in s.accepted))
            && (forall i, j :: 0 <= i < j < |s.accepted| ==> s.accepted[i] != s.accepted[j])
  {
    InvAlways(events);
  }

  /** Once stopped, a call that has not yet passed its second check is never accepted. */
  lemma {:induction false} LateCallsRefused(before: seq<Event>, later: seq<Event>, c: Call)
    requires var s := After(before);
             s.stopped && (c !in s.calls || s.calls[c].Checked? || s.calls[c].Counted?)
    ensures c !in After(before + later).accepted
    decreases |later|
  {
    NotClearedLater(before, later, c);
    InvAlways(before + later);
  }

  lemma {:induction false} NotClearedLater(before: seq<Event>, later: seq<Event>, c: Call)
    requires var s := After(before);
             s.stopped && (c !in s.calls || s.calls[c].Checked? || s.calls[c].Counted?)
    ensures var s := After(before + later);
            s.stopped && (c in s.calls ==> !s.calls[c].Cleared? && !Succeeding(s.calls[c]))
    decreases |later|
  {
    var all := before + later;
    if later == [] {
      assert all == before;
    } else {
      var e := later[|later| - 1];
      NotClearedLater(before, later[..|later| - 1], c);
      assert all[..|all| - 1] == before + later[..|later| - 1];
      NotClearedStep(After(all[..|all| - 1]), e, c);
    }
  }

  lemma NotClearedStep(s: State, e: Event, c: Call)
    requires s.stopped && (c in s.calls ==> !s.calls[c].Cleared? && !Succeeding(s.calls[c]))
    ensures var t := Step(s, e); t.stopped && (c in t.calls ==> !t.calls[c].Cleared? && !Succeeding(t.calls[c]))
  {
    hide SendStep;
    if e.Send? {
      SendMoves(s, e.c);
    }
  }

  // ----- the wait ends --------------------------------------------------------------------

  /** Calls that have begun and not returned. */
  function Pending(calls: map<Call, Pc>): set<Call> {
    set c | c in calls && !calls[c].Done?
  }

  function StepsLeft(pc: Pc): nat {
    match pc
    case Checked => 4
    case Counted => 3
    case Cleared => 2
    case Leaving(_) => 1
    case Done(_) => 0
  }

  /**
    Once stopped, no new call joins those that `Run` waits for, each of their steps brings them
    closer to returning, and when they have returned the wait is over.
   */
  lemma {:induction false} WaitEnds(events: seq<Event>, e: Event)
    requires After(events).stopped
    ensures var s, t := After(events), Step(After(events), e);
            && Pending(t.calls) <= Pending(s.calls)
            && (forall c :: c in Pending(s.calls) && e == Send(c) ==> StepsLeft(t.calls[c]) < StepsLeft(s.calls[c]))
            && (forall c :: c in Pending(s.calls) && e != Send(c) ==> t.calls[c] == s.calls[c])
            && (Pending(s.calls) == {} && s.run.Waiting? ==> RunStep(s).run.Ready?)
  {
    hide After, SendStep;
    InvAlways(events);
    var s := After(events);
    if e.Send? {
      SendMoves(s, e.c);
      SendStarts(s, e.c);
    }
    if Pending(s.calls) == {} {
      assert InFlight(s.calls) <= Pending(s.calls);
    }
  }

  lemma SendStarts(s: State, c: Call)
    requires CloseInv(s) && s.stopped
    ensures var t := SendStep(s, c);
            && (c !in s.calls || s.calls[c].Done? ==> PcOf(t, c).Done?)
            && !t.panicked
  {}

  /** How often call `c` moves. */
  function Turns(events: seq<Event>, c: Call): nat {
    if events == [] then 0
    else Turns(events[..|events| - 1], c) + if events[|events| - 1] == Send(c) then 1 else 0
  }

  lemma {:induction false} EveryTurnCounts(events: seq<Event>, later: seq<Event>, c: Call)
    requires After(events).stopped
    ensures var s, t := After(events), After(events + later);
            && t.stopped
            && (c in Pending(t.calls) ==>
                  c in Pending(s.calls) && StepsLeft(t.calls[c]) + Turns(later, c) <= StepsLeft(s.calls[c]))
    decreases |later|
  {
    hide After, StepsLeft;
    if later == [] {
      assert events + later == events;
    } else {
      var before, e := later[..|later| - 1], later[|later| - 1];
      EveryTurnCounts(events, before, c);
      assert (events + later)[..|events + later| - 1] == events + before;
      AfterStep(events + before, e);
      assert events + before + [e] == events + later;
      WaitEnds(events + before, e);
      StaysStopped(After(events + before), e);
    }
  }

  lemma AfterStep(events: seq<Event>, e: Event)
    ensures After(events + [e]) == Step(After(events), e)
  {
    assert (events + [e])[..|events|] == events;
  }

  lemma StaysStopped(s: State, e: Event)
    requires s.stopped
    ensures Step(s, e).stopped
  {}

  lemma WaitOver(events: seq<Event>)
    requires After(events).stopped && Pending(After(events).calls) == {}
    ensures var t := After(events + [Run, Run, Run]); t.run.Closed? && t.closes == 1 && !t.panicked
  {
    hide After;
    AfterStep(events, Run);
    AfterStep(events + [Run], Run);
    AfterStep(events + [Run] + [Run], Run);
    assert events + [Run] + [Run] + [Run] == events + [Run, Run, Run];
    InvAlways(events);
    InvAlways(events + [Run, Run, Run]);
    assert InFlight(After(events).calls) <= Pending(After(events).calls);
  }

  /**
    From every stopped state that any run can reach, every schedule gets to the close, without a
    panic, in which each pending call has its remaining turns and `Run` then has three: whatever
    else happens meanwhile, new calls and repeated stops included.
   */
  lemma {:induction false} CloseIsReached(events: seq<Event>, later: seq<Event>)
    requires After(events).stopped
    requires forall c <- Pending(After(events).calls) :: StepsLeft(After(events).calls[c]) <= Turns(later, c)
    ensures var t := After(events + later + [Run, Run, Run]); t.run.Closed? && t.closes == 1 && !t.panicked
  {
    hide After, StepsLeft, Turns;
    forall c
      ensures c !in Pending(After(events + later).calls)
    {
      EveryTurnCounts(events, later, c);
      if c in Pending(After(events + later).calls) {
        PendingHasSteps(After(events + later).calls, c);
      }
    }
    EveryTurnCounts(events, later, 0);
    WaitOver(events + later);
  }

  lemma PendingHasSteps(calls: map<Call, Pc>, c: Call)
    requires c in Pending(calls)
    ensures StepsLeft(calls[c]) > 0
  {}

  // ----- when a call is refused -------------------------------------------------------------

  predicate Refusing(pc: Pc) {
    pc == Leaving(false) || pc == Done(false)
  }

  /** The step of `c` at `i` is one of its loads and meets a stopped connection, or its select and meets 16 messages. */
  ghost predicate RefusedAt(events: seq<Event>, i: int, c: Call) {
    && 0 <= i < |events| && events[i] == Send(c)
    && var s := After(events[..i]);
       if c !in s.calls || s.calls[c].Counted? then s.stopped
       else s.calls[c].Cleared? && |s.queue| == 16
  }

  /** The step of `c` at `i` is its select and finds room. */
  ghost predicate AcceptedAt(events: seq<Event>, i: int, c: Call) {
    && 0 <= i < |events| && events[i] == Send(c)
    && var s := After(events[..i]);
       c in s.calls && s.calls[c].Cleared? && |s.queue| < 16
  }

  /**
    In every run, a call is refused if and only if one of its two loads met a stopped connection or
    its select met a full queue, and accepted if and only if its select met room.
   */
  lemma {:induction false} RefusedIff(events: seq<Event>, c: Call)
    ensures var s := After(events);
            && (c in s.calls && Refusing(s.calls[c]) <==> exists i :: RefusedAt(events, i, c))
            && (c in s.calls && Succeeding(s.calls[c]) <==> exists i :: AcceptedAt(events, i, c))
  {
    if events == [] {
    } else {
      hide *;
      var n := |events| - 1;
      var before, e := events[..n], events[n];
      RefusedIff(before, c);
      InvAlways(before);
      DecidedStep(After(before), e, c);
      assert events == before + [e];
      AfterStep(before, e);
      forall i
        ensures RefusedAt(events, i, c) <==> if i == n then Refuses(After(before), e, c) else RefusedAt(before, i, c)
        ensures AcceptedAt(events, i, c) <==> if i == n then Accepts(After(before), e, c) else AcceptedAt(before, i, c)
      {
        DecidedEarlier(events, i, c);
      }
      ExtendExists(events, c);
    }
  }

  lemma DecidedEarlier(events: seq<Event>, i: int, c: Call)
    requires events != []
    ensures var n := |events| - 1;
            var s, g := After(events[..n]), events[..n];
            && (RefusedAt(events, i, c) <==> if i == n then Refuses(s, events[n], c) else RefusedAt(g, i, c))
            && (AcceptedAt(events, i, c) <==> if i == n then Accepts(s, events[n], c) else AcceptedAt(g, i, c))
  {
    hide After;
    var n := |events| - 1;
    if 0 <= i < n {
      assert events[..n][..i] == events[..i] && events[..n][i] == events[i];
    }
  }

  ghost predicate Refuses(s: State, e: Event, c: Call) {
    && e == Send(c)
    && if c !in s.calls || s.calls[c].Counted? then s.stopped else s.calls[c].Cleared? && |s.queue| == 16
  }

  ghost predicate Accepts(s: State, e: Event, c: Call) {
    e == Send(c) && c in s.calls && s.calls[c].Cleared? && |s.queue| < 16
  }

  lemma ExtendExists(events: seq<Event>, c: Call)
    requires events != []
    requires var n := |events| - 1;
             var s, g := After(events[..n]), events[..n];
             forall i ::
               && (RefusedAt(events, i, c) <==> if i == n then Refuses(s, events[n], c) else RefusedAt(g, i, c))
               && (AcceptedAt(events, i, c) <==> if i == n then Accepts(s, events[n], c) else AcceptedAt(g, i, c))
    ensures var n := |events| - 1;
            && ((exists i :: RefusedAt(events, i, c)) <==>
                Refuses(After(events[..n]), events[n], c) || exists i :: RefusedAt(events[..n], i, c))
            && ((exists i :: AcceptedAt(events, i, c)) <==>
                Accepts(After(events[..n]), events[n], c) || exists i :: AcceptedAt(events[..n], i, c))
  {
    hide RefusedAt, AcceptedAt, Refuses, Accepts, After;
    var n := |events| - 1;
    if i :| RefusedAt(events[..n], i, c) {
      RefusedRange(events[..n], i, c);
      assert RefusedAt(events, i, c);
    }
    if i :| AcceptedAt(events[..n], i, c) {
      RefusedRange(events[..n], i, c);
      assert AcceptedAt(events, i, c);
    }
    if Refuses(After(events[..n]), events[n], c) {
      assert RefusedAt(events, n, c);
    }
    if Accepts(After(events[..n]), events[n], c) {
      assert AcceptedAt(events, n, c);
    }
  }

  lemma RefusedRange(events: seq<Event>, i: int, c: Call)
    ensures RefusedAt(events, i, c) || AcceptedAt(events, i, c) ==> 0 <= i < |events|
  {}

  /** What one step decides about one call. */
  lemma DecidedStep(s: State, e: Event, c: Call)
    requires Inv(s)
    ensures var t := Step(s, e);
            && (c in t.calls && Refusing(t.calls[c]) <==> (c in s.calls && Refusing(s.calls[c])) || Refuses(s, e, c))
            && (c in t.calls && Succeeding(t.calls[c]) <==>
                (c in s.calls && Succeeding(s.calls[c])) || Accepts(s, e, c))
  {
    hide CountInv;
    if e == Send(c) && c in s.calls && s.calls[c].Cleared? {
      assert s.closes == 0;
    }
  }

  /** Left alone on a running connection with room in the queue, a call is accepted and returns. */
  lemma FiveSteps(events: seq<Event>, c: Call)
    requires var s := After(events); c !in s.calls && !s.stopped && |s.queue| < 16
    ensures var t := After(events + [Send(c), Send(c), Send(c), Send(c), Send(c)]);
            c in t.calls && t.calls[c] == Done(true) && t.queue == After(events).queue + [c] && !t.panicked
  {
    hide After;
    InvAlways(events);
    var g1, g2, g3, g4 := events + [Send(c)], events + [Send(c)] + [Send(c)],
        events + [Send(c)] + [Send(c)] + [Send(c)], events + [Send(c)] + [Send(c)] + [Send(c)] + [Send(c)];
    AfterStep(events, Send(c));
    AfterStep(g1, Send(c));
    AfterStep(g2, Send(c));
    AfterStep(g3, Send(c));
    AfterStep(g4, Send(c));
    assert g4 + [Send(c)] == events + [Send(c), Send(c), Send(c), Send(c), Send(c)];
    assert After(events).closes == 0;
  }

  /** The connection counts as stopped exactly when somebody stopped it or `Run` has left its receive loop. */
  lemma {:induction false} StoppedIff(events: seq<Event>)
    ensures After(events).stopped <==> exists i :: 0 <= i < |events| && (events[i].Stop? || events[i].Run?)
  {
    if events == [] {
    } else {
      var n := |events| - 1;
      StoppedIff(events[..n]);
      InvAlways(events[..n]);
      StoppedStep(After(events[..n]), events[n]);
      if i :| 0 <= i < n && (events[..n][i].Stop? || events[..n][i].Run?) {
        assert events[i].Stop? || events[i].Run?;
      }
      if i :| 0 <= i < |events| && (events[i].Stop? || events[i].Run?) {
        assert i < n ==> events[..n][i] == events[i];
      }
    }
  }

  lemma StoppedStep(s: State, e: Event)
    requires CloseInv(s)
    ensures Step(s, e).stopped <==> s.stopped || e.Stop? || e.Run?
  {
    hide SendStep;
    if e.Send? {
      SendMoves(s, e.c);
    }
  }

  function Receives(n: nat): seq<Event> {
    if n == 0 then [] else Receives(n - 1) + [Receive]
  }

  /** Every message accepted can be received: as many receives as there are queued messages empty the queue. */
  lemma {:induction false} ReceivesEmptyQueue(events: seq<Event>, n: nat)
    requires n <= |After(events).queue|
    ensures var s, t := After(events), After(events + Receives(n));
            t.accepted == s.accepted && t.queue == s.queue[n..] && t.received == s.received + s.queue[..n]
  {
    hide After;
    var s := After(events);
    if n == 0 {
      assert events + Receives(0) == events;
      assert s.received + s.queue[..0] == s.received;
    } else {
      ReceivesEmptyQueue(events, n - 1);
      AfterStep(events + Receives(n - 1), Receive);
      assert events + Receives(n) == events + Receives(n - 1) + [Receive];
      assert s.queue[..n] == s.queue[..n - 1] + [s.queue[n - 1]];
    }
  }
}
