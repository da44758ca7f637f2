/**
  Fan-out of events to subscribers: one loop owns the set of subscriptions and takes registrations, removals and
  events from three queues in any order; every subscriber has a bounded channel that drops what does not fit.
 */
module Broadcast {
  import opened Runs

  datatype Event = Event(payload: string)

  const CHANNEL_CAPACITY: nat := 100

  /** A subscriber's channel, with its history: what the subscriber got, and which of the events taken were put in. */
  datatype Chan = Chan(buffer: seq<Event>, closed: bool, got: seq<Event>, kept: seq<nat>)

  const OPEN := Chan([], false, [], [])

  /** The whole system. `taken` are the events that the loop has taken, `sent` those that entered its queue. */
  datatype State = State(
    subs: set<nat>,
    chans: map<nat, Chan>,
    subQ: seq<nat>,
    unsubQ: seq<nat>,
    eventQ: seq<Event>,
    stopped: bool,
    crashed: bool,
    taken: seq<Event>,
    sent: seq<Event>)

  const INITIAL := State({}, map[], [], [], [], false, false, [], [])

  datatype Move =
    | Subscribe(sub: nat)
    | Unsubscribe(sub: nat)
    | Send(event: Event)
    | Receive(sub: nat)
    | TakeSub
    | TakeUnsub
    | TakeEvent
    | Cancel

  /** The non-blocking send to one channel of the `at`-th event. */
  function Offer(c: Chan, e: Event, at: nat): Chan {
    if |c.buffer| < CHANNEL_CAPACITY then c.(buffer := c.buffer + [e], kept := c.kept + [at]) else c
  }

  function OfferAll(st: State, e: Event): map<nat, Chan> {
    map s | s in st.chans :: if s in st.subs then Offer(st.chans[s], e, |st.taken|) else st.chans[s]
  }

  function CloseAll(st: State): map<nat, Chan> {
    map s | s in st.chans :: if s in st.subs then st.chans[s].(closed := true) else st.chans[s]
  }

  /** Some registered channel is closed: sending to it or closing it again would end the process. */
  predicate Deadly(subs: set<nat>, chans: map<nat, Chan>) {
    exists s | s in subs :: s in chans && chans[s].closed
  }

  /** One move; a move that cannot be made, or comes after the process has crashed, changes nothing. */
  function Step(cap: nat, st: State, m: Move): State {
    if st.crashed then st
    else
      match m
      case Subscribe(s) =>
        if s in st.chans || |st.subQ| >= cap then st
        else st.(chans := st.chans[s := OPEN], subQ := st.subQ + [s])
      case Unsubscribe(s) =>
        if s !in st.chans || |st.unsubQ| >= cap then st else st.(unsubQ := st.unsubQ + [s])
      case Send(e) =>
        if |st.eventQ| >= cap then st else st.(eventQ := st.eventQ + [e], sent := st.sent + [e])
      case Receive(s) =>
        if s !in st.chans || st.chans[s].buffer == [] then st
        else
          var c := st.chans[s];
          st.(chans := st.chans[s := c.(buffer := c.buffer[1..], got := c.got + [c.buffer[0]])])
      case TakeSub =>
        if st.stopped || st.subQ == [] then st else st.(subQ := st.subQ[1..], subs := st.subs + {st.subQ[0]})
      case TakeUnsub =>
        if st.stopped || st.unsubQ == [] || st.unsubQ[0] !in st.chans then st
        else
          var s := st.unsubQ[0];
          if st.chans[s].closed then st.(crashed := true)
          else st.(unsubQ := st.unsubQ[1..], subs := st.subs - {s},
               chans := st.chans[s := st.chans[s].(closed := true)])
      case TakeEvent =>
        if st.stopped || st.eventQ == [] then st
        else if Deadly(st.subs, st.chans) then st.(crashed := true)
        else st.(eventQ := st.eventQ[1..], chans := OfferAll(st, st.eventQ[0]), taken := st.taken + [st.eventQ[0]])
      case Cancel =>
        if st.stopped then st
        else if Deadly(st.subs, st.chans) then st.(crashed := true)
        else st.(chans := CloseAll(st), subs := {}, stopped := true)
  }

  function Stepper(cap: nat): (State, Move) -> State {
    (st, m) => Step(cap, st, m)
  }

  function RunFrom(cap: nat, st: State, moves: seq<Move>): State {
    Fold(Stepper(cap), st, moves)
  }

  function Run(cap: nat, moves: seq<Move>): State {
    RunFrom(cap, INITIAL, moves)
  }

  lemma SixMoves<S, M>(f: (S, M) -> S, s: S, a: M, b: M, c: M, d: M, e: M, g: M)
    ensures Fold(f, s, [a, b, c, d, e, g]) == f(f(f(f(f(f(s, a), b), c), d), e), g)
  {
    TwoMoves(f, s, a, b);
    TwoMoves(f, f(f(s, a), b), c, d);
    TwoMoves(f, f(f(f(f(s, a), b), c), d), e, g);
    InParts(f, s, [a, b], [c, d]);
    InParts(f, s, [a, b] + [c, d], [e, g]);
    assert [a, b] + [c, d] + [e, g] == [a, b, c, d, e, g];
  }

  // ---- What every run keeps ----

  function Pick(events: seq<Event>, at: seq<nat>): seq<Event>
    requires forall i | 0 <= i < |at| :: at[i] < |events|
  {
    seq(|at|, i requires 0 <= i < |at| => events[at[i]])
  }

  /**
    What a channel delivered and still holds is a subsequence, in order and without repetition, of the events taken.
   */
  ghost predicate Faithful(taken: seq<Event>, c: Chan) {
    && |c.buffer| <= CHANNEL_CAPACITY
    && (forall i | 0 <= i < |c.kept| :: c.kept[i] < |taken|)
    && (forall i, j | 0 <= i < j < |c.kept| :: c.kept[i] < c.kept[j])
    && c.got + c.buffer == Pick(taken, c.kept)
  }

  /** Every subscription waits once for its registration, or is registered, or its channel is closed. */
  ghost predicate Placed(st: State) {
    && st.subs <= st.chans.Keys
    && (forall s | s in st.subQ :: s in st.chans && s !in st.subs)
    && (forall i, j | 0 <= i < j < |st.subQ| :: st.subQ[i] != st.subQ[j])
    && (forall s | s in st.unsubQ :: s in st.chans)
    && (forall s | s in st.chans :: s in st.subQ || s in st.subs || st.chans[s].closed)
  }

  ghost predicate AllFaithful(st: State) {
    && (forall s | s in st.chans :: Faithful(st.taken, st.chans[s]))
    && st.sent == st.taken + st.eventQ
  }

  ghost predicate Inv(st: State) {
    Placed(st) && AllFaithful(st)
  }

  /** A closed channel whose subscription is registered or waits for it. */
  ghost predicate Trap(st: State, s: nat) {
    s in st.chans && st.chans[s].closed && (s in st.subs || s in st.subQ)
  }

  /** The process has crashed, or there is a trap. */
  ghost predicate Broken(st: State) {
    st.crashed || exists s :: Trap(st, s)
  }

  /** The loop takes the removal of a subscription that is not registered: it comes too early, or a second time. */
  ghost predicate Stray(st: State, m: Move) {
    m.TakeUnsub? && !st.crashed && !st.stopped && st.unsubQ != [] && st.unsubQ[0] !in st.subs
  }

  /** Every removal is taken while its subscription is registered. */
  ghost predicate Disciplined(cap: nat, moves: seq<Move>) {
    moves == [] ||
    (Disciplined(cap, moves[..|moves| - 1]) && !Stray(Run(cap, moves[..|moves| - 1]), moves[|moves| - 1]))
  }

  lemma OfferFaithful(taken: seq<Event>, c: Chan, e: Event)
    requires Faithful(taken, c)
    ensures Faithful(taken + [e], Offer(c, e, |taken|)) && Faithful(taken + [e], c)
  {
    var t := taken + [e];
    assert Pick(t, c.kept) == Pick(taken, c.kept);
    if |c.buffer| < CHANNEL_CAPACITY {
      var o := Offer(c, e, |taken|);
      assert Pick(t, o.kept) == Pick(t, c.kept) + [e];
      assert o.got + o.buffer == (c.got + c.buffer) + [e];
    }
  }

  lemma TakeSubKeepsPlaced(cap: nat, st: State)
    requires Placed(st)
    ensures Placed(Step(cap, st, TakeSub))
  {
    if st.subQ != [] {
      assert st.subQ == [st.subQ[0]] + st.subQ[1..];
    }
  }

  lemma TakeUnsubKeepsPlaced(cap: nat, st: State)
    requires Placed(st)
    ensures Placed(Step(cap, st, TakeUnsub))
  {
  }

  lemma StepKeepsPlaced(cap: nat, st: State, m: Move)
    requires Placed(st)
    ensures Placed(Step(cap, st, m))
  {
    match m
    case TakeSub => TakeSubKeepsPlaced(cap, st);
    case TakeUnsub => TakeUnsubKeepsPlaced(cap, st);
    case _ =>
  }

  /** A step opens a channel, moves an event from it to the subscriber or closes it, or offers it the event taken. */
  lemma ChannelStep(cap: nat, st: State, m: Move, s: nat)
    requires s in Step(cap, st, m).chans
    ensures
      var next := Step(cap, st, m);
      var d := next.chans[s];
      if s !in st.chans then d == OPEN && next.taken == st.taken
      else
        var c := st.chans[s];
        if next.taken == st.taken
        then d.kept == c.kept && d.got + d.buffer == c.got + c.buffer && |d.buffer| <= |c.buffer|
        else st.eventQ != [] && next.taken == st.taken + [st.eventQ[0]]
             && d == if s in st.subs then Offer(c, st.eventQ[0], |st.taken|) else c
  {
    if m.Receive? && s in st.chans && st.chans[s].buffer != [] {
      var b := st.chans[s].buffer;
      assert b == [b[0]] + b[1..];
    }
  }

  lemma SameEvents(taken: seq<Event>, c: Chan, d: Chan)
    requires Faithful(taken, c) && d.kept == c.kept && d.got + d.buffer == c.got + c.buffer && |d.buffer| <= |c.buffer|
    ensures Faithful(taken, d)
  {
  }

  lemma StepKeepsFaithful(cap: nat, st: State, m: Move)
    requires AllFaithful(st)
    ensures AllFaithful(Step(cap, st, m))
  {
    var next := Step(cap, st, m);
    forall s | s in next.chans ensures Faithful(next.taken, next.chans[s]) {
      ChannelStep(cap, st, m, s);
      if s !in st.chans {
      } else if next.taken == st.taken {
        SameEvents(st.taken, st.chans[s], next.chans[s]);
      } else {
        OfferFaithful(st.taken, st.chans[s], st.eventQ[0]);
      }
    }
  }

  lemma StepBreaks(cap: nat, st: State, m: Move)
    requires Placed(st)
    ensures Broken(Step(cap, st, m)) <==> Broken(st) || Stray(st, m)
  {
    var next := Step(cap, st, m);
    if Deadly(st.subs, st.chans) {
      var s :| s in st.subs && s in st.chans && st.chans[s].closed;
      assert Trap(st, s);
    }
    if m.TakeUnsub? && next != st {
      var s := st.unsubQ[0];
      assert next.crashed && s in st.subs ==> Trap(st, s);
      assert !next.crashed ==> (Trap(next, s) <==> s !in st.subs);
      assert forall t | t != s :: Trap(next, t) <==> Trap(st, t);
    } else {
      assert !next.crashed ==> forall s :: Trap(next, s) <==> Trap(st, s);
    }
  }

  /**
    In every run each subscriber's events are an ordered subsequence of those taken, which in turn are the
    first of those sent; and the process can only come to harm by taking a removal that is early or repeated.
   */
  lemma {:induction false} EveryRun(cap: nat, moves: seq<Move>)
    ensures Inv(Run(cap, moves))
    ensures Broken(Run(cap, moves)) <==> !Disciplined(cap, moves)
  {
    if moves != [] {
      var before, m := moves[..|moves| - 1], moves[|moves| - 1];
      EveryRun(cap, before);
      StepKeepsPlaced(cap, Run(cap, before), m);
      StepKeepsFaithful(cap, Run(cap, before), m);
      StepBreaks(cap, Run(cap, before), m);
    }
  }

  /** With that discipline the process survives: nothing is sent on a closed channel, and no channel is closed twice. */
  lemma DisciplinedSurvives(cap: nat, moves: seq<Move>)
    requires Disciplined(cap, moves)
    ensures !Run(cap, moves).crashed
  {
    EveryRun(cap, moves);
  }

  /** The loop takes the first `n` waiting registrations. */
  function Takes(n: nat): seq<Move> {
    if n == 0 then [] else Takes(n - 1) + [TakeSub]
  }

  /** The state after the first `n` waiting registrations were taken. */
  ghost predicate TookSubs(st: State, next: State, n: nat)
    requires n <= |st.subQ|
  {
    && !next.stopped && !next.crashed && next.chans == st.chans && next.subQ == st.subQ[n..]
    && forall s :: s in next.subs <==> s in st.subs || s in st.subQ[..n]
  }

  lemma TakeOneSub(cap: nat, st: State, mid: State, n: nat)
    requires n < |st.subQ| && TookSubs(st, mid, n)
    ensures TookSubs(st, Step(cap, mid, TakeSub), n + 1)
  {
    assert mid.subQ[0] == st.subQ[n] && mid.subQ[1..] == st.subQ[n + 1..];
    assert st.subQ[..n + 1] == st.subQ[..n] + [st.subQ[n]];
  }

  lemma {:induction false} TakeAllSubs(cap: nat, st: State, n: nat)
    requires !st.stopped && !st.crashed && n <= |st.subQ|
    ensures TookSubs(st, RunFrom(cap, st, Takes(n)), n)
  {
    if n > 0 {
      TakeAllSubs(cap, st, n - 1);
      OneMore(Stepper(cap), st, Takes(n - 1), TakeSub);
      TakeOneSub(cap, st, RunFrom(cap, st, Takes(n - 1)), n - 1);
    }
  }

  lemma {:induction false} CrashIsFinal(cap: nat, st: State, moves: seq<Move>)
    requires st.crashed
    ensures RunFrom(cap, st, moves) == st
  {
    if moves != [] {
      CrashIsFinal(cap, st, moves[..|moves| - 1]);
    }
  }

  /**
    The discipline is exact: while the loop runs, taking the waiting registrations and then stopping it brings the
    process down if and only if some removal was taken early or twice.
   */
  lemma CrashesExactly(cap: nat, moves: seq<Move>)
    requires !Run(cap, moves).stopped
    ensures
      var st := Run(cap, moves);
      RunFrom(cap, st, Takes(|st.subQ|) + [Cancel]).crashed <==> !Disciplined(cap, moves)
  {
    EveryRun(cap, moves);
    var st := Run(cap, moves);
    if st.crashed {
      CrashIsFinal(cap, st, Takes(|st.subQ|) + [Cancel]);
    } else {
      TakeAllSubs(cap, st, |st.subQ|);
      OneMore(Stepper(cap), st, Takes(|st.subQ|), Cancel);
      var settled := RunFrom(cap, st, Takes(|st.subQ|));
      assert forall s :: Trap(st, s) <==> s in settled.subs && s in settled.chans && settled.chans[s].closed;
      assert Deadly(settled.subs, settled.chans) <==> exists s :: Trap(st, s);
    }
  }

  /** The removal of a waiting subscription is taken first: its closed channel gets registered. */
  lemma EarlyRemoval(cap: nat, st: State, s: nat)
    requires !st.crashed && !st.stopped && s in st.chans && !st.chans[s].closed
    requires st.subQ == [s] && st.unsubQ == [s]
    ensures
      var next := Step(cap, Step(cap, st, TakeUnsub), TakeSub);
      && !next.crashed && !next.stopped && next.eventQ == st.eventQ
      && s in next.subs && s in next.chans && next.chans[s].closed
  {
  }

  lemma SendToClosed(cap: nat, st: State, s: nat, e: Event)
    requires cap > 0 && !st.crashed && !st.stopped && st.eventQ == []
    requires s in st.subs && s in st.chans && st.chans[s].closed
    ensures Step(cap, Step(cap, st, Send(e)), TakeEvent).crashed
  {
  }

  /** One subscription, removed once, and the removal overtakes the registration: the next event ends the process. */
  lemma OvertakenRemovalCrashes(cap: nat, e: Event)
    requires cap > 0
    ensures Run(cap, [Subscribe(0), Unsubscribe(0), TakeUnsub, TakeSub, Send(e), TakeEvent]).crashed
  {
    SixMoves(Stepper(cap), INITIAL, Subscribe(0), Unsubscribe(0), TakeUnsub, TakeSub, Send(e), TakeEvent);
    var waiting := Step(cap, Step(cap, INITIAL, Subscribe(0)), Unsubscribe(0));
    EarlyRemoval(cap, waiting, 0);
    SendToClosed(cap, Step(cap, Step(cap, waiting, TakeUnsub), TakeSub), 0, e);
  }

  // ---- Exactly which events a subscriber gets ----

  /** Later steps keep only later events, and forget no subscription. */
  lemma LaterStep(cap: nat, st: State, m: Move, at: nat, s: nat)
    requires at < |st.taken|
    ensures at < |Step(cap, st, m).taken| && (s in st.chans ==> s in Step(cap, st, m).chans)
    ensures s in Step(cap, st, m).chans && at in Step(cap, st, m).chans[s].kept <==>
            s in st.chans && at in st.chans[s].kept
  {
    if s in Step(cap, st, m).chans {
      ChannelStep(cap, st, m, s);
    }
  }

  lemma {:induction false} LaterSteps(cap: nat, st: State, moves: seq<Move>, at: nat, s: nat)
    requires at < |st.taken|
    ensures
      var end := RunFrom(cap, st, moves);
      && at < |end.taken|
      && (s in end.chans && at in end.chans[s].kept <==> s in st.chans && at in st.chans[s].kept)
  {
    if moves != [] {
      var n := |moves| - 1;
      LaterSteps(cap, st, moves[..n], at, s);
      LaterStep(cap, RunFrom(cap, st, moves[..n]), moves[n], at, s);
    }
  }

  /**
    In every run, the event that the loop takes next is in the end kept for a subscriber exactly if the subscriber is
    registered at that moment and its channel has room.
   */
  lemma KeptExactly(cap: nat, before: seq<Move>, after: seq<Move>, s: nat)
    requires Step(cap, Run(cap, before), TakeEvent).taken != Run(cap, before).taken
    ensures
      var st := Run(cap, before);
      var end := RunFrom(cap, Step(cap, st, TakeEvent), after);
      (s in end.chans && |st.taken| in end.chans[s].kept)
      <==> (s in st.subs && s in st.chans && |st.chans[s].buffer| < CHANNEL_CAPACITY)
  {
    var st := Run(cap, before);
    var next := Step(cap, st, TakeEvent);
    EveryRun(cap, before);
    LaterSteps(cap, next, after, |st.taken|, s);
    if s in next.chans {
      ChannelStep(cap, st, TakeEvent, s);
    }
  }

  /** Stopping closes every registered channel and registers none any more. */
  lemma StopCloses(cap: nat, st: State)
    requires !st.crashed && !st.stopped && !Step(cap, st, Cancel).crashed && st.subs <= st.chans.Keys
    ensures
      var next := Step(cap, st, Cancel);
      && next.stopped && next.subs == {} && next.chans.Keys == st.chans.Keys
      && forall s <- st.chans ::
           next.chans[s].closed == (st.chans[s].closed || s in st.subs) && next.chans[s].buffer == st.chans[s].buffer
  {
  }

  /** After that nothing is registered, removed or delivered, and nothing can bring the process down. */
  lemma {:induction false} StoppedStays(cap: nat, st: State, moves: seq<Move>)
    requires st.stopped && !st.crashed
    ensures
      var end := RunFrom(cap, st, moves);
      && end.stopped && !end.crashed && end.subs == st.subs && end.taken == st.taken
      && forall s <- st.chans ::
           s in end.chans && end.chans[s].closed == st.chans[s].closed && end.chans[s].kept == st.chans[s].kept
  {
    if moves != [] {
      StoppedStays(cap, st, moves[..|moves| - 1]);
    }
  }

  // ---- Exactly which events are accepted ----

  /** The events that the moves send, in order. */
  function EventsIn(moves: seq<Move>): seq<Event> {
    if moves == [] then []
    else
      var last := moves[|moves| - 1];
      EventsIn(moves[..|moves| - 1]) + if last.Send? then [last.event] else []
  }

  /** The first events, as many as there are free places in the queue. */
  function FirstThatFit(cap: nat, queue: seq<Event>, events: seq<Event>): seq<Event> {
    if |queue| + |events| <= cap then events else if |queue| < cap then events[..cap - |queue|] else []
  }

  /** A step other than taking an event adds at most the event it sends. */
  lemma AcceptedInStep(cap: nat, st: State, m: Move)
    requires m != TakeEvent && !Step(cap, st, m).crashed
    ensures
      var next, accepted := Step(cap, st, m), if m.Send? && |st.eventQ| < cap then [m.event] else [];
      && !st.crashed && next.taken == st.taken
      && next.sent == st.sent + accepted && next.eventQ == st.eventQ + accepted
  {
  }

  lemma OneMoreFits(cap: nat, queue: seq<Event>, events: seq<Event>, e: Event)
    ensures
      var accepted := FirstThatFit(cap, queue, events);
      FirstThatFit(cap, queue, events + [e]) == accepted + if |queue + accepted| < cap then [e] else []
  {
  }

  /**
    Of all events sent before the loop takes one, whatever else happens in between,
    exactly the first that fit enter the queue, and none behind them.
   */
  lemma {:induction false} AcceptedExactly(cap: nat, st: State, moves: seq<Move>)
    requires TakeEvent !in moves && !RunFrom(cap, st, moves).crashed
    ensures
      var end, accepted := RunFrom(cap, st, moves), FirstThatFit(cap, st.eventQ, EventsIn(moves));
      end.sent == st.sent + accepted && end.eventQ == st.eventQ + accepted && end.taken == st.taken
  {
    if moves != [] {
      var front, last := moves[..|moves| - 1], moves[|moves| - 1];
      assert last in moves;
      AcceptedInStep(cap, RunFrom(cap, st, front), last);
      AcceptedExactly(cap, st, front);
      if last.Send? {
        OneMoreFits(cap, st.eventQ, EventsIn(front), last.event);
      }
      hide Step, FirstThatFit;
    }
  }

  lemma {:induction false} SentGrows(cap: nat, st: State, moves: seq<Move>)
    ensures st.sent <= RunFrom(cap, st, moves).sent
  {
    if moves != [] {
      SentGrows(cap, st, moves[..|moves| - 1]);
    }
  }

  lemma {:induction false} TakenGrows(cap: nat, st: State, moves: seq<Move>)
    ensures st.taken <= RunFrom(cap, st, moves).taken
  {
    if moves != [] {
      TakenGrows(cap, st, moves[..|moves| - 1]);
    }
  }

  /**
    An event that finds a free place is, when the loop comes to it, kept for a subscriber
    exactly if the subscriber is registered then and its channel has room.
   */
  lemma SentIsKeptExactly(cap: nat, before: seq<Move>, e: Event, between: seq<Move>, after: seq<Move>, s: nat)
    requires !Run(cap, before).crashed && |Run(cap, before).eventQ| < cap
    requires
      var mid := Run(cap, before + [Send(e)] + between);
      |mid.taken| == |Run(cap, before).sent| && Step(cap, mid, TakeEvent).taken != mid.taken
    ensures
      var at, mid := |Run(cap, before).sent|, Run(cap, before + [Send(e)] + between);
      var end := RunFrom(cap, Step(cap, mid, TakeEvent), after);
      && at < |end.taken| && end.taken[at] == e
      && ((s in end.chans && at in end.chans[s].kept)
          <==> (s in mid.subs && s in mid.chans && |mid.chans[s].buffer| < CHANNEL_CAPACITY))
  {
    var moves := before + [Send(e)] + between;
    var at, mid := |Run(cap, before).sent|, Run(cap, moves);
    var end := RunFrom(cap, Step(cap, mid, TakeEvent), after);
    OneMore(Stepper(cap), INITIAL, before, Send(e));
    InParts(Stepper(cap), INITIAL, before + [Send(e)], between);
    SentGrows(cap, Run(cap, before + [Send(e)]), between);
    assert mid.sent[at] == e;
    EveryRun(cap, moves);
    KeptExactly(cap, moves, after, s);
    TakenGrows(cap, Step(cap, mid, TakeEvent), after);
  }

  // ---- The broadcaster itself ----

  /** Nothing is known about a crashed process but that it has crashed. */
  ghost predicate Same(a: State, b: State) {
    a.crashed == b.crashed && (!a.crashed ==> a == b)
  }

  class Broadcaster {
    const bufferSize: nat
    var subs: set<nat>
    var chans: map<nat, Chan>
    var subQ: seq<nat>
    var unsubQ: seq<nat>
    var eventQ: seq<Event>
    var stopped: bool
    var crashed: bool
    ghost var taken: seq<Event>
    ghost var sent: seq<Event>
    var count: nat

    ghost function Now(): State
      reads this
    {
      State(subs, chans, subQ, unsubQ, eventQ, stopped, crashed, taken, sent)
    }

    constructor (bufferSize: nat)
      ensures Now() == INITIAL && this.bufferSize == bufferSize && count == 0
    {
      this.bufferSize := bufferSize;
      subs, chans, subQ, unsubQ, eventQ := {}, map[], [], [], [];
      stopped, crashed, taken, sent, count := false, false, [], [], 0;
    }

    /** Never blocks: an event that does not fit into the queue is dropped. */
    method Send(event: Event)
      requires !crashed
      modifies this
      ensures Now() == Step(bufferSize, old(Now()), Move.Send(event)) && count == old(count)
      ensures eventQ == if |old(eventQ)| < bufferSize then old(eventQ) + [event] else old(eventQ)
      ensures subs == old(subs) && chans == old(chans) && subQ == old(subQ) && unsubQ == old(unsubQ)
    {
      if |eventQ| < bufferSize {
        eventQ, sent := eventQ + [event], sent + [event];
      }
    }

    /** Hands out a channel and queues its registration; while the queue is full, the caller waits. */
    method Subscribe(s: nat)
      requires !crashed
      modifies this
      ensures Now() == Step(bufferSize, old(Now()), Move.Subscribe(s)) && count == old(count)
      ensures s !in old(chans) && |old(subQ)| < bufferSize ==>
                subQ == old(subQ) + [s] && chans == old(chans)[s := Chan([], false, [], [])]
      ensures s in old(chans) || |old(subQ)| >= bufferSize ==> subQ == old(subQ) && chans == old(chans)
    {
      if s !in chans && |subQ| < bufferSize {
        chans, subQ := chans[s := OPEN], subQ + [s];
      }
    }

    method Unsubscribe(s: nat)
      requires !crashed
      modifies this
      ensures Now() == Step(bufferSize, old(Now()), Move.Unsubscribe(s)) && count == old(count)
      ensures unsubQ == if s in chans && |old(unsubQ)| < bufferSize then old(unsubQ) + [s] else old(unsubQ)
    {
      if s in chans && |unsubQ| < bufferSize {
        unsubQ := unsubQ + [s];
      }
    }

    /** The subscriber takes the oldest event from its channel. */
    method Receive(s: nat)
      requires !crashed
      modifies this
      ensures Now() == Step(bufferSize, old(Now()), Move.Receive(s)) && count == old(count)
      ensures s in old(chans) && old(chans)[s].buffer != [] ==>
                && s in chans && chans[s].buffer == old(chans)[s].buffer[1..]
                && chans[s].got == old(chans)[s].got + [old(chans)[s].buffer[0]]
    {
      if s in chans && chans[s].buffer != [] {
        var c := chans[s];
        chans := chans[s := c.(buffer := c.buffer[1..], got := c.got + [c.buffer[0]])];
      }
    }

    /** Offers an event to every registered channel, one after the other. */
    method Deliver(event: Event)
      requires !crashed && count == |taken|
      modifies this`chans, this`crashed
      ensures crashed <==> Deadly(old(subs), old(chans))
      ensures !crashed ==> chans == OfferAll(old(Now()), event)
    {
      ghost var before := Now();
      var rest := subs;
      while rest != {}
        invariant rest <= subs && !crashed
        invariant forall s | s in subs - rest && s in before.chans :: !before.chans[s].closed
        invariant chans == map s | s in before.chans ::
                             if s in subs - rest then Offer(before.chans[s], event, count) else before.chans[s]
        decreases rest
      {
        var s :| s in rest;
        rest := rest - {s};
        if s in chans {
          if chans[s].closed {
            crashed := true;
            return;
          }
          chans := chans[s := Offer(chans[s], event, count)];
        }
      }
    }

    method CloseRegistered()
      requires !crashed
      modifies this`chans, this`crashed
      ensures crashed <==> Deadly(old(subs), old(chans))
      ensures !crashed ==> chans == CloseAll(old(Now()))
    {
      ghost var before := Now();
      var rest := subs;
      while rest != {}
        invariant rest <= subs && !crashed
        invariant forall s | s in subs - rest && s in before.chans :: !before.chans[s].closed
        invariant chans == map s | s in before.chans ::
                             if s in subs - rest then before.chans[s].(closed := true) else before.chans[s]
        decreases rest
      {
        var s :| s in rest;
        rest := rest - {s};
        if s in chans {
          if chans[s].closed {
            crashed := true;
            return;
          }
          chans := chans[s := chans[s].(closed := true)];
        }
      }
    }

    /** One round of the loop's select. */
    method Select(choice: Move)
      requires choice.TakeSub? || choice.TakeUnsub? || choice.TakeEvent? || choice.Cancel?
      requires !crashed && count == |taken|
      modifies this
      ensures Same(Now(), Step(bufferSize, old(Now()), choice)) && (!crashed ==> count == |taken|)
    {
      if stopped {
        return;
      }
      match choice
      case Cancel =>
        CloseRegistered();
        if !crashed {
          subs, stopped := {}, true;
        }
      case TakeSub =>
        if subQ != [] {
          subs, subQ := subs + {subQ[0]}, subQ[1..];
        }
      case TakeUnsub =>
        if unsubQ != [] && unsubQ[0] in chans {
          var s := unsubQ[0];
          unsubQ, subs := unsubQ[1..], subs - {s};
          if chans[s].closed {
            crashed := true;
          } else {
            chans := chans[s := chans[s].(closed := true)];
          }
        }
      case TakeEvent =>
        if eventQ != [] {
          Deliver(eventQ[0]);
          taken := taken + [eventQ[0]];
          eventQ, count := eventQ[1..], count + 1;
        }
      case _ =>
    }

    /** The loop and its clients, interleaved in any way. */
    method Run(moves: seq<Move>)
      requires !crashed && count == |taken|
      modifies this
      ensures Same(Now(), RunFrom(bufferSize, old(Now()), moves))
    {
      ghost var start := Now();
      var i := 0;
      while i < |moves|
        invariant 0 <= i <= |moves| && !crashed && count == |taken|
        invariant Now() == RunFrom(bufferSize, start, moves[..i])
      {
        OneMore(Stepper(bufferSize), start, moves[..i], moves[i]);
        assert moves[..i + 1] == moves[..i] + [moves[i]];
        match moves[i] {
          case Subscribe(s) => Subscribe(s);
          case Unsubscribe(s) => Unsubscribe(s);
          case Send(e) => Send(e);
          case Receive(s) => Receive(s);
          case _ => Select(moves[i]);
        }
        i := i + 1;
        if crashed {
          StaysCrashed(bufferSize, start, moves, i);
          return;
        }
      }
      assert moves[..|moves|] == moves;
    }
  }

  lemma {:induction false} StaysCrashed(cap: nat, st: State, moves: seq<Move>, n: nat)
    requires n <= |moves| && RunFrom(cap, st, moves[..n]).crashed
    ensures RunFrom(cap, st, moves).crashed
  {
    if n < |moves| {
      assert moves[..|moves| - 1][..n] == moves[..n];
      StaysCrashed(cap, st, moves[..|moves| - 1], n);
    } else {
      assert moves[..n] == moves;
    }
  }
}
