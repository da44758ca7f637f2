/**
  The instance lifecycle loop of the QEMU service: one loop owns the instance table, and one watcher per
  registered instance tells it, by id only, when the instance has stopped.
 */
module Lifecycle {
  import opened Runs
  import opened Wrappers

  // ---- The loop: what one received message does ----

  /** The channels the loop selects from. Instances are numbered in the order of their registration. */
  datatype Message =
    | Removal(id: string)
    | ForceStop(id: string)
    | Command(id: string)
    | Register(id: string, inst: nat)
    | Shutdown

  datatype Reply = Executed(inst: nat) | NotRunning

  datatype LoopState = LoopState(
    instances: map<string, nat>,
    cancelled: set<nat>,        // instances whose monitoring context was cancelled
    killed: seq<nat>,           // instances told to stop, in order
    running: bool)

  function Handle(s: LoopState, m: Message): LoopState {
    if !s.running then s
    else
      match m
      case Removal(id) =>
        if id in s.instances
        then s.(instances := s.instances - {id}, cancelled := s.cancelled + {s.instances[id]})
        else s
      case ForceStop(id) =>
        if id in s.instances
        then s.(instances := s.instances - {id}, cancelled := s.cancelled + {s.instances[id]},
             killed := s.killed + [s.instances[id]])
        else s
      case Command(_) => s
      case Register(id, inst) => s.(instances := s.instances[id := inst])
      case Shutdown => s.(cancelled := s.cancelled + s.instances.Values, running := false)
  }

  function ReplyTo(s: LoopState, id: string): Reply {
    if id in s.instances then Executed(s.instances[id]) else NotRunning
  }

  function HandleAll(s: LoopState, ms: seq<Message>): LoopState {
    Fold(Handle, s, ms)
  }

  /** The replies owed for the commands among the messages: one each, while the loop runs. */
  function RepliesTo(s: LoopState, ms: seq<Message>): seq<Reply> {
    if ms == [] then []
    else
      var front, last := ms[..|ms| - 1], ms[|ms| - 1];
      RepliesTo(s, front) +
      if last.Command? && HandleAll(s, front).running then [ReplyTo(HandleAll(s, front), last.id)] else []
  }

  lemma {:induction false} HandleAllStopped(s: LoopState, ms: seq<Message>)
    requires !s.running
    ensures HandleAll(s, ms) == s && RepliesTo(s, ms) == []
  {
    if ms != [] {
      HandleAllStopped(s, ms[..|ms| - 1]);
    }
  }

  lemma {:induction false} HandleAllConcat(s: LoopState, a: seq<Message>, b: seq<Message>)
    ensures HandleAll(s, a + b) == HandleAll(HandleAll(s, a), b)
    ensures RepliesTo(s, a + b) == RepliesTo(s, a) + RepliesTo(HandleAll(s, a), b)
  {
    if b == [] {
      assert a + b == a;
    } else {
      HandleAllConcat(s, a, b[..|b| - 1]);
      assert (a + b)[..|a + b| - 1] == a + b[..|b| - 1];
    }
  }

  lemma NextMessage(s: LoopState, ms: seq<Message>, n: nat)
    requires n < |ms|
    ensures HandleAll(s, ms[..n + 1]) == Handle(HandleAll(s, ms[..n]), ms[n])
    ensures
      var before := HandleAll(s, ms[..n]);
      RepliesTo(s, ms[..n + 1]) ==
      RepliesTo(s, ms[..n]) + if ms[n].Command? && before.running then [ReplyTo(before, ms[n].id)] else []
  {
    assert ms[..n + 1][..n] == ms[..n];
  }

  lemma NothingAfterShutdown(s: LoopState, ms: seq<Message>, n: nat)
    requires n <= |ms| && !HandleAll(s, ms[..n]).running
    ensures HandleAll(s, ms) == HandleAll(s, ms[..n]) && RepliesTo(s, ms) == RepliesTo(s, ms[..n])
  {
    assert ms == ms[..n] + ms[n..];
    HandleAllConcat(s, ms[..n], ms[n..]);
    HandleAllStopped(HandleAll(s, ms[..n]), ms[n..]);
  }

  class LifecycleLoop {
    var instances: map<string, nat>
    var cancelled: set<nat>
    var killed: seq<nat>
    var running: bool

    constructor ()
      ensures Now() == LoopState(map[], {}, [], true)
    {
      instances, cancelled, killed, running := map[], {}, [], true;
    }

    ghost function Now(): LoopState
      reads this
    {
      LoopState(instances, cancelled, killed, running)
    }

    method CancelAll()
      modifies this`cancelled
      ensures cancelled == old(cancelled) + instances.Values
    {
      var rest := instances.Keys;
      while rest != {}
        invariant rest <= instances.Keys
        invariant cancelled == old(cancelled) + set id | id in instances && id !in rest :: instances[id]
        decreases rest
      {
        var id :| id in rest;
        rest := rest - {id};
        cancelled := cancelled + {instances[id]};
      }
      assert forall inst <- instances.Values :: exists id :: id in instances && instances[id] == inst;
    }

    /** Serves messages until it is told to stop or none is left. */
    method Run(messages: seq<Message>) returns (replies: seq<Reply>)
      requires running
      modifies this
      ensures Now() == HandleAll(old(Now()), messages)
      ensures replies == RepliesTo(old(Now()), messages)
    {
      replies := [];
      assert HandleAll(Now(), messages[..0]) == Now() && RepliesTo(Now(), messages[..0]) == [];
      hide HandleAll, RepliesTo;
      var i := 0;
      while i < |messages|
        invariant 0 <= i <= |messages| && running
        invariant Now() == HandleAll(old(Now()), messages[..i])
        invariant replies == RepliesTo(old(Now()), messages[..i])
      {
        NextMessage(old(Now()), messages, i);
        ghost var before := Now();
        match messages[i] {
          case Shutdown =>
            CancelAll();
            running := false;
            NothingAfterShutdown(old(Now()), messages, i + 1);
            return;
          case Removal(id) =>
            if id in instances {
              cancelled := cancelled + {instances[id]};
            }
            instances := instances - {id};
          case ForceStop(id) =>
            if id in instances {
              cancelled := cancelled + {instances[id]};
              killed := killed + [instances[id]];
              instances := instances - {id};
            }
          case Command(id) =>
            replies := replies + [if id in instances then Executed(instances[id]) else NotRunning];
          case Register(id, inst) =>
            instances := instances[id := inst];
        }
        assert Now() == Handle(before, messages[i]);
        i := i + 1;
      }
      assert messages[..|messages|] == messages;
    }
  }

  // ---- The loop together with the watchers ----

  datatype Phase = Waiting | Draining | Sending | Finished

  /** A watcher with its instance: `exited` tells whether the instance's Done channel is closed. */
  datatype Watcher = Watcher(id: string, phase: Phase, exited: bool)

  datatype Service = Service(
    loop: LoopState,
    watchers: seq<Watcher>,
    forced: set<nat>)           // instances dropped from the table by a force stop

  datatype Move =
    | TakeRegister(id: string)
    | TakeRemoval(w: nat)
    | TakeForceStop(id: string)
    | TakeCommand(id: string)
    | TakeShutdown
    | Exit(w: nat)              // the instance stops
    | GiveUp(w: nat)            // the watcher's context ends, or adding the instance to the monitor failed
    | Notice(w: nat)            // the watcher sees Done closed and turns to sending

  const START := Service(LoopState(map[], {}, [], true), [], {})

  /** The message the loop receives in a move, if any. */
  function Received(s: Service, move: Move): Option<Message> {
    match move
    case TakeRegister(id) => Some(Register(id, |s.watchers|))
    case TakeRemoval(w) =>
      if w < |s.watchers| && s.watchers[w].phase == Sending then Some(Removal(s.watchers[w].id)) else None
    case TakeForceStop(id) => Some(ForceStop(id))
    case TakeCommand(id) => Some(Command(id))
    case TakeShutdown => Some(Shutdown)
    case _ => None
  }

  function Next(s: Service, move: Move): Service {
    var received := Received(s, move);
    if received.Some? && !s.loop.running then s
    else
      Service(if received.Some? then Handle(s.loop, received.value) else s.loop,
              WatchersAfter(s.watchers, move),
              if move.TakeForceStop? && move.id in s.loop.instances then s.forced + {s.loop.instances[move.id]}
              else s.forced)
  }

  function WatchersAfter(ws: seq<Watcher>, move: Move): seq<Watcher> {
    match move
    case TakeRegister(id) => ws + [Watcher(id, Waiting, false)]
    case TakeRemoval(w) => if w < |ws| && ws[w].phase == Sending then ws[w := ws[w].(phase := Finished)] else ws
    case Exit(w) => if w < |ws| then ws[w := ws[w].(exited := true)] else ws
    case GiveUp(w) => if w < |ws| && ws[w].phase == Waiting then ws[w := ws[w].(phase := Draining)] else ws
    case Notice(w) =>
      if w < |ws| && ws[w].exited && (ws[w].phase == Waiting || ws[w].phase == Draining)
      then ws[w := ws[w].(phase := Sending)] else ws
    case _ => ws
  }

  function Run(moves: seq<Move>): Service {
    Fold(Next, START, moves)
  }

  // ---- The table holds exactly the ids registered, not force-stopped and not yet removed ----

  predicate Pending(s: Service, w: nat) {
    w < |s.watchers| && s.watchers[w].phase != Finished
  }

  ghost predicate Exact(s: Service) {
    && (forall id <- s.loop.instances ::
          Pending(s, s.loop.instances[id]) && s.loop.instances[id] !in s.forced
          && s.watchers[s.loop.instances[id]].id == id)
    && (forall w: nat | Pending(s, w) && w !in s.forced ::
          s.watchers[w].id in s.loop.instances && s.loop.instances[s.watchers[w].id] == w)
  }

  /** Holds in every run: numbers are in range, and only exited instances are reported as removed. */
  ghost predicate Basic(s: Service) {
    && (forall id <- s.loop.instances ::
          s.loop.instances[id] < |s.watchers| && s.watchers[s.loop.instances[id]].id == id)
    && (forall w <- s.forced :: w < |s.watchers|)
    && (forall w | 0 <= w < |s.watchers| ::
          s.watchers[w].phase == Sending || s.watchers[w].phase == Finished ==> s.watchers[w].exited)
  }

  lemma {:induction false} BasicInEveryRun(moves: seq<Move>)
    ensures Basic(Run(moves))
  {
    if moves != [] {
      BasicInEveryRun(moves[..|moves| - 1]);
      StepKeepsBasic(Run(moves[..|moves| - 1]), moves[|moves| - 1]);
    }
  }

  lemma StepKeepsBasic(s: Service, move: Move)
    requires Basic(s)
    ensures Basic(Next(s, move))
  {
  }

  /** Between them, watchers of one id leave at most one removal outstanding. */
  ghost predicate OnePerId(s: Service) {
    forall v: nat, w: nat | Pending(s, v) && Pending(s, w) && s.watchers[v].id == s.watchers[w].id :: v == w
  }

  /** The id is registered only after the removals of its earlier watchers were taken. */
  predicate Fresh(s: Service, id: string) {
    forall w | 0 <= w < |s.watchers| :: s.watchers[w].id == id ==> s.watchers[w].phase == Finished
  }

  ghost predicate Disciplined(moves: seq<Move>) {
    forall i | 0 <= i < |moves| && moves[i].TakeRegister? :: Fresh(Run(moves[..i]), moves[i].id)
  }

  /**
    When one step ruins the table: an id is registered while an earlier instance of it is still in the table,
    or the late removal of a force-stopped instance drops the entry of the instance registered after it.
   */
  lemma BrokenExactly(s: Service, move: Move)
    requires Basic(s) && Exact(s) && s.loop.running
    ensures Exact(Next(s, move)) <==>
            && !(move.TakeRegister? && move.id in s.loop.instances)
            && !(move.TakeRemoval? && Received(s, move).Some? && move.w in s.forced
                 && s.watchers[move.w].id in s.loop.instances)
  {
    var s' := Next(s, move);
    match move
    case TakeRegister(id) =>
      if id in s.loop.instances {
        assert Pending(s', s.loop.instances[id]);
      } else {
        assert forall w: nat :: Pending(s', w) <==> Pending(s, w) || w == |s.watchers|;
      }
    case TakeRemoval(w) =>
      if Received(s, move).Some? {
        var id := s.watchers[w].id;
        assert forall v: nat :: Pending(s', v) <==> Pending(s, v) && v != w;
        if w in s.forced && id in s.loop.instances {
          assert Pending(s', s.loop.instances[id]);
        }
      }
    case _ =>
      assert forall w: nat :: Pending(s', w) <==> Pending(s, w);
  }

  /** The two ways to ruin the table, as the loop meets them. */
  predicate Breaking(s: Service, move: Move) {
    && s.loop.running
    && (|| (move.TakeRegister? && move.id in s.loop.instances)
        || (move.TakeRemoval? && Received(s, move).Some? && move.w in s.forced
            && s.watchers[move.w].id in s.loop.instances))
  }

  /** The table is exact after the first `n` moves. */
  ghost predicate ExactAfter(moves: seq<Move>, n: nat)
    requires n <= |moves|
  {
    Exact(Run(moves[..n]))
  }

  ghost predicate BreakingAt(moves: seq<Move>, n: nat)
    requires n < |moves|
  {
    Breaking(Run(moves[..n]), moves[n])
  }

  /** After the shutdown neither the table nor the removals taken change any more. */
  lemma ExactAfterShutdown(s: Service, move: Move)
    requires Exact(s) && !s.loop.running
    ensures Exact(Next(s, move))
  {
    assert forall w: nat :: Pending(Next(s, move), w) <==> Pending(s, w);
  }

  lemma ExactStep(moves: seq<Move>, n: nat)
    requires n < |moves| && ExactAfter(moves, n)
    ensures ExactAfter(moves, n + 1) <==> !BreakingAt(moves, n)
  {
    hide Exact, Next;
    assert moves[..n + 1][..n] == moves[..n];
    BasicInEveryRun(moves[..n]);
    if Run(moves[..n]).loop.running {
      BrokenExactly(Run(moves[..n]), moves[n]);
    } else {
      ExactAfterShutdown(Run(moves[..n]), moves[n]);
    }
  }

  /** In every run the table is exact throughout if and only if no move is a breaking one. */
  lemma {:induction false} ExactThroughout(moves: seq<Move>, n: nat)
    requires n <= |moves|
    ensures (forall i | 0 <= i <= n :: ExactAfter(moves, i)) <==> (forall i | 0 <= i < n :: !BreakingAt(moves, i))
  {
    assert moves[..0] == [] && ExactAfter(moves, 0);
    hide *;
    if n > 0 {
      ExactThroughout(moves, n - 1);
      if ExactAfter(moves, n - 1) {
        ExactStep(moves, n - 1);
      }
    }
  }

  lemma StepKeepsOnePerId(s: Service, move: Move)
    requires OnePerId(s) && (move.TakeRegister? ==> Fresh(s, move.id))
    ensures OnePerId(Next(s, move))
  {
    var s' := Next(s, move);
    forall v: nat, w: nat | Pending(s', v) && Pending(s', w) && s'.watchers[v].id == s'.watchers[w].id
      ensures v == w
    {
      assert v < |s.watchers| ==> Pending(s, v) && s.watchers[v].id == s'.watchers[v].id;
      assert w < |s.watchers| ==> Pending(s, w) && s.watchers[w].id == s'.watchers[w].id;
    }
  }

  lemma StepKeepsExact(s: Service, move: Move)
    requires Basic(s) && Exact(s) && OnePerId(s) && (move.TakeRegister? ==> Fresh(s, move.id))
    ensures Exact(Next(s, move))
  {
    if s.loop.running {
      assert forall id <- s.loop.instances :: Pending(s, s.loop.instances[id]);
      if move.TakeRemoval? && Received(s, move).Some? && s.watchers[move.w].id in s.loop.instances {
        assert Pending(s, move.w) && Pending(s, s.loop.instances[s.watchers[move.w].id]);
      }
      BrokenExactly(s, move);
    } else {
      assert forall w: nat :: Pending(Next(s, move), w) <==> Pending(s, w);
    }
  }

  lemma DisciplinedPrefix(moves: seq<Move>)
    requires Disciplined(moves) && moves != []
    ensures Disciplined(moves[..|moves| - 1])
    ensures moves[|moves| - 1].TakeRegister? ==> Fresh(Run(moves[..|moves| - 1]), moves[|moves| - 1].id)
  {
    var front := moves[..|moves| - 1];
    forall i | 0 <= i < |front| && front[i].TakeRegister?
      ensures Fresh(Run(front[..i]), front[i].id)
    {
      assert front[..i] == moves[..i];
    }
  }

  /** In every run that re-registers an id only after its earlier removals were taken, the table is exact. */
  lemma {:induction false} EveryDisciplinedRun(moves: seq<Move>)
    requires Disciplined(moves)
    ensures Basic(Run(moves)) && Exact(Run(moves)) && OnePerId(Run(moves))
  {
    BasicInEveryRun(moves);
    if moves != [] {
      var front := moves[..|moves| - 1];
      DisciplinedPrefix(moves);
      EveryDisciplinedRun(front);
      StepKeepsExact(Run(front), moves[|moves| - 1]);
      StepKeepsOnePerId(Run(front), moves[|moves| - 1]);
    }
  }

  /** The table's entry for the id is the w-th instance, which has not stopped. */
  predicate Live(s: Service, id: string, w: nat) {
    id in s.loop.instances && s.loop.instances[id] == w && w < |s.watchers| && !s.watchers[w].exited
  }

  /** In such a run the entry of a live instance is lost exactly by a force stop of its id. */
  lemma LiveInstanceKept(moves: seq<Move>, move: Move, id: string, w: nat)
    requires Disciplined(moves + [move])
    requires Live(Run(moves), id, w) && Run(moves).loop.running
    ensures
      var after := Next(Run(moves), move).loop.instances;
      (id in after && after[id] == w) <==> move != TakeForceStop(id)
  {
    assert (moves + [move])[..|moves|] == moves;
    DisciplinedPrefix(moves + [move]);
    EveryDisciplinedRun(moves);
    LiveKeptInStep(Run(moves), move, id, w);
  }

  lemma LiveKeptInStep(s: Service, move: Move, id: string, w: nat)
    requires Basic(s) && Exact(s) && OnePerId(s) && (move.TakeRegister? ==> Fresh(s, move.id))
    requires Live(s, id, w) && s.loop.running
    ensures
      var after := Next(s, move).loop.instances;
      (id in after && after[id] == w) <==> move != TakeForceStop(id)
  {
    assert Pending(s, w);
    if move.TakeRemoval? && Received(s, move).Some? {
      assert Pending(s, move.w);
    }
  }

  /**
    A command is executed on the instance of its id that is registered, not force-stopped
    and not yet removed; it is told "not running" exactly when there is none.
   */
  lemma ReplyMeaning(moves: seq<Move>, id: string)
    requires Disciplined(moves)
    ensures
      var s, reply := Run(moves), ReplyTo(Run(moves).loop, id);
      && (forall w: nat ::
            reply == Executed(w) <==> Pending(s, w) && w !in s.forced && s.watchers[w].id == id)
      && (reply == NotRunning <==> !exists w: nat :: Pending(s, w) && w !in s.forced && s.watchers[w].id == id)
  {
    EveryDisciplinedRun(moves);
    var s := Run(moves);
    if id in s.loop.instances {
      assert Pending(s, s.loop.instances[id]);
    }
  }

  /** What a force stop kills: the instance of its id that is registered, not force-stopped and not yet removed. */
  lemma ForceStopMeaning(moves: seq<Move>, id: string, w: nat)
    requires Disciplined(moves) && Run(moves).loop.running
    ensures
      var s, next := Run(moves), Next(Run(moves), TakeForceStop(id));
      && (next.loop.killed == s.loop.killed + [w] <==> Pending(s, w) && w !in s.forced && s.watchers[w].id == id)
      && (next.loop.killed == s.loop.killed <==> ReplyTo(s.loop, id) == NotRunning)
      && next.forced == set v <- next.loop.killed
  {
    ReplyMeaning(moves, id);
    ForcedAreKilled(moves);
    var killed := Run(moves).loop.killed;
    assert |killed + [w]| != |killed| && (killed + [w])[|killed|] == w;
  }

  /** In any run the instances dropped by a force stop are those that were killed. */
  lemma {:induction false} ForcedAreKilled(moves: seq<Move>)
    ensures Run(moves).forced == set w <- Run(moves).loop.killed
  {
    if moves != [] {
      ForcedAreKilled(moves[..|moves| - 1]);
    }
  }

  // ---- Removals and replies ----

  /** The messages the loop received in a run, in order. */
  function Messages(moves: seq<Move>): seq<Message> {
    if moves == [] then []
    else
      var front := moves[..|moves| - 1];
      var received := Received(Run(front), moves[|moves| - 1]);
      Messages(front) + if received.Some? && Run(front).loop.running then [received.value] else []
  }

  /** The loop's state in a run is what its code computes from the received messages alone. */
  lemma {:induction false} LoopSeesMessagesOnly(moves: seq<Move>)
    ensures Run(moves).loop == HandleAll(START.loop, Messages(moves))
  {
    if moves != [] {
      var front := moves[..|moves| - 1];
      LoopSeesMessagesOnly(front);
      var received := Received(Run(front), moves[|moves| - 1]);
      if received.Some? && Run(front).loop.running {
        assert Messages(moves)[..|Messages(moves)| - 1] == Messages(front);
      } else {
        assert Messages(moves) == Messages(front);
      }
    }
  }

  /** Which messages are commands that the loop takes while it runs. */
  function CommandsTaken(s: LoopState, ms: seq<Message>): (at: seq<nat>)
    ensures forall i | 0 <= i < |at| :: at[i] < |ms|
  {
    if ms == [] then []
    else
      var n := |ms| - 1;
      CommandsTaken(s, ms[..n]) + if ms[n].Command? && HandleAll(s, ms[..n]).running then [n] else []
  }

  /** These are all of them, in order. */
  lemma {:induction false} CommandsTakenExactly(s: LoopState, ms: seq<Message>, k: nat)
    requires k < |ms|
    ensures k in CommandsTaken(s, ms) <==> ms[k].Command? && HandleAll(s, ms[..k]).running
    ensures forall i, j | 0 <= i < j < |CommandsTaken(s, ms)| :: CommandsTaken(s, ms)[i] < CommandsTaken(s, ms)[j]
  {
    var n := |ms| - 1;
    if k < n {
      CommandsTakenExactly(s, ms[..n], k);
      assert ms[..n][..k] == ms[..k];
    } else if n > 0 {
      CommandsTakenExactly(s, ms[..n], 0);
    }
  }

  /** Each of them has exactly one reply, in order: what the table at that moment says about its id. */
  lemma {:induction false} OneReplyPerCommand(s: LoopState, ms: seq<Message>)
    ensures |RepliesTo(s, ms)| == |CommandsTaken(s, ms)|
    ensures forall i | 0 <= i < |CommandsTaken(s, ms)| ::
              var k := CommandsTaken(s, ms)[i];
              ms[k].Command? && RepliesTo(s, ms)[i] == ReplyTo(HandleAll(s, ms[..k]), ms[k].id)
  {
    if ms != [] {
      var n := |ms| - 1;
      OneReplyPerCommand(s, ms[..n]);
      assert forall k | 0 <= k <= n :: ms[..n][..k] == ms[..k];
    }
  }

  // ---- The same from the messages alone ----

  /** The message enters the id into the table or takes it out. */
  predicate Touches(m: Message, id: string) {
    (m.Register? || m.Removal? || m.ForceStop?) && m.id == id
  }

  /** The last of the messages that do so for the id registers this instance. */
  ghost predicate LastRegistered(ms: seq<Message>, id: string, inst: nat) {
    exists i :: 0 <= i < |ms| && ms[i] == Register(id, inst) && forall j | i < j < |ms| :: !Touches(ms[j], id)
  }

  lemma OneMoreMessage(ms: seq<Message>, id: string, inst: nat)
    requires ms != []
    ensures
      var front, last := ms[..|ms| - 1], ms[|ms| - 1];
      LastRegistered(ms, id, inst)
      <==> if Touches(last, id) then last == Register(id, inst) else LastRegistered(front, id, inst)
  {
    var front, last := ms[..|ms| - 1], ms[|ms| - 1];
    if i :| 0 <= i < |ms| && ms[i] == Register(id, inst) && forall j | i < j < |ms| :: !Touches(ms[j], id) {
      assert i < |front| ==> front[i] == ms[i] && forall j | i < j < |front| :: front[j] == ms[j];
    }
    if last == Register(id, inst) {
      assert ms[|ms| - 1] == last;
    }
    if LastRegistered(front, id, inst) && !Touches(last, id) {
      var i :| 0 <= i < |front| && front[i] == Register(id, inst)
               && forall j | i < j < |front| :: !Touches(front[j], id);
      assert ms[i] == front[i] && forall j | i < j < |ms| :: ms[j] == if j < |front| then front[j] else last;
    }
  }

  /** Until a shutdown the table holds, for each id, what was last registered and not taken out since. */
  lemma {:induction false} TableFromMessages(ms: seq<Message>, id: string, inst: nat)
    ensures HandleAll(START.loop, ms).running <==> Shutdown !in ms
    ensures Shutdown !in ms ==>
              var table := HandleAll(START.loop, ms).instances;
              (id in table && table[id] == inst <==> LastRegistered(ms, id, inst))
  {
    if ms != [] {
      var front, last := ms[..|ms| - 1], ms[|ms| - 1];
      assert ms == front + [last];
      TableFromMessages(front, id, inst);
      OneMoreMessage(ms, id, inst);
      hide LastRegistered;
    }
  }

  /** The commands that are answered, and on which instance each is executed, or that there is none. */
  lemma RepliesFromMessages(ms: seq<Message>, i: nat, inst: nat)
    requires i < |RepliesTo(START.loop, ms)|
    ensures |RepliesTo(START.loop, ms)| == |CommandsTaken(START.loop, ms)|
    ensures
      var k := CommandsTaken(START.loop, ms)[i];
      && ms[k].Command? && Shutdown !in ms[..k]
      && (RepliesTo(START.loop, ms)[i] == Executed(inst) <==> LastRegistered(ms[..k], ms[k].id, inst))
      && (RepliesTo(START.loop, ms)[i] == NotRunning <==> !exists n: nat :: LastRegistered(ms[..k], ms[k].id, n))
  {
    OneReplyPerCommand(START.loop, ms);
    var k := CommandsTaken(START.loop, ms)[i];
    assert k in CommandsTaken(START.loop, ms);
    CommandsTakenExactly(START.loop, ms, k);
    TableFromMessages(ms[..k], ms[k].id, inst);
    forall n: nat
      ensures RepliesTo(START.loop, ms)[i] == Executed(n) <==> LastRegistered(ms[..k], ms[k].id, n)
    {
      TableFromMessages(ms[..k], ms[k].id, n);
    }
  }

  /** Which instances one more message kills and cancels. */
  lemma EffectsFromMessages(ms: seq<Message>, m: Message, inst: nat)
    requires Shutdown !in ms
    ensures
      var s, t := HandleAll(START.loop, ms), HandleAll(START.loop, ms + [m]);
      && (t.killed == s.killed + [inst] <==> m.ForceStop? && LastRegistered(ms, m.id, inst))
      && (t.killed == s.killed <==> !(m.ForceStop? && exists n: nat :: LastRegistered(ms, m.id, n)))
      && (inst in t.cancelled <==>
          || inst in s.cancelled
          || ((m.ForceStop? || m.Removal?) && LastRegistered(ms, m.id, inst))
          || (m.Shutdown? && exists id :: LastRegistered(ms, id, inst)))
  {
    var s, t := HandleAll(START.loop, ms), HandleAll(START.loop, ms + [m]);
    OneMore(Handle, START.loop, ms, m);
    assert |s.killed + [inst]| != |s.killed| && (s.killed + [inst])[|s.killed|] == inst;
    forall id, n: nat
      ensures id in s.instances && s.instances[id] == n <==> LastRegistered(ms, id, n)
    {
      TableFromMessages(ms, id, n);
    }
    TableFromMessages(ms, "", inst);
    hide LastRegistered, HandleAll;
    assert t == Handle(s, m);
    if m.ForceStop? && m.id in s.instances {
      assert LastRegistered(ms, m.id, s.instances[m.id]) && |t.killed| != |s.killed|;
    }
    assert forall id :: LastRegistered(ms, id, inst) <==> id in s.instances && s.instances[id] == inst;
    assert inst in s.instances.Values <==> exists id :: id in s.instances && s.instances[id] == inst;
  }

  /** The i-th move is a removal that the loop takes from watcher w. */
  ghost predicate TakesRemoval(moves: seq<Move>, i: nat, w: nat)
    requires i < |moves|
  {
    moves[i] == TakeRemoval(w) && Run(moves[..i]).loop.running && Received(Run(moves[..i]), moves[i]).Some?
  }

  /** In any run, a watcher's removal is taken at most once, and only after its instance has stopped. */
  lemma RemovalOnceAndLate(moves: seq<Move>, i: nat, w: nat)
    requires i < |moves| && TakesRemoval(moves, i, w)
    ensures Run(moves[..i]).watchers[w].exited
    ensures forall j | i < j < |moves| :: !TakesRemoval(moves, j, w)
  {
    BasicInEveryRun(moves[..i]);
    assert moves[..i + 1][..i] == moves[..i];
    forall j | i < j < |moves|
      ensures !TakesRemoval(moves, j, w)
    {
      FinishedStays(moves, i + 1, j, w);
    }
  }

  /** A watcher that waits, or has given up waiting, delivers its removal once the instance stops. */
  lemma RemovalIsDelivered(s: Service, w: nat, givesUp: bool)
    requires s.loop.running && w < |s.watchers| && (s.watchers[w].phase == Waiting || s.watchers[w].phase == Draining)
    ensures
      var exited := Next(if givesUp then Next(s, GiveUp(w)) else s, Exit(w));
      var end := Next(Next(exited, Notice(w)), TakeRemoval(w));
      && end.watchers == s.watchers[w := Watcher(s.watchers[w].id, Finished, true)]
      && end.loop.instances == s.loop.instances - {s.watchers[w].id}
  {
    var exited := Next(if givesUp then Next(s, GiveUp(w)) else s, Exit(w));
    var phase := if givesUp then Draining else s.watchers[w].phase;
    assert exited == s.(watchers := s.watchers[w := Watcher(s.watchers[w].id, phase, true)]);
    assert Next(exited, Notice(w)) == s.(watchers := s.watchers[w := Watcher(s.watchers[w].id, Sending, true)]);
  }

  predicate Done(s: Service, w: nat) {
    w < |s.watchers| && s.watchers[w].phase == Finished
  }

  lemma DoneStays(s: Service, move: Move, w: nat)
    requires Done(s, w)
    ensures Done(Next(s, move), w)
  {
  }

  lemma {:induction false} FinishedStays(moves: seq<Move>, i: nat, j: nat, w: nat)
    requires i <= j <= |moves| && Done(Run(moves[..i]), w)
    ensures Done(Run(moves[..j]), w)
    decreases j
  {
    hide Done, Next;
    if i < j {
      FinishedStays(moves, i, j - 1, w);
      assert moves[..j][..j - 1] == moves[..j - 1];
      DoneStays(Run(moves[..j - 1]), moves[j - 1], w);
    }
  }

  // ---- Without the discipline ----

  /**
    The run that starts an instance, force-stops it, starts another one under the same id and sees the first one end.
   */
  function Reregistered(id: string): (moves: seq<Move>)
    ensures Run(moves) == Service(LoopState(map[id := 1], {0}, [0], true),
                                  [Watcher(id, Waiting, true), Watcher(id, Waiting, false)], {0})
  {
    var m1 := After(Next, START, [], TakeRegister(id));
    var m2 := After(Next, START, m1, TakeForceStop(id));
    assert Run(m2) == Service(LoopState(map[], {0}, [0], true), [Watcher(id, Waiting, false)], {0});
    After(Next, START, After(Next, START, m2, TakeRegister(id)), Exit(0))
  }

  /**
    For every id there is a run that drops a live instance from the table:
    it was registered under the id before the removal of the old instance was taken.
   */
  lemma StaleRemovalDropsLive(id: string)
    ensures exists moves: seq<Move>, w: nat ::
              var s := Run(moves);
              && w < |s.watchers| && s.watchers[w] == Watcher(id, Waiting, false) && w !in s.forced
              && id !in s.loop.instances && s.loop.running
  {
    hide Fold, Reregistered;
    var noticed := After(Next, START, Reregistered(id), Notice(0));
    var moves := After(Next, START, noticed, TakeRemoval(0));
    assert Run(moves).watchers[1] == Watcher(id, Waiting, false);
  }
}
