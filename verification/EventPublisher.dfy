/**
  The event publisher: a cache of the last info per instance and a bounded queue that drops what does not fit.
  The cache change and the publish attempt happen under one lock, so each call is one atomic step.
 */
module EventPublisher {
  import opened Runs
  import opened VmInfo

  datatype Event =
    | Updated(info: Info)
    | Removed(name: string)
    | NoVm(message: string)  // image, progress and error events

  type Cache = map<string, Info>

  const QUEUE_CAPACITY: nat := 100

  /**
    The publisher's state, with its history: what left the queue,
    what was tried, and which names lost their latest event.
   */
  datatype State = State(
    cache: Cache,
    queue: seq<Event>,
    taken: seq<Event>,
    tried: seq<Event>,
    lost: set<string>)
  {
    /** All events that entered the queue, in order. */
    function Accepted(): seq<Event> {
      taken + queue
    }
  }

  function Subjects(e: Event): set<string> {
    match e
    case Updated(info) => {info.name}
    case Removed(name) => {name}
    case NoVm(_) => {}
  }

  /** The non-blocking send. */
  function Enqueue(s: State, e: Event): State {
    if |s.queue| < QUEUE_CAPACITY
    then s.(queue := s.queue + [e], tried := s.tried + [e], lost := s.lost - Subjects(e))
    else s.(tried := s.tried + [e], lost := s.lost + Subjects(e))
  }

  datatype Call =
    | Update(info: Info)
    | Remove(name: string)
    | Other(message: string)
    | Take                    // the sending goroutine takes the oldest event

  function Step(s: State, call: Call): State {
    match call
    case Update(info) =>
      if info.name in s.cache && s.cache[info.name] == info then s
      else Enqueue(s.(cache := s.cache[info.name := info]), Updated(info))
    case Remove(name) => Enqueue(s.(cache := s.cache - {name}), Removed(name))
    case Other(message) => Enqueue(s, NoVm(message))
    case Take =>
      if s.queue == [] then s else s.(queue := s.queue[1..], taken := s.taken + [s.queue[0]])
  }

  const INITIAL := State(map[], [], [], [], {})

  function RunFrom(s: State, calls: seq<Call>): State {
    Fold(Step, s, calls)
  }

  function Run(calls: seq<Call>): State {
    RunFrom(INITIAL, calls)
  }

  // ---- The view a subscriber builds from the events ----

  function Apply(view: Cache, e: Event): Cache {
    match e
    case Updated(info) => view[info.name := info]
    case Removed(name) => view - {name}
    case NoVm(_) => view
  }

  function Replay(view: Cache, events: seq<Event>): Cache {
    Fold(Apply, view, events)
  }

  predicate SameEntry(a: Cache, b: Cache, name: string) {
    (name in a <==> name in b) && (name in a && name in b ==> a[name] == b[name])
  }

  ghost predicate Inv(s: State) {
    && |s.queue| <= QUEUE_CAPACITY
    && (forall name <- s.cache :: s.cache[name].name == name)
    && (forall name | name !in s.lost :: SameEntry(Replay(map[], s.Accepted()), s.cache, name))
  }

  lemma AcceptOne(s: State, e: Event)
    requires |s.queue| < QUEUE_CAPACITY
    ensures Replay(map[], Enqueue(s, e).Accepted()) == Apply(Replay(map[], s.Accepted()), e)
  {
    assert Enqueue(s, e).Accepted() == s.Accepted() + [e];
    OneMore(Apply, map[], s.Accepted(), e);
  }

  lemma StepKeepsInv(s: State, call: Call)
    requires Inv(s)
    ensures Inv(Step(s, call))
  {
    hide Replay;
    match call
    case Update(info) =>
      if |s.queue| < QUEUE_CAPACITY {
        AcceptOne(s.(cache := s.cache[info.name := info]), Updated(info));
      }
    case Remove(name) =>
      if |s.queue| < QUEUE_CAPACITY {
        AcceptOne(s.(cache := s.cache - {name}), Removed(name));
      }
    case Other(message) =>
      if |s.queue| < QUEUE_CAPACITY {
        AcceptOne(s, NoVm(message));
      }
    case Take =>
      if s.queue != [] {
        assert Step(s, call).Accepted() == s.Accepted();
      }
  }

  /**
    In every interleaving, replaying the accepted events gives the cached entry for every name
    whose latest publish attempt was accepted.
   */
  lemma {:induction false} EveryRun(calls: seq<Call>)
    ensures Inv(Run(calls))
  {
    if calls != [] {
      EveryRun(calls[..|calls| - 1]);
      StepKeepsInv(Run(calls[..|calls| - 1]), calls[|calls| - 1]);
    }
  }

  /** The call tries to publish an event about `name`. */
  predicate Tries(s: State, call: Call, name: string) {
    match call
    case Update(info) => info.name == name && !(name in s.cache && s.cache[name] == info)
    case Remove(removed) => removed == name
    case _ => false
  }

  /** The i-th call tries to publish an event about `name`. */
  ghost predicate Attempts(calls: seq<Call>, i: nat, name: string)
    requires i < |calls|
  {
    Tries(Run(calls[..i]), calls[i], name)
  }

  /** ... and finds the queue full. */
  ghost predicate Drops(calls: seq<Call>, i: nat, name: string)
    requires i < |calls|
  {
    Attempts(calls, i, name) && |Run(calls[..i]).queue| >= QUEUE_CAPACITY
  }

  /** The i-th call is the latest attempt for the name, and it did not fit into the queue. */
  ghost predicate LatestDrops(calls: seq<Call>, i: nat, name: string)
    requires i < |calls|
  {
    Drops(calls, i, name) && forall j | i < j < |calls| :: !Attempts(calls, j, name)
  }

  lemma LostStep(s: State, call: Call, name: string)
    ensures name in Step(s, call).lost
       <==> if Tries(s, call, name) then |s.queue| >= QUEUE_CAPACITY else name in s.lost
  {
  }

  lemma LatestDropsStep(calls: seq<Call>, i: nat, name: string)
    requires i < |calls| - 1
    ensures var n := |calls| - 1;
            LatestDrops(calls, i, name) <==> LatestDrops(calls[..n], i, name) && !Attempts(calls, n, name)
  {
    var n := |calls| - 1;
    forall j | 0 <= j < n
      ensures Attempts(calls, j, name) <==> Attempts(calls[..n], j, name)
      ensures Drops(calls, j, name) <==> Drops(calls[..n], j, name)
    {
      assert calls[..n][..j] == calls[..j];
    }
  }

  /** What `lost` means: the latest attempt for the name did not fit into the queue. */
  lemma {:induction false} LostMeansLatestDropped(calls: seq<Call>, name: string)
    ensures name in Run(calls).lost <==> exists i | 0 <= i < |calls| :: LatestDrops(calls, i, name)
  {
    if calls != [] {
      var n := |calls| - 1;
      LostMeansLatestDropped(calls[..n], name);
      LostStep(Run(calls[..n]), calls[n], name);
      forall i | 0 <= i < n
        ensures LatestDrops(calls, i, name) <==> LatestDrops(calls[..n], i, name) && !Attempts(calls, n, name)
      {
        LatestDropsStep(calls, i, name);
      }
      assert LatestDrops(calls, n, name) <==> Drops(calls, n, name);
    }
  }

  predicate Concerns(call: Call, name: string) {
    match call
    case Update(info) => info.name == name
    case Remove(removed) => removed == name
    case _ => false
  }

  /** A call about other names leaves a name's entries as they are, in the cache and in the replayed view. */
  lemma UnconcernedStep(s: State, call: Call, name: string)
    requires !Concerns(call, name)
    ensures SameEntry(Step(s, call).cache, s.cache, name)
    ensures SameEntry(Replay(map[], Step(s, call).Accepted()), Replay(map[], s.Accepted()), name)
  {
    hide Replay;
    match call
    case Update(other) =>
      if |s.queue| < QUEUE_CAPACITY {
        AcceptOne(s.(cache := s.cache[other.name := other]), Updated(other));
      }
    case Remove(removed) =>
      if |s.queue| < QUEUE_CAPACITY {
        AcceptOne(s.(cache := s.cache - {removed}), Removed(removed));
      }
    case Other(message) =>
      if |s.queue| < QUEUE_CAPACITY {
        AcceptOne(s, NoVm(message));
      }
    case Take =>
      if s.queue != [] {
        assert Step(s, call).Accepted() == s.Accepted();
      }
  }

  lemma {:induction false} UnconcernedRun(s: State, calls: seq<Call>, name: string)
    requires forall call <- calls :: !Concerns(call, name)
    ensures SameEntry(RunFrom(s, calls).cache, s.cache, name)
    ensures SameEntry(Replay(map[], RunFrom(s, calls).Accepted()), Replay(map[], s.Accepted()), name)
  {
    if calls != [] {
      var n := |calls| - 1;
      UnconcernedRun(s, calls[..n], name);
      assert calls[n] in calls;
      UnconcernedStep(RunFrom(s, calls[..n]), calls[n], name);
    }
  }

  /**
    A dropped update is not repaired by reporting the same info again, however often and whatever else happens
    to other names: the cache already has it, so nothing is published and the replayed view keeps its old entry.
   */
  lemma {:induction false} DroppedUpdateIsNotResent(s: State, info: Info, calls: seq<Call>)
    requires info.name in s.cache && s.cache[info.name] == info
    requires forall call <- calls :: call == Update(info) || !Concerns(call, info.name)
    ensures info.name in RunFrom(s, calls).cache && RunFrom(s, calls).cache[info.name] == info
    ensures SameEntry(Replay(map[], RunFrom(s, calls).Accepted()), Replay(map[], s.Accepted()), info.name)
  {
    if calls != [] {
      var before, call := RunFrom(s, calls[..|calls| - 1]), calls[|calls| - 1];
      DroppedUpdateIsNotResent(s, info, calls[..|calls| - 1]);
      assert call in calls;
      ForeignCallKeepsEntry(before, call, info);
    }
  }

  lemma ForeignCallKeepsEntry(s: State, call: Call, info: Info)
    requires info.name in s.cache && s.cache[info.name] == info
    requires call == Update(info) || !Concerns(call, info.name)
    ensures info.name in Step(s, call).cache && Step(s, call).cache[info.name] == info
    ensures SameEntry(Replay(map[], Step(s, call).Accepted()), Replay(map[], s.Accepted()), info.name)
  {
    if call != Update(info) {
      UnconcernedStep(s, call, info.name);
    }
  }

  predicate Shows(view: Cache, info: Info) {
    info.name in view && view[info.name] == info
  }

  /**
    Reporting an info makes the replayed view show it exactly if it did
    before, or if the info is new to the cache and the queue has room.
   */
  lemma RepairedExactly(s: State, info: Info)
    requires Inv(s)
    ensures Shows(Replay(map[], Step(s, Update(info)).Accepted()), info)
       <==> Shows(Replay(map[], s.Accepted()), info) || (!Shows(s.cache, info) && |s.queue| < QUEUE_CAPACITY)
  {
    if !Shows(s.cache, info) && |s.queue| < QUEUE_CAPACITY {
      AcceptOne(s.(cache := s.cache[info.name := info]), Updated(info));
    }
  }

  lemma EmptyReplay()
    ensures Replay(map[], INITIAL.Accepted()) == map[]
  {
  }

  lemma EmptyRun(s: State)
    ensures RunFrom(s, []) == s
  {
  }

  /** Calls that publish events about no instance. */
  function Others(n: nat): (calls: seq<Call>)
    ensures |calls| == n && forall call <- calls :: call == Other("")
  {
    if n == 0 then [] else Others(n - 1) + [Other("")]
  }

  lemma OtherFills(s: State)
    requires |s.queue| < QUEUE_CAPACITY
    ensures
      var t := Step(s, Other(""));
      && t.cache == s.cache && |t.queue| == |s.queue| + 1 && t.lost == s.lost
      && Replay(map[], t.Accepted()) == Replay(map[], s.Accepted())
  {
    AcceptOne(s, NoVm(""));
  }

  lemma {:induction false} OthersFill(s: State, n: nat)
    requires |s.queue| + n <= QUEUE_CAPACITY
    ensures
      var t := RunFrom(s, Others(n));
      && t.cache == s.cache && |t.queue| == |s.queue| + n && t.lost == s.lost
      && Replay(map[], t.Accepted()) == Replay(map[], s.Accepted())
  {
    if n > 0 {
      OthersFill(s, n - 1);
      OneMore(Step, s, Others(n - 1), Other(""));
      hide Step, Replay;
      OtherFills(RunFrom(s, Others(n - 1)));
    }
  }

  /**
    For every info there is a run that drops its update: the queue is full of other events. The info is in the cache
    then, and whatever follows, as long as it is only reported again, the replayed view never has the instance at all.
   */
  lemma DroppedUpdateLeavesViewStale(info: Info, later: seq<Call>)
    requires forall call <- later :: call == Update(info) || !Concerns(call, info.name)
    ensures
      var s := Run(Others(QUEUE_CAPACITY) + [Update(info)]);
      && info.name in s.lost && Shows(s.cache, info)
      && Shows(RunFrom(s, later).cache, info)
      && info.name !in Replay(map[], RunFrom(s, later).Accepted())
  {
    hide Others, Fold, Replay;
    assert Replay(map[], INITIAL.Accepted()) == map[] by {
      EmptyReplay();
    }
    OthersFill(INITIAL, QUEUE_CAPACITY);
    OneMore(Step, INITIAL, Others(QUEUE_CAPACITY), Update(info));
    DroppedUpdateIsNotResent(Run(Others(QUEUE_CAPACITY) + [Update(info)]), info, later);
  }

  // ---- Removals ----

  /** Removing a name takes it out of the replayed view exactly if it was not there, or the queue has room. */
  lemma RemovedExactly(s: State, name: string)
    ensures name !in Step(s, Remove(name)).cache
    ensures name !in Replay(map[], Step(s, Remove(name)).Accepted())
       <==> name !in Replay(map[], s.Accepted()) || |s.queue| < QUEUE_CAPACITY
  {
    if |s.queue| < QUEUE_CAPACITY {
      AcceptOne(s.(cache := s.cache - {name}), Removed(name));
    }
  }

  /** The run that publishes an instance, fills the queue with other events and then removes the instance. */
  function RemovedWhenFull(info: Info): State {
    Step(RunFrom(Step(INITIAL, Update(info)), Others(QUEUE_CAPACITY - 1)), Remove(info.name))
  }

  /**
    For every info there is a run that drops its removal. The cache has forgotten the name then, and whatever is called
    about other names, the replayed view shows the instance for ever.
   */
  lemma DroppedRemovalLeavesViewStale(info: Info, later: seq<Call>)
    requires forall call <- later :: !Concerns(call, info.name)
    ensures
      var s := RemovedWhenFull(info);
      && s == Run([Update(info)] + Others(QUEUE_CAPACITY - 1) + [Remove(info.name)])
      && info.name in s.lost && info.name !in RunFrom(s, later).cache
      && Shows(Replay(map[], RunFrom(s, later).Accepted()), info)
  {
    hide Others, Fold, Replay;
    var published := Step(INITIAL, Update(info));
    EmptyReplay();
    AcceptOne(INITIAL.(cache := map[info.name := info]), Updated(info));
    OneMore(Step, INITIAL, [], Update(info));
    assert [] + [Update(info)] == [Update(info)] && RunFrom(INITIAL, []) == INITIAL by {
      EmptyRun(INITIAL);
    }
    OthersFill(published, QUEUE_CAPACITY - 1);
    InParts(Step, INITIAL, [Update(info)], Others(QUEUE_CAPACITY - 1));
    OneMore(Step, INITIAL, [Update(info)] + Others(QUEUE_CAPACITY - 1), Remove(info.name));
    RemovedExactly(RunFrom(published, Others(QUEUE_CAPACITY - 1)), info.name);
    UnconcernedRun(RemovedWhenFull(info), later, info.name);
  }

  class Publisher {
    var cache: Cache
    var queue: seq<Event>
    ghost var taken: seq<Event>
    ghost var tried: seq<Event>
    ghost var lost: set<string>

    ghost function Now(): State
      reads this
    {
      State(cache, queue, taken, tried, lost)
    }

    ghost predicate Valid()
      reads this
    {
      Inv(Now())
    }

    constructor ()
      ensures Valid() && Now() == INITIAL
    {
      cache, queue, taken, tried, lost := map[], [], [], [], {};
      new;
      EveryRun([]);
    }

    method Publish(e: Event) returns (ok: bool)
      modifies this`queue, this`tried, this`lost
      ensures Now() == Enqueue(old(Now()), e)
      ensures ok == (|old(queue)| < QUEUE_CAPACITY)
    {
      ok := |queue| < QUEUE_CAPACITY;
      tried := tried + [e];
      if ok {
        queue := queue + [e];
        lost := lost - Subjects(e);
      } else {
        lost := lost + Subjects(e);
      }
    }

    method VMUpdated(info: Info) returns (ok: bool)
      requires Valid()
      modifies this
      ensures Valid()
      ensures Now() == Step(old(Now()), Update(info))
      ensures !ok <==> !(info.name in old(cache) && old(cache)[info.name] == info) && |old(queue)| == QUEUE_CAPACITY
    {
      StepKeepsInv(Now(), Update(info));
      if info.name in cache && cache[info.name] == info {
        return true;
      }
      cache := cache[info.name := info];
      ok := Publish(Updated(info));
    }

    method VMRemoved(name: string) returns (ok: bool)
      requires Valid()
      modifies this
      ensures Valid()
      ensures Now() == Step(old(Now()), Remove(name))
      ensures !ok <==> |old(queue)| == QUEUE_CAPACITY
    {
      StepKeepsInv(Now(), Remove(name));
      cache := cache - {name};
      ok := Publish(Removed(name));
    }

    /** The cached infos, each once, in some order. */
    method GetAll() returns (out: seq<Info>)
      requires Valid()
      ensures forall info :: info in out <==> info.name in cache && cache[info.name] == info
      ensures forall i, j | 0 <= i < j < |out| :: out[i].name != out[j].name
    {
      out := [];
      var rest := cache.Keys;
      while rest != {}
        invariant rest <= cache.Keys
        invariant forall info :: info in out <==> info.name in cache.Keys - rest && cache[info.name] == info
        invariant forall i, j | 0 <= i < j < |out| :: out[i].name != out[j].name
        decreases rest
      {
        var name :| name in rest;
        rest := rest - {name};
        out := out + [cache[name]];
      }
    }
  }
}
