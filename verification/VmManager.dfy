/** The node's VM manager: polls the node, and publishes what changed against the publisher's cache. */
module VmManager {
  import opened Wrappers
  import opened KeyOrder
  import opened InstanceStore
  import opened VmInfo
  import opened NodeManager
  import opened EventPublisher
  import opened Runs

  /**
    The events that lead from one view to another, restricted to some names: each difference once, and nothing else.
   */
  ghost predicate IsDiff(from: Cache, to: Cache, names: set<string>, events: seq<Event>) {
    && (forall e <- events :: Different(from, to, names, e))
    && (forall e :: Different(from, to, names, e) ==> e in events)
    && (forall i, j | 0 <= i < j < |events| :: events[i] != events[j])
  }

  predicate Different(from: Cache, to: Cache, names: set<string>, e: Event) {
    match e
    case Removed(name) => name in names && name in from && name !in to
    case Updated(info) =>
      && info.name in names && info.name in to && to[info.name] == info
      && !(info.name in from && from[info.name] == info)
    case NoVm(_) => false
  }

  /** The view in which exactly the given names have moved on. */
  ghost predicate Between(from: Cache, to: Cache, names: set<string>, view: Cache) {
    forall n :: SameEntry(view, if n in names then to else from, n)
  }

  /** Replaying the difference leads from the one view to the other. */
  lemma ReplayDiff(from: Cache, to: Cache, events: seq<Event>)
    requires forall n <- to :: to[n].name == n
    requires IsDiff(from, to, from.Keys + to.Keys, events)
    ensures Replay(from, events) == to
  {
    ReplayPart(from, to, events);
    var view := Replay(from, events);
    forall n
      ensures SameEntry(view, to, n)
    {
      assert SameEntry(view, if n in Touched(events) then to else from, n);
      if n in from && n !in to {
        assert Removed(n) in events && n in Subjects(Removed(n));
        assert n in Touched(events);
      } else if n in to && !(n in from && from[n] == to[n]) {
        assert Updated(to[n]) in events && n in Subjects(Updated(to[n]));
        assert n in Touched(events);
      }
    }
    SameEverywhere(view, to);
  }

  lemma SameEverywhere(a: Cache, b: Cache)
    requires forall n :: SameEntry(a, b, n)
    ensures a == b
  {
    assert forall n :: n in a <==> n in b by {
      forall n
        ensures n in a <==> n in b
      {
        assert SameEntry(a, b, n);
      }
    }
    forall n <- a
      ensures a[n] == b[n]
    {
      assert SameEntry(a, b, n);
    }
  }

  function Touched(events: seq<Event>): set<string> {
    set e, n | e in events && n in Subjects(e) :: n
  }

  lemma {:induction false} ReplayPart(from: Cache, to: Cache, events: seq<Event>)
    requires forall e <- events :: Different(from, to, from.Keys + to.Keys, e)
    ensures Between(from, to, Touched(events), Replay(from, events))
  {
    if events != [] {
      var front, last := events[..|events| - 1], events[|events| - 1];
      OneMore(Apply, from, front, last);
      ReplayPart(from, to, front);
      assert events == front + [last];
      hide Fold;
      assert Different(from, to, from.Keys + to.Keys, last);
      assert Touched(events) == Touched(front) + Subjects(last);
    }
  }

  /** A full queue drops the newest events. */
  function Fill(queue: seq<Event>, events: seq<Event>): seq<Event> {
    var all := queue + events;
    if |all| <= QUEUE_CAPACITY then all else all[..QUEUE_CAPACITY]
  }

  /** Equal views have no difference, and only the empty list of events is that. */
  lemma NoDiff(view: Cache, names: set<string>, events: seq<Event>)
    ensures IsDiff(view, view, names, events) <==> events == []
  {
    assert forall e :: !Different(view, view, names, e);
    if events != [] {
      assert events[0] in events;
    }
  }

  /**
    A poll says nothing about a name that is neither cached nor
    reported, so it cannot repair a removal that was dropped.
   */
  lemma AbsentIsNotMentioned(from: Cache, to: Cache, names: set<string>, events: seq<Event>, name: string)
    requires IsDiff(from, to, names, events)
    ensures (exists e <- events :: name in Subjects(e)) ==> name in from || name in to
    ensures name !in from && name !in to ==> SameEntry(Replay(from, events), from, name)
  {
    if e :| e in events && name in Subjects(e) {
      assert Different(from, to, names, e);
    } else {
      UnmentionedKeepsEntry(from, events, name);
    }
  }

  lemma {:induction false} UnmentionedKeepsEntry(view: Cache, events: seq<Event>, name: string)
    requires forall e <- events :: name !in Subjects(e)
    ensures SameEntry(Replay(view, events), view, name)
  {
    if events != [] {
      var n := |events| - 1;
      UnmentionedKeepsEntry(view, events[..n], name);
      assert events[n] in events;
    }
  }

  /** Handling one more name adds its difference, if it has one, at the end. */
  lemma DiffStep(from: Cache, to: Cache, names: set<string>, events: seq<Event>, name: string)
    requires IsDiff(from, to, names, events) && name !in names
    requires forall n <- to :: to[n].name == n
    ensures IsDiff(from, to, names + {name}, events + News(from, to, name))
  {
    var more := News(from, to, name);
    forall e
      ensures Different(from, to, names + {name}, e) <==> e in events + more
    {
      assert Different(from, to, names + {name}, e) <==> Different(from, to, names, e) || e in more;
    }
    forall i, j | 0 <= i < j < |events + more|
      ensures (events + more)[i] != (events + more)[j]
    {
      assert j < |events| || more[0] !in events;
    }
  }

  /**
    What a poll's events mean: none for equal views, and with room in the queue the replayed view follows the cache.
   */
  lemma PollMeaning(from: State, now: State, emitted: seq<Event>)
    requires IsDiff(from.cache, now.cache, from.cache.Keys + now.cache.Keys, emitted)
    requires forall n <- now.cache :: now.cache[n].name == n
    requires now.taken == from.taken && now.queue == Fill(from.queue, emitted)
    ensures from.cache == now.cache <==> emitted == []
    ensures Replay(from.cache, emitted) == now.cache
    ensures |from.queue| + |emitted| <= QUEUE_CAPACITY && Replay(map[], from.Accepted()) == from.cache ==>
              Replay(map[], now.Accepted()) == now.cache
  {
    ReplayDiff(from.cache, now.cache, emitted);
    if from.cache == now.cache {
      NoDiff(from.cache, from.cache.Keys, emitted);
      assert from.cache.Keys + from.cache.Keys == from.cache.Keys;
    }
    if |from.queue| + |emitted| <= QUEUE_CAPACITY {
      assert now.Accepted() == from.Accepted() + emitted;
      InParts(Apply, map[], from.Accepted(), emitted);
    }
  }

  lemma ViewShowsAt(table: Table, answers: Option<seq<RuntimeInfo>>, n: string)
    requires n in table && table[n].id == n
    ensures
      var info := Enrich(ToInfo(table[n]), RuntimeFor(table, answers));
      Truthful(info, table, answers) && info.status.state == table[n].state
  {
    hide RuntimeFor, LastAnswer, ByName;
    InfoIsTruthful(table, table[n], answers);
  }

  lemma ViewShows(table: Table, answers: Option<seq<RuntimeInfo>>)
    requires forall id <- table :: table[id].id == id
    ensures
      var view := View(table, RuntimeFor(table, answers));
      && view.Keys == table.Keys
      && forall n <- view :: Truthful(view[n], table, answers) && view[n].status.state == table[n].state
  {
    hide RuntimeFor, Truthful, Enrich, ToInfo;
    forall n <- table
      ensures
        var info := Enrich(ToInfo(table[n]), RuntimeFor(table, answers));
        Truthful(info, table, answers) && info.status.state == table[n].state
    {
      ViewShowsAt(table, answers, n);
    }
  }

  lemma RunningShown(before: Table, ids: seq<string>)
    requires forall id <- before :: before[id].id == id
    ensures
      var now := ReconciledTable(before, SetOf(ids));
      && now.Keys == before.Keys
      && forall id <- now :: now[id].id == id && (now[id].state == Running <==> id in ids)
  {
  }

  /** What the cache shows after a poll: the records, which run exactly if QEMU runs them. */
  lemma PollShows(before: Table, now: Table, ids: Option<seq<string>>, answers: Option<seq<RuntimeInfo>>)
    requires forall id <- before :: before[id].id == id
    requires now == if ids.Some? then ReconciledTable(before, SetOf(ids.value)) else before
    ensures
      var view := View(now, RuntimeFor(now, answers));
      && view.Keys == before.Keys
      && (forall n <- view :: Truthful(view[n], now, answers))
      && (ids.Some? ==> forall n <- view :: view[n].status.state == Running <==> n in ids.value)
  {
    hide *;
    if ids.Some? {
      RunningShown(before, ids.value);
    }
    ViewShows(now, answers);
  }

  class Manager {
    const nm: LocalNodeManager
    const publisher: Publisher

    constructor (nm: LocalNodeManager, publisher: Publisher)
      ensures this.nm == nm && this.publisher == publisher
    {
      this.nm, this.publisher := nm, publisher;
    }

    /**
      One poll that nothing interferes with. `ids` and `answers` are QEMU's answers to the list and runtime queries.
      The cache ends up as the view of the reconciled database whether or not the queue had room,
      and the publish attempts are exactly the differences.
     */
    method Poll(ids: Option<seq<string>>, answers: Option<seq<RuntimeInfo>>)
      returns (ghost emitted: seq<Event>, ghost runtime: map<string, RuntimeInfo>)
      requires nm.state.Valid() && publisher.Valid()
      modifies nm.state, publisher
      ensures nm.state.Valid() && publisher.Valid()
      ensures nm.state.table ==
              if ids.Some? then ReconciledTable(old(nm.state.table), SetOf(ids.value)) else old(nm.state.table)
      ensures runtime == RuntimeFor(nm.state.table, answers)
      ensures publisher.cache == View(nm.state.table, runtime)
      ensures publisher.cache.Keys == old(nm.state.table).Keys
      ensures forall n <- publisher.cache :: Truthful(publisher.cache[n], nm.state.table, answers)
      ensures ids.Some? ==>
                forall n <- publisher.cache :: publisher.cache[n].status.state == Running <==> n in ids.value
      ensures publisher.tried == old(publisher.tried) + emitted
      ensures IsDiff(old(publisher.cache), publisher.cache, old(publisher.cache).Keys + publisher.cache.Keys, emitted)
      ensures publisher.queue == Fill(old(publisher.queue), emitted)
      ensures old(publisher.cache) == publisher.cache <==> emitted == []
      ensures Replay(old(publisher.cache), emitted) == publisher.cache
      ensures |old(publisher.queue)| + |emitted| <= QUEUE_CAPACITY
              && Replay(map[], old(publisher.Now().Accepted())) == old(publisher.cache) ==>
                Replay(map[], publisher.Now().Accepted()) == publisher.cache
    {
      assert forall id <- nm.state.table :: nm.state.table[id].id == id;
      hide Database.Valid, View, RuntimeFor, ReconciledTable, Truthful, IsDiff, Reports, Fill, Replay;
      ghost var from := publisher.Now();
      var infos;
      infos, runtime := nm.Info("", ids, answers);
      emitted := PublishDifferences(infos.value, View(nm.state.table, runtime));
      PollMeaning(from, publisher.Now(), emitted);
      PollShows(old(nm.state.table), nm.state.table, ids, answers);
    }

    /** Creates an instance and, if that worked, publishes it as stopped with the requested spec. */
    method Create(id: string, imageId: string, hardware: Hardware, cloudInit: Option<CloudInit>, mac: Option<string>)
      returns (r: Result<string, NodeError>)
      requires nm.state.Valid() && publisher.Valid()
      modifies nm.state, publisher
      ensures nm.state.Valid() && publisher.Valid()
      ensures r.Err? ==> nm.state.table == old(nm.state.table) && publisher.Now() == old(publisher.Now())
      ensures r.Ok? ==>
                && r.value == id
                && id !in old(nm.state.table)
                && nm.state.table == old(nm.state.table)[id := Instance(id, Some(hardware), mac, imageId, Stopped,
                                                                        cloudInit, nm.name)]
                && publisher.Now() == Step(old(publisher.Now()),
                                           Update(Info(id, VmSpec(Some(hardware), imageId, None),
                                                       VmStatus(Stopped, "", None))))
    {
      var created := nm.Create(id, imageId, hardware, cloudInit, mac);
      if created.Err? {
        return Err(created.error);
      }
      var _ := publisher.VMUpdated(Info(id, VmSpec(Some(hardware), imageId, None), VmStatus(Stopped, "", None)));
      r := Ok(id);
    }

    /** Removes an instance; the removal event is tried even when the instance was gone already. */
    method Remove(id: string, dialOk: bool) returns (r: Result<(), NodeError>)
      requires nm.state.Valid() && publisher.Valid()
      modifies nm.state, publisher
      ensures nm.state.Valid() && publisher.Valid()
      ensures nm.state.table == Drop(old(nm.state.table), id)
      ensures r.Err? <==> id in nm.state.table
      ensures publisher.Now() == if r.Ok? then Step(old(publisher.Now()), EventPublisher.Remove(id))
                                 else old(publisher.Now())
    {
      var removed, _ := nm.Remove(id, dialOk);
      if removed.Err? {
        return removed;
      }
      var _ := publisher.VMRemoved(id);
      r := Ok(());
    }

    method PublishDifferences(infos: seq<Info>, ghost view: Cache) returns (ghost emitted: seq<Event>)
      requires publisher.Valid() && Reports(infos, view)
      modifies publisher
      ensures publisher.Valid()
      ensures publisher.cache == view
      ensures publisher.tried == old(publisher.tried) + emitted && publisher.taken == old(publisher.taken)
      ensures IsDiff(old(publisher.cache), view, old(publisher.cache).Keys + view.Keys, emitted)
      ensures publisher.queue == Fill(old(publisher.queue), emitted)
    {
      var current: set<string> := {};
      for i := 0 to |infos|
        invariant forall n :: n in current <==> n in Names(infos)[..i]
      {
        current := current + {infos[i].name};
      }
      assert Names(infos)[..|infos|] == Names(infos);
      ReportedNames(infos, view);
      assert forall n :: n in current <==> n in view;

      ghost var from := publisher.Now();
      ghost var gone: set<string>;
      gone, emitted := PublishRemovals(current, view);

      ghost var updates := PublishUpdates(infos, view, from, gone, emitted);
      emitted := emitted + updates;
    }

    /** Reports every info; the publisher skips those it has already. */
    method PublishUpdates(infos: seq<Info>, ghost view: Cache, ghost from: State, ghost gone: set<string>,
                          ghost emitted: seq<Event>)
      returns (ghost updates: seq<Event>)
      requires publisher.Valid() && |from.queue| <= QUEUE_CAPACITY
      requires gone == from.cache.Keys - view.Keys
      requires Moved(from, view, gone, publisher.Now(), emitted)
      requires forall n <- view :: view[n].name == n
      requires forall i | 0 <= i < |infos| :: infos[i].name in view && infos[i] == view[infos[i].name]
      requires forall i, j | 0 <= i < j < |infos| :: infos[i].name != infos[j].name
      requires forall n <- view :: n in Names(infos)
      modifies publisher
      ensures publisher.Valid()
      ensures publisher.cache == view
      ensures Moved(from, view, from.cache.Keys + view.Keys, publisher.Now(), emitted + updates)
    {
      hide News, Step, IsDiff, Between, Fill;
      ghost var handled := gone;
      updates := [];
      assert emitted + updates == emitted;
      for i := 0 to |infos|
        invariant publisher.Valid()
        invariant Moved(from, view, handled, publisher.Now(), emitted + updates)
        invariant forall n :: n in handled <==> n in gone || n in Names(infos)[..i]
      {
        var name := infos[i].name;
        assert Names(infos)[i] == name && name !in Names(infos)[..i];
        assert Names(infos)[..i + 1] == Names(infos)[..i] + [name];
        MoveUpdated(from, view, handled, publisher.Now(), emitted + updates, name);
        assert emitted + updates + News(from.cache, view, name) == emitted + (updates + News(from.cache, view, name));
        updates := updates + News(from.cache, view, name);
        handled := handled + {name};
        var _ := publisher.VMUpdated(infos[i]);
      }
      assert Names(infos)[..|infos|] == Names(infos);
      assert forall n | n in Names(infos) :: n in view;
      assert handled == from.cache.Keys + view.Keys;
      DiffComplete(from.cache, view, handled, publisher.cache, emitted + updates);
    }

    /** Detects the instances that disappeared. */
    method PublishRemovals(current: set<string>, ghost view: Cache)
      returns (ghost gone: set<string>, ghost emitted: seq<Event>)
      requires publisher.Valid() && current == view.Keys
      requires forall n <- view :: view[n].name == n
      modifies publisher
      ensures publisher.Valid()
      ensures gone == old(publisher.cache).Keys - view.Keys
      ensures Moved(old(publisher.Now()), view, gone, publisher.Now(), emitted)
    {
      ghost var from := publisher.Now();
      gone, emitted := {}, [];
      var all := publisher.GetAll();
      for i := 0 to |all|
        invariant publisher.Valid()
        invariant Moved(from, view, gone, publisher.Now(), emitted)
        invariant forall n <- gone :: n !in view && exists j | 0 <= j < i :: all[j].name == n
        invariant forall j | 0 <= j < i :: all[j].name in gone || all[j].name in view
      {
        var name := all[i].name;
        if name !in current {
          assert all[i] in all;
          MoveRemoved(from, view, gone, publisher.Now(), emitted, name);
          gone, emitted := gone + {name}, emitted + [Removed(name)];
          var _ := publisher.VMRemoved(name);
        }
      }
      assert forall n <- from.cache :: from.cache[n] in all;
      assert forall j | 0 <= j < |all| :: all[j] in all;
    }
  }

  /**
    The publisher has brought the handled names from the old cache to the new view, trying exactly their differences.
   */
  ghost predicate Moved(from: State, to: Cache, handled: set<string>, now: State, emitted: seq<Event>) {
    && Between(from.cache, to, handled, now.cache)
    && now.tried == from.tried + emitted
    && now.taken == from.taken
    && now.queue == Fill(from.queue, emitted)
    && IsDiff(from.cache, to, handled, emitted)
  }

  /** The event a name calls for, if any. */
  function News(from: Cache, to: Cache, name: string): seq<Event> {
    if name in from && name !in to then [Removed(name)]
    else if name in to && !(name in from && from[name] == to[name]) then [Updated(to[name])]
    else []
  }

  lemma MoveRemoved(from: State, to: Cache, handled: set<string>, now: State, emitted: seq<Event>, name: string)
    requires Moved(from, to, handled, now, emitted) && name !in handled
    requires |from.queue| <= QUEUE_CAPACITY
    requires forall n <- to :: to[n].name == n
    requires name in from.cache && name !in to
    ensures Moved(from, to, handled + {name}, Step(now, Remove(name)), emitted + [Removed(name)])
  {
    DiffStep(from.cache, to, handled, emitted, name);
    FillStep(from.queue, emitted, Removed(name));
    BetweenStep(from.cache, to, handled, now.cache, name, Step(now, Remove(name)).cache);
  }

  lemma MoveUpdated(from: State, to: Cache, handled: set<string>, now: State, emitted: seq<Event>, name: string)
    requires Moved(from, to, handled, now, emitted) && name !in handled
    requires |from.queue| <= QUEUE_CAPACITY
    requires forall n <- to :: to[n].name == n
    requires name in to
    ensures Moved(from, to, handled + {name}, Step(now, Update(to[name])), emitted + News(from.cache, to, name))
  {
    DiffStep(from.cache, to, handled, emitted, name);
    FillStep(from.queue, emitted, Updated(to[name]));
    BetweenStep(from.cache, to, handled, now.cache, name, Step(now, Update(to[name])).cache);
    assert SameEntry(now.cache, from.cache, name);
    assert emitted + [] == emitted;
  }

  lemma FillStep(queue: seq<Event>, emitted: seq<Event>, e: Event)
    requires |queue| <= QUEUE_CAPACITY
    ensures
      var now := Fill(queue, emitted);
      Fill(queue, emitted + [e]) == if |now| < QUEUE_CAPACITY then now + [e] else now
  {
    assert queue + (emitted + [e]) == queue + emitted + [e];
  }

  lemma BetweenStep(from: Cache, to: Cache, names: set<string>, view: Cache, name: string, view': Cache)
    requires Between(from, to, names, view)
    requires view' == if name in to then view[name := to[name]] else view - {name}
    ensures Between(from, to, names + {name}, view')
  {
    forall n
      ensures SameEntry(view', if n in names + {name} then to else from, n)
    {
      assert SameEntry(view, if n in names then to else from, n);
    }
  }

  lemma ReportedNames(infos: seq<Info>, view: map<string, Info>)
    requires Reports(infos, view)
    ensures forall n :: n in Names(infos) <==> n in view
    ensures forall i, j | 0 <= i < j < |infos| :: infos[i].name != infos[j].name
    ensures forall n <- view :: view[n].name == n
  {
    forall n | n in Names(infos)
      ensures n in view
    {
      var i :| 0 <= i < |infos| && Names(infos)[i] == n;
      assert infos[i] in infos;
    }
    forall n <- view
      ensures view[n].name == n
    {
      var i :| 0 <= i < |infos| && Names(infos)[i] == n;
      assert infos[i] in infos;
    }
    forall i, j | 0 <= i < j < |infos|
      ensures infos[i].name != infos[j].name
    {
      BelowIrreflexive(infos[i].name);
      assert Below(Names(infos)[i], Names(infos)[j]);
    }
  }

  /** Once every name of either view is handled, the move is complete. */
  lemma DiffComplete(from: Cache, to: Cache, names: set<string>, view: Cache, events: seq<Event>)
    requires Between(from, to, names, view) && IsDiff(from, to, names, events)
    requires from.Keys + to.Keys <= names
    ensures view == to
    ensures IsDiff(from, to, from.Keys + to.Keys, events)
  {
    forall n
      ensures SameEntry(view, to, n)
    {
      assert SameEntry(view, if n in names then to else from, n);
    }
    SameEverywhere(view, to);
    assert forall e :: Different(from, to, names, e) <==> Different(from, to, from.Keys + to.Keys, e);
  }
}
