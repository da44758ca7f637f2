/** A call of the run model that nothing interferes with ends as the method of the node manager does. */
module NodeCalls {
  import opened Wrappers
  import opened InstanceStore
  import opened NodeManager
  import opened NodeRuns
  import opened Runs

  /** The next step of a call. */
  function Act(node: Node, tid: nat, answer: Answer): Node {
    Next(node, Step(tid, answer))
  }

  /** As `LocalNodeManager.Create`. */
  lemma CreateAlone(node: Node, tid: nat, rec: Instance)
    requires tid in node.threads && node.threads[tid] == CreateCheck(rec)
    ensures
      var end := Act(Act(node, tid, Commit), tid, Commit);
      && end.threads == node.threads[tid := Done] && end.launched == node.launched
      && end.table == if rec.id !in node.table && Complete(rec)
                         && (forall other <- node.table :: node.table[other].hwaddr != rec.hwaddr)
                      then node.table[rec.id := rec] else node.table
  {
  }

  /** As `LocalNodeManager.Remove`. */
  lemma RemoveAlone(node: Node, tid: nat, id: string)
    requires tid in node.threads && node.threads[tid] == RemoveRead(id)
    ensures
      var end := Act(Act(node, tid, Commit), tid, Commit);
      && end.threads == node.threads[tid := Done] && end.launched == node.launched
      && end.table == if id in node.table && node.table[id].state == Stopped then node.table - {id} else node.table
  {
  }

  /** As `LocalNodeManager.SetInstanceState`, with the two transactions that a change takes. */
  lemma SetStateAlone(node: Node, tid: nat, id: string, state: VmState, next: Thread)
    requires Sound(node.table) && id in node.table && node.table[id].state != state
    requires tid in node.threads && node.threads[tid] == StateRead(id, state, next)
    ensures Act(Act(node, tid, Commit), tid, Commit) ==
            node.(table := node.table[id := node.table[id].(state := state)], threads := node.threads[tid := next])
  {
    StateChangeAccepted(node.table, id, state);
  }

  /** A start reads the record and marks it as starting. */
  lemma StartingAlone(node: Node, tid: nat, id: string)
    requires Sound(node.table) && tid in node.threads && node.threads[tid] == StartRead(id)
    requires id in node.table && node.table[id].state == Stopped
    ensures Act(Act(Act(node, tid, Commit), tid, Commit), tid, Commit) ==
            node.(table := node.table[id := node.table[id].(state := Starting)],
            threads := node.threads[tid := StartDial(node.table[id])])
  {
    var read := Act(node, tid, Commit);
    SetStateAlone(read, tid, id, Starting, StartDial(node.table[id]));
    assert read == node.(threads := node.threads[tid := StateRead(id, Starting, StartDial(node.table[id]))]);
    hide *;
  }

  /** It dials QEMU and, if that works, sends the request. */
  function Dialled(node: Node, tid: nat, dialOk: bool, startOk: bool): Node {
    if dialOk then Act(Act(node, tid, Commit), tid, if startOk then Commit else Fail) else Act(node, tid, Fail)
  }

  lemma DialAlone(node: Node, tid: nat, copy: Instance, dialOk: bool, startOk: bool)
    requires tid in node.threads && node.threads[tid] == StartDial(copy)
    requires copy.hwaddr.Some? && copy.hardware.Some?
    ensures
      var outcome := if dialOk && startOk then Running else Stopped;
      Dialled(node, tid, dialOk, startOk) ==
      node.(threads := node.threads[tid := StateRead(copy.id, outcome, Done)],
      launched := node.launched + if dialOk then [LaunchOf(copy)] else [])
  {
    hide LaunchCloudInit;
  }

  lemma OutcomeAlone(node: Node, tid: nat, copy: Instance, dialOk: bool, startOk: bool)
    requires Sound(node.table) && copy.id in node.table && node.table[copy.id].state == Starting
    requires tid in node.threads && node.threads[tid] == StartDial(copy)
    requires copy.hwaddr.Some? && copy.hardware.Some?
    ensures
      var outcome := if dialOk && startOk then Running else Stopped;
      Act(Act(Dialled(node, tid, dialOk, startOk), tid, Commit), tid, Commit) ==
      node.(table := node.table[copy.id := node.table[copy.id].(state := outcome)],
      threads := node.threads[tid := Done],
      launched := node.launched + if dialOk then [LaunchOf(copy)] else [])
  {
    DialAlone(node, tid, copy, dialOk, startOk);
    hide *;
    SetStateAlone(Dialled(node, tid, dialOk, startOk), tid, copy.id, if dialOk && startOk then Running
                  else Stopped, Done);
  }

  lemma StateKeepsSound(table: Table, id: string, state: VmState)
    requires Sound(table) && id in table
    ensures Sound(table[id := table[id].(state := state)])
    ensures table[id].id == id && table[id].hwaddr.Some? && table[id].hardware.Some?
  {
    StateChangeAccepted(table, id, state);
    SoundPerform(table, UpdateOp(table[id].(state := state)));
  }

  /** As `LocalNodeManager.Start`: whatever QEMU answers, the state that the record is left in and the request sent. */
  lemma StartAlone(node: Node, tid: nat, rec: Instance, launch: Launch, dialOk: bool, startOk: bool)
    requires Sound(node.table) && rec.id in node.table && node.table[rec.id] == rec && rec.state == Stopped
    requires tid in node.threads && node.threads[tid] == StartRead(rec.id)
    requires AsksFor(launch, rec)
    ensures
      var starting := Act(Act(Act(node, tid, Commit), tid, Commit), tid, Commit);
      var outcome := if dialOk && startOk then Running else Stopped;
      Act(Act(Dialled(starting, tid, dialOk, startOk), tid, Commit), tid, Commit) ==
      node.(table := node.table[rec.id := rec.(state := outcome)],
      threads := node.threads[tid := Done],
      launched := node.launched + if dialOk then [launch] else [])
  {
    var table := node.table[rec.id := rec.(state := Starting)];
    var starting := node.(table := table, threads := node.threads[tid := StartDial(rec)]);
    var outcome := if dialOk && startOk then Running else Stopped;
    hide *;
    StateKeepsSound(node.table, rec.id, Starting);
    StartingAlone(node, tid, rec.id);
    OutcomeAlone(starting, tid, rec, dialOk, startOk);
    LaunchExactly(launch, rec);
    assert table[rec.id := rec.(state := outcome)] == node.table[rec.id := rec.(state := outcome)];
    assert starting.threads[tid := Done] == node.threads[tid := Done];
  }

  /** A start that finds no stopped record ends at once and changes nothing. */
  lemma StartRefused(node: Node, tid: nat, id: string, answer: Answer)
    requires tid in node.threads && node.threads[tid] == StartRead(id)
    requires id !in node.table || node.table[id].state != Stopped
    ensures Act(node, tid, answer) == node.(threads := node.threads[tid := Done])
  {
  }

  /** Transactions that fail: a call goes on behind a state change, whether or not that worked, and ends elsewhere. */
  lemma FailedAlone(node: Node, tid: nat)
    requires tid in node.threads
    ensures
      var end := Act(node, tid, Fail);
      && end.table == node.table
      && match node.threads[tid]
         case StateRead(_, _, next) => end.threads[tid] == next
         case StateWrite(_, next) => end.threads[tid] == next
         case CreateCheck(rec) => end.threads[tid] == CreateWrite(rec)
         case StartDial(copy) => end.threads[tid] == StateRead(copy.id, Stopped, Done)
         case StartCall(copy) => end.threads[tid] == StateRead(copy.id, Stopped, Done)
         case ReconcileLoop(_, _) => true
         case _ => end.threads[tid] == Done
  {
  }

  /** The records that count as created are those that some creation tried to insert. */
  lemma CreatedExactly(node: Node, move: Move, rec: Instance)
    ensures rec in Next(node, move).created <==>
            || rec in node.created
            || (move.Step? && move.tid in node.threads && node.threads[move.tid] == CreateWrite(rec))
  {
  }

  // ---- Reconciliation ----

  /** The rows are records of the table, each once. */
  ghost predicate RowsOf(table: Table, rows: seq<Instance>) {
    && (forall row <- rows :: row.id in table && table[row.id] == row)
    && (forall i, j | 0 <= i < j < |rows| :: rows[i].id != rows[j].id)
  }

  /** The listed records have been brought into agreement, the others are as they were. */
  ghost predicate Agree(before: Table, rows: seq<Instance>, running: set<string>, after: Table) {
    && after.Keys == before.Keys
    && forall id <- before :: after[id] == if before[id] in rows then Reconciled(before[id], running) else before[id]
  }

  /** The first row's state is set, if it has to be. */
  lemma FirstRowAlone(node: Node, tid: nat, rows: seq<Instance>, running: set<string>) returns (moves: seq<Move>)
    requires Sound(node.table) && rows != [] && rows[0].id in node.table && node.table[rows[0].id] == rows[0]
    requires tid in node.threads && node.threads[tid] == ReconcileLoop(rows, running)
    ensures forall move <- moves :: move == Step(tid, Commit)
    ensures Fold(Next, node, moves) ==
            node.(table := node.table[rows[0].id := Reconciled(rows[0], running)],
            threads := node.threads[tid := ReconcileLoop(rows[1..], running)])
  {
    var row, m := rows[0], Step(tid, Commit);
    var agreed := Agreed(row.state, row.id in running);
    var first := Act(node, tid, Commit);
    OneMore(Next, node, [], m);
    moves := [] + [m];
    if agreed != row.state {
      var rest := ReconcileLoop(rows[1..], running);
      assert first == node.(threads := node.threads[tid := StateRead(row.id, agreed, rest)]);
      SetStateAlone(first, tid, row.id, agreed, rest);
      OneMore(Next, node, moves, m);
      OneMore(Next, node, moves + [m], m);
      moves := moves + [m] + [m];
    } else {
      assert node.table[row.id := row] == node.table;
    }
  }

  lemma NoRowsAlone(node: Node, tid: nat, running: set<string>) returns (moves: seq<Move>)
    requires tid in node.threads && node.threads[tid] == ReconcileLoop([], running)
    ensures forall move <- moves :: move == Step(tid, Commit)
    ensures Fold(Next, node, moves) == node.(threads := node.threads[tid := Done])
  {
    OneMore(Next, node, [], Step(tid, Commit));
    moves := [] + [Step(tid, Commit)];
  }

  lemma {:induction false} LoopAlone(node: Node, tid: nat, rows: seq<Instance>, running: set<string>)
    returns (moves: seq<Move>)
    requires Sound(node.table) && RowsOf(node.table, rows)
    requires tid in node.threads && node.threads[tid] == ReconcileLoop(rows, running)
    ensures forall move <- moves :: move == Step(tid, Commit)
    ensures
      var end := Fold(Next, node, moves);
      && end.threads == node.threads[tid := Done] && end.launched == node.launched
      && Agree(node.table, rows, running, end.table)
    decreases |rows|
  {
    if rows == [] {
      moves := NoRowsAlone(node, tid, running);
    } else {
      assert rows[0] in rows;
      var first := FirstRowAlone(node, tid, rows, running);
      var mid := Fold(Next, node, first);
      MiddleRows(node.table, rows, running);
      var rest := LoopAlone(mid, tid, rows[1..], running);
      hide *;
      InParts(Next, node, first, rest);
      moves := first + rest;
      assert mid.threads[tid := Done] == node.threads[tid := Done];
      AgreeFirst(node.table, rows, running, Fold(Next, mid, rest).table);
    }
  }

  lemma MiddleRows(table: Table, rows: seq<Instance>, running: set<string>)
    requires Sound(table) && rows != [] && RowsOf(table, rows)
    ensures
      var mid := table[rows[0].id := Reconciled(rows[0], running)];
      Sound(mid) && RowsOf(mid, rows[1..])
  {
    assert rows[0] in rows;
    assert forall row <- rows[1..] :: row in rows && row.id != rows[0].id;
  }

  lemma AgreeFirst(table: Table, rows: seq<Instance>, running: set<string>, after: Table)
    requires Sound(table) && rows != [] && RowsOf(table, rows)
    requires Agree(table[rows[0].id := Reconciled(rows[0], running)], rows[1..], running, after)
    ensures Agree(table, rows, running, after)
  {
    assert rows[0] in rows;
    assert forall row <- rows[1..] :: row in rows && row.id != rows[0].id;
    assert forall row <- rows :: row == rows[0] || row in rows[1..];
  }

  lemma ListingRows(table: Table, rows: seq<Instance>, running: set<string>, after: Table)
    requires Listing(table, rows)
    ensures RowsOf(table, rows)
    ensures Agree(table, rows, running, after) ==> after == ReconciledTable(table, running)
  {
    ListedIds(table, rows);
  }

  lemma ListedAlone(node: Node, tid: nat, rows: seq<Instance>)
    requires Listing(node.table, rows)
    requires tid in node.threads && node.threads[tid] == ReconcileList
    ensures Act(node, tid, Rows(rows)) == node.(threads := node.threads[tid := ReconcileQuery(rows)])
  {
    hide Listing;
  }

  lemma QueriedAlone(node: Node, tid: nat, rows: seq<Instance>, running: set<string>)
    requires tid in node.threads && node.threads[tid] == ReconcileQuery(rows)
    ensures Act(node, tid, RunningSet(running)) == node.(threads := node.threads[tid := ReconcileLoop(rows, running)])
  {
  }

  /** The listing and QEMU's answer are there. */
  lemma AskedAlone(node: Node, tid: nat, rows: seq<Instance>, running: set<string>)
    requires Listing(node.table, rows)
    requires tid in node.threads && node.threads[tid] == ReconcileList
    ensures Fold(Next, node, [Step(tid, Rows(rows)), Step(tid, RunningSet(running))]) ==
            node.(threads := node.threads[tid := ReconcileLoop(rows, running)])
  {
    var listed := node.(threads := node.threads[tid := ReconcileQuery(rows)]);
    assert Next(node, Step(tid, Rows(rows))) == Act(node, tid, Rows(rows));
    assert Next(listed, Step(tid, RunningSet(running))) == Act(listed, tid, RunningSet(running));
    hide *;
    TwoMoves(Next, node, Step(tid, Rows(rows)), Step(tid, RunningSet(running)));
    ListedAlone(node, tid, rows);
    QueriedAlone(listed, tid, rows, running);
    assert listed.threads[tid := ReconcileLoop(rows, running)] == node.threads[tid := ReconcileLoop(rows, running)];
  }

  /** As `LocalNodeManager.ReconcileInstances` over a listing: in the end every record agrees with what QEMU runs. */
  lemma ReconcileAlone(node: Node, tid: nat, rows: seq<Instance>, running: set<string>) returns (moves: seq<Move>)
    requires Sound(node.table) && Listing(node.table, rows)
    requires tid in node.threads && node.threads[tid] == ReconcileList
    ensures forall move <- moves :: move.Step? && move.tid == tid
    ensures
      var end := Fold(Next, node, moves);
      && end.threads == node.threads[tid := Done] && end.launched == node.launched
      && end.table == ReconciledTable(node.table, running)
  {
    hide *;
    var asked := [Step(tid, Rows(rows)), Step(tid, RunningSet(running))];
    var loop := node.(threads := node.threads[tid := ReconcileLoop(rows, running)]);
    AskedAlone(node, tid, rows, running);
    ListingRows(node.table, rows, running, node.table);
    var rest := LoopAlone(loop, tid, rows, running);
    InParts(Next, node, asked, rest);
    ListingRows(node.table, rows, running, Fold(Next, loop, rest).table);
    moves := asked + rest;
  }
}
