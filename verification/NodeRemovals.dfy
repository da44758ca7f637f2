/** When a removal lasts: which runs can bring a removed instance back without a new creation. */
module NodeRemovals {
  import opened InstanceStore
  import opened NodeManager
  import opened NodeRuns
  import opened Runs

  function RunFrom(node: Node, moves: seq<Move>): Node {
    Fold(Next, node, moves)
  }

  /** The move is a creation's insert of the id. */
  predicate Creates(node: Node, move: Move, id: string) {
    && move.Step? && move.tid in node.threads
    && node.threads[move.tid].CreateWrite? && node.threads[move.tid].rec.id == id
  }

  predicate NoCreation(node: Node, moves: seq<Move>, id: string) {
    moves == [] ||
    (NoCreation(node, moves[..|moves| - 1], id)
     && !Creates(RunFrom(node, moves[..|moves| - 1]), moves[|moves| - 1], id))
  }

  /** The thread has read the id's record for a state change and is about to write it back. */
  predicate Pending(node: Node, tid: nat, id: string) {
    tid in node.threads && node.threads[tid].StateWrite? && node.threads[tid].copy.id == id
  }

  // ---- Write-backs come one at a time, with complete records ----

  predicate NoWrite(thread: Thread) {
    match thread
    case StateRead(_, _, next) => NoWrite(next)
    case StateWrite(_, _) => false
    case _ => true
  }

  predicate Sane(thread: Thread) {
    match thread
    case StateRead(_, _, next) => NoWrite(next)
    case StateWrite(copy, next) => Complete(copy) && NoWrite(next)
    case _ => true
  }

  ghost predicate AllSane(node: Node) {
    forall tid <- node.threads :: Sane(node.threads[tid])
  }

  lemma ThreadStaysSane(table: Table, thread: Thread, answer: Answer)
    requires Sound(table) && Sane(thread)
    ensures Sane(ThreadAfter(table, thread, answer))
  {
    match thread
    case StateRead(id, state, next) =>
      if id in table {
        StateChangeAccepted(table, id, state);
      }
      if next.StateRead? {
        assert NoWrite(next.next);
      }
    case StateWrite(_, next) =>
      if next.StateRead? {
        assert NoWrite(next.next);
      }
    case _ =>
  }

  lemma StepKeepsSane(node: Node, move: Move)
    requires Inv(node) && AllSane(node)
    ensures Inv(Next(node, move)) && AllSane(Next(node, move))
  {
    StepKeepsInv(node, move);
    if move.Step? && move.tid in node.threads {
      ThreadStaysSane(node.table, node.threads[move.tid], move.answer);
    }
  }

  lemma {:induction false} SaneInEveryRun(moves: seq<Move>)
    ensures Inv(Run(moves)) && AllSane(Run(moves))
  {
    if moves != [] {
      SaneInEveryRun(moves[..|moves| - 1]);
      StepKeepsSane(Run(moves[..|moves| - 1]), moves[|moves| - 1]);
    }
  }

  lemma {:induction false} SaneFrom(node: Node, moves: seq<Move>)
    requires Inv(node) && AllSane(node)
    ensures Inv(RunFrom(node, moves)) && AllSane(RunFrom(node, moves))
  {
    if moves != [] {
      SaneFrom(node, moves[..|moves| - 1]);
      StepKeepsSane(RunFrom(node, moves[..|moves| - 1]), moves[|moves| - 1]);
    }
  }

  // ---- Without a pending write-back the removal lasts ----

  ghost predicate Gone(node: Node, id: string) {
    id !in node.table && forall tid :: !Pending(node, tid, id)
  }

  lemma StepKeepsGone(node: Node, move: Move, id: string)
    requires Sound(node.table) && AllSane(node) && Gone(node, id) && !Creates(node, move, id)
    ensures Gone(Next(node, move), id)
  {
    if move.Step? && move.tid in node.threads {
      assert !Pending(node, move.tid, id) && Sane(node.threads[move.tid]);
      forall tid
        ensures !Pending(Next(node, move), tid, id)
      {
        assert !Pending(node, tid, id);
      }
    } else {
      assert forall tid :: Pending(Next(node, move), tid, id) ==> Pending(node, tid, id);
    }
  }

  lemma {:induction false} GoneStays(node: Node, moves: seq<Move>, id: string)
    requires Inv(node) && AllSane(node) && Gone(node, id) && NoCreation(node, moves, id)
    ensures Gone(RunFrom(node, moves), id)
  {
    if moves != [] {
      var front := moves[..|moves| - 1];
      GoneStays(node, front, id);
      SaneFrom(node, front);
      StepKeepsGone(RunFrom(node, front), moves[|moves| - 1], id);
    }
  }

  // ---- With one, the instance can come back ----

  lemma {:induction false} AboveAll(s: set<nat>) returns (bound: nat)
    ensures forall x <- s :: x < bound
  {
    bound := 0;
    if s != {} {
      var x :| x in s;
      var below := AboveAll(s - {x});
      bound := if below <= x then x + 1 else below;
      assert forall y <- s :: y == x || y in s - {x};
    }
  }

  /** The state reached by the moves keeps the other threads where they were. */
  ghost predicate Undisturbed(node: Node, end: Node) {
    forall tid <- node.threads :: tid in end.threads && end.threads[tid] == node.threads[tid]
  }

  /** One more move of a thread of its own. */
  function More(node: Node, moves: seq<Move>, move: Move): (more: seq<Move>)
    ensures RunFrom(node, more) == Next(RunFrom(node, moves), move)
    ensures forall id | NoCreation(node, moves, id) && !Creates(RunFrom(node, moves), move, id) ::
              NoCreation(node, more, id)
  {
    assert (moves + [move])[..|moves|] == moves;
    moves + [move]
  }

  /** The moves lead there without creating the id, past the other threads. */
  ghost predicate Leads(node: Node, moves: seq<Move>, id: string, table: Table, tid: nat, thread: Thread) {
    var end := RunFrom(node, moves);
    && NoCreation(node, moves, id) && Undisturbed(node, end)
    && tid !in node.threads && tid in end.threads && end.threads[tid] == thread && end.table == table
  }

  lemma LeadOn(node: Node, moves: seq<Move>, id: string, tid: nat, thread: Thread, answer: Answer)
    returns (more: seq<Move>)
    requires Leads(node, moves, id, RunFrom(node, moves).table, tid, thread) && !thread.CreateWrite?
    ensures
      var table := RunFrom(node, moves).table;
      Leads(node, more, id, TableAfter(table, thread, answer), tid, ThreadAfter(table, thread, answer))
  {
    more := More(node, moves, Step(tid, answer));
  }

  lemma LeadStart(node: Node, id: string, thread: Thread) returns (moves: seq<Move>, tid: nat)
    requires NodeRuns.Entry(thread)
    ensures Leads(node, moves, id, node.table, tid, thread)
  {
    tid := AboveAll(node.threads.Keys);
    assert tid !in node.threads;
    moves := More(node, [], Call(tid, thread));
  }

  /** The moves lead to the table without creating the id, past the threads that are there. */
  ghost predicate Brings(node: Node, moves: seq<Move>, id: string, table: Table) {
    NoCreation(node, moves, id) && Undisturbed(node, RunFrom(node, moves)) && RunFrom(node, moves).table == table
  }

  lemma {:induction false} InTurn(node: Node, a: seq<Move>, b: seq<Move>, id: string)
    requires NoCreation(node, a, id) && NoCreation(RunFrom(node, a), b, id)
    ensures RunFrom(node, a + b) == RunFrom(RunFrom(node, a), b) && NoCreation(node, a + b, id)
  {
    if b == [] {
      assert a + b == a;
    } else {
      var n := |b| - 1;
      InTurn(node, a, b[..n], id);
      assert (a + b)[..|a + b| - 1] == a + b[..n];
    }
  }

  lemma Arrived(node: Node, moves: seq<Move>, id: string, table: Table, tid: nat, thread: Thread)
    requires Leads(node, moves, id, table, tid, thread)
    ensures Brings(node, moves, id, table) && RunFrom(node, moves).table == table
  {
  }

  /** Reading a record for a state change and writing it back. */
  lemma ChangeState(node: Node, moves: seq<Move>, id: string, tid: nat, o: string, state: VmState, rest: Thread)
    returns (more: seq<Move>)
    requires Sound(node.table) && o in node.table && node.table[o].state != state
    requires Leads(node, moves, id, node.table, tid, StateRead(o, state, rest))
    ensures Brings(node, more, id, WithState(node.table, o, state))
  {
    var table := node.table;
    Arrived(node, moves, id, table, tid, StateRead(o, state, rest));
    more := LeadOn(node, moves, id, tid, StateRead(o, state, rest), Commit);
    var write := StateWrite(table[o].(state := state), rest);
    Arrived(node, more, id, table, tid, write);
    more := LeadOn(node, more, id, tid, write, Commit);
    StateChangeAccepted(table, o, state);
    Arrived(node, more, id, WithState(table, o, state), tid, rest);
  }

  /** A reconciliation has listed all records and heard what runs. */
  lemma ListAll(node: Node, id: string, rows: seq<Instance>, running: set<string>) returns (moves: seq<Move>, tid: nat)
    requires Listing(node.table, rows)
    ensures Leads(node, moves, id, node.table, tid, ReconcileLoop(rows, running))
  {
    var table := node.table;
    moves, tid := LeadStart(node, id, ReconcileList);
    Arrived(node, moves, id, table, tid, ReconcileList);
    hide Leads, Listing;
    moves := LeadOn(node, moves, id, tid, ReconcileList, Rows(rows));
    Arrived(node, moves, id, table, tid, ReconcileQuery(rows));
    moves := LeadOn(node, moves, id, tid, ReconcileQuery(rows), RunningSet(running));
  }

  /** It passes over the rows that agree, and changes the first that does not. */
  lemma {:induction false} ReachRow(node: Node, moves: seq<Move>, id: string, tid: nat, rows: seq<Instance>,
                                    running: set<string>, o: string)
    returns (more: seq<Move>)
    requires Sound(node.table) && o in node.table && node.table[o] in rows
    requires Reconciled(node.table[o], running) != node.table[o]
    requires forall row <- rows | row != node.table[o] :: Reconciled(row, running) == row
    requires Leads(node, moves, id, node.table, tid, ReconcileLoop(rows, running))
    ensures Brings(node, more, id, WithState(node.table, o, Agreed(node.table[o].state, o in running)))
    decreases |rows|
  {
    var table, rest := node.table, ReconcileLoop(rows[1..], running);
    Arrived(node, moves, id, table, tid, ReconcileLoop(rows, running));
    more := LeadOn(node, moves, id, tid, ReconcileLoop(rows, running), Commit);
    assert rows[0] in rows;
    if rows[0] == table[o] {
      hide Leads, Brings;
      more := ChangeState(node, more, id, tid, o, Agreed(table[o].state, o in running), rest);
    } else {
      assert Reconciled(rows[0], running) == rows[0];
      assert forall row <- rows[1..] :: row in rows;
      hide Leads, Brings;
      more := ReachRow(node, more, id, tid, rows[1..], running, o);
    }
  }

  /** QEMU may report the recorded states of all instances but one. */
  function ReportBut(table: Table, o: string, runs: bool): set<string> {
    (set x | x in table && table[x].state == Running && x != o) + if runs then {o} else {}
  }

  lemma OthersAgree(table: Table, rows: seq<Instance>, o: string, runs: bool)
    requires Listing(table, rows) && o in table && table[o].id == o
    ensures table[o] in rows
    ensures Reconciled(table[o], ReportBut(table, o, runs)).state == Agreed(table[o].state, runs)
    ensures forall row <- rows | row != table[o] :: Reconciled(row, ReportBut(table, o, runs)) == row
  {
    ListedIds(table, rows);
    forall row | row in rows && row != table[o]
      ensures Reconciled(row, ReportBut(table, o, runs)) == row
    {
      assert row.id in table && table[row.id] == row;
    }
  }

  /** A reconciliation with such a report changes that record alone. */
  lemma ReconcileOne(node: Node, id: string, o: string, runs: bool) returns (moves: seq<Move>)
    requires Sound(node.table) && o in node.table
    ensures Brings(node, moves, id, WithState(node.table, o, Agreed(node.table[o].state, runs)))
  {
    var table, running := node.table, ReportBut(node.table, o, runs);
    if Agreed(table[o].state, runs) == table[o].state {
      moves := [];
      assert WithState(table, o, table[o].state) == table;
    } else {
      var rows := ListingExists(table);
      OthersAgree(table, rows, o, runs);
      hide Listing, Leads, Brings, ReportBut;
      var tid;
      moves, tid := ListAll(node, id, rows, running);
      moves := ReachRow(node, moves, id, tid, rows, running, o);
    }
  }

  lemma RemoveOne(node: Node, id: string, o: string) returns (moves: seq<Move>)
    requires o in node.table && node.table[o].state == Stopped
    ensures Brings(node, moves, id, node.table - {o})
  {
    var tid;
    moves, tid := LeadStart(node, id, RemoveRead(o));
    Arrived(node, moves, id, node.table, tid, RemoveRead(o));
    moves := LeadOn(node, moves, id, tid, RemoveRead(o), Commit);
    Arrived(node, moves, id, node.table, tid, RemoveWrite(o));
    moves := LeadOn(node, moves, id, tid, RemoveWrite(o), Commit);
    Arrived(node, moves, id, node.table - {o}, tid, NodeRuns.Done);
  }

  lemma BringOn(node: Node, a: seq<Move>, b: seq<Move>, id: string, table: Table, table': Table)
    requires Brings(node, a, id, table) && Brings(RunFrom(node, a), b, id, table')
    ensures Brings(node, a + b, id, table')
  {
    InTurn(node, a, b, id);
  }

  /** Whatever its state, a record can be removed: it is first reported running and then not. */
  lemma FreeRecord(node: Node, id: string, o: string) returns (moves: seq<Move>)
    requires Inv(node) && AllSane(node) && o in node.table
    ensures Brings(node, moves, id, node.table - {o})
  {
    var table := node.table;
    var up := ReconcileOne(node, id, o, true);
    var table1 := WithState(table, o, Running);
    var node1 := RunFrom(node, up);
    SaneFrom(node, up);
    var down := ReconcileOne(node1, id, o, false);
    var table2 := WithState(table1, o, Stopped);
    var node2 := RunFrom(node1, down);
    BringOn(node, up, down, id, table1, table2);
    InTurn(node, up, down, id);
    var gone := RemoveOne(node2, id, o);
    assert table2 - {o} == table - {o};
    BringOn(node, up + down, gone, id, table2, table - {o});
    moves := up + down + gone;
  }

  /** A pending write-back can be committed, once nobody else has the address. */
  lemma WriteBackCommits(node: Node, tid: nat, id: string) returns (moves: seq<Move>)
    requires Inv(node) && AllSane(node) && Pending(node, tid, id)
    ensures NoCreation(node, moves, id)
    ensures id in RunFrom(node, moves).table && RunFrom(node, moves).table[id] == node.threads[tid].copy
  {
    var copy := node.threads[tid].copy;
    assert Complete(copy) by {
      assert Sane(node.threads[tid]);
    }
    moves := [];
    if !MacFree(node.table, copy) {
      var o :| o in node.table && o != id && node.table[o].hwaddr == copy.hwaddr;
      moves := FreeRecord(node, id, o);
      assert forall other | other in node.table && other != o :: node.table[other].hwaddr != node.table[o].hwaddr;
    }
    assert MacFree(RunFrom(node, moves).table, copy) && RunFrom(node, moves).threads[tid] == node.threads[tid];
    moves := More(node, moves, Step(tid, Commit));
  }

  /**
    After a removal, in any run, the instance stays away from every continuation that does not create it anew
    if and only if no call is about to write its record back.
   */
  lemma RemovalLastsExactly(before: seq<Move>, id: string)
    requires id !in Run(before).table
    ensures (forall later | NoCreation(Run(before), later, id) :: id !in RunFrom(Run(before), later).table)
       <==> (forall tid :: !Pending(Run(before), tid, id))
  {
    var node := Run(before);
    SaneInEveryRun(before);
    if tid :| Pending(node, tid, id) {
      var later := WriteBackCommits(node, tid, id);
    } else {
      forall later | NoCreation(node, later, id)
        ensures id !in RunFrom(node, later).table
      {
        GoneStays(node, later, id);
      }
    }
  }
}
