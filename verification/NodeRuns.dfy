/**
  Every interleaving of the node manager's operations, at the granularity of database transactions.
  A thread is the rest of one call; each step runs one transaction or receives one answer of QEMU.
 */
module NodeRuns {
  import opened Wrappers
  import opened InstanceStore
  import opened NodeManager
  import opened Runs

  datatype Thread =
    | Done
    | CreateCheck(rec: Instance)                      // about to look whether the id is taken
    | CreateWrite(rec: Instance)                      // about to insert the new record
    | StartRead(id: string)                           // about to read the record to start
    | StartDial(copy: Instance)                       // about to dial QEMU
    | StartCall(copy: Instance)                       // about to send the launch request
    | StateRead(id: string, state: VmState, next: Thread)  // setInstanceState: about to read
    | StateWrite(copy: Instance, next: Thread)        // setInstanceState: about to write the copy back
    | ReconcileList                                   // about to list all records
    | ReconcileQuery(rows: seq<Instance>)             // about to ask QEMU what it runs
    | ReconcileLoop(rows: seq<Instance>, running: set<string>)
    | RemoveRead(id: string)
    | RemoveWrite(id: string)

  /** What the environment decides in a step. */
  datatype Answer =
    | Commit                                          // the transaction commits
    | Fail                                            // it fails or aborts, or the call to QEMU fails
    | Rows(rows: seq<Instance>)                       // what a listing returned
    | RunningSet(ids: set<string>)                    // what QEMU reported

  datatype Move =
    | Call(tid: nat, thread: Thread)
    | Step(tid: nat, answer: Answer)

  datatype Node = Node(
    table: Table,
    threads: map<nat, Thread>,
    created: set<Instance>,                           // records that some Create asked to insert
    launched: seq<Launch>)                            // requests sent to QEMU, oldest first

  const EMPTY := Node(map[], map[], {}, [])

  /** The threads with which an operation begins. A record is created stopped. */
  predicate Entry(thread: Thread) {
    match thread
    case CreateCheck(rec) => rec.state == Stopped
    case StartRead(_) => true
    case ReconcileList => true
    case RemoveRead(_) => true
    case _ => false
  }

  function Next(node: Node, move: Move): Node {
    match move
    case Call(tid, thread) =>
      if Entry(thread) && tid !in node.threads then node.(threads := node.threads[tid := thread]) else node
    case Step(tid, answer) =>
      if tid !in node.threads then node
      else
        var thread := node.threads[tid];
        Node(TableAfter(node.table, thread, answer),
             node.threads[tid := ThreadAfter(node.table, thread, answer)],
             if thread.CreateWrite? then node.created + {thread.rec} else node.created,
             if thread.StartCall? && thread.copy.hwaddr.Some? && thread.copy.hardware.Some?
             then node.launched + [LaunchOf(thread.copy)] else node.launched)
  }

  /** The committed effect of a thread's next transaction. */
  function TableAfter(table: Table, thread: Thread, answer: Answer): Table {
    match thread
    case CreateWrite(rec) => if answer.Commit? then Put(table, rec) else table
    case StateWrite(copy, _) => if answer.Commit? then Put(table, copy) else table
    case RemoveWrite(id) => if answer.Commit? then Drop(table, id) else table
    case _ => table
  }

  /**
    What is left of a call after its next step. A lookup that fails
    counts as an absent record everywhere, also in a creation.
   */
  function ThreadAfter(table: Table, thread: Thread, answer: Answer): Thread {
    match thread
    case Done => Done
    case CreateCheck(rec) => if rec.id in table && !answer.Fail? then Done else CreateWrite(rec)
    case CreateWrite(_) => Done
    case StartRead(id) =>
      if answer.Fail? || id !in table || table[id].state != Stopped || table[id].hwaddr.None? then Done
      else StateRead(id, Starting, StartDial(table[id]))
    case StartDial(copy) => if answer.Commit? then StartCall(copy) else StateRead(copy.id, Stopped, Done)
    case StartCall(copy) => StateRead(copy.id, if answer.Commit? then Running else Stopped, Done)
    case StateRead(id, state, next) =>
      if answer.Fail? || id !in table || table[id].state == state then next
      else StateWrite(table[id].(state := state), next)
    case StateWrite(_, next) => next
    case ReconcileList =>
      if answer.Rows? && Listing(table, answer.rows) then ReconcileQuery(answer.rows) else Done
    case ReconcileQuery(rows) => if answer.RunningSet? then ReconcileLoop(rows, answer.ids) else Done
    case ReconcileLoop(rows, running) =>
      if rows == [] then Done
      else
        var rest := ReconcileLoop(rows[1..], running);
        var agreed := Agreed(rows[0].state, rows[0].id in running);
        if agreed == rows[0].state then rest else StateRead(rows[0].id, agreed, rest)
    case RemoveRead(id) => if !answer.Fail? && id in table && table[id].state == Stopped then RemoveWrite(id) else Done
    case RemoveWrite(_) => Done
  }

  function Run(moves: seq<Move>): Node {
    Fold(Next, EMPTY, moves)
  }

  // ---- The invariant of every run ----

  predicate LiveState(state: VmState) {
    state == Stopped || state == Starting || state == Running
  }

  /** The copy agrees with some created record on everything but the state. */
  predicate Genuine(inst: Instance, created: set<Instance>) {
    LiveState(inst.state) && inst.(state := Stopped) in created
  }

  predicate ThreadOk(thread: Thread, created: set<Instance>) {
    match thread
    case CreateCheck(rec) => rec.state == Stopped
    case CreateWrite(rec) => rec.state == Stopped
    case StartDial(copy) => Genuine(copy, created)
    case StartCall(copy) => Genuine(copy, created)
    case StateRead(_, state, next) => LiveState(state) && ThreadOk(next, created)
    case StateWrite(copy, next) => Genuine(copy, created) && ThreadOk(next, created)
    case ReconcileQuery(rows) => forall row <- rows :: Genuine(row, created)
    case ReconcileLoop(rows, _) => forall row <- rows :: Genuine(row, created)
    case _ => true
  }

  /** The request carries the fields of a created record, with a network config generated only when none was given. */
  ghost predicate LaunchOk(launch: Launch, created: set<Instance>) {
    exists rec <- created :: AsksFor(launch, rec)
  }

  ghost predicate Inv(node: Node) {
    && Sound(node.table)
    && (forall id <- node.table :: Genuine(node.table[id], node.created))
    && (forall tid <- node.threads :: ThreadOk(node.threads[tid], node.created))
    && (forall launch <- node.launched :: LaunchOk(launch, node.created))
  }

  lemma {:induction false} ThreadOkMonotonic(thread: Thread, created: set<Instance>, more: set<Instance>)
    requires ThreadOk(thread, created) && created <= more
    ensures ThreadOk(thread, more)
  {
    match thread
    case StateRead(_, _, next) => ThreadOkMonotonic(next, created, more);
    case StateWrite(_, next) => ThreadOkMonotonic(next, created, more);
    case _ =>
  }

  lemma LaunchFromCopy(copy: Instance, created: set<Instance>)
    requires Genuine(copy, created) && copy.hwaddr.Some? && copy.hardware.Some?
    ensures LaunchOk(LaunchOf(copy), created)
  {
    LaunchExactly(LaunchOf(copy), copy);
    assert AsksFor(LaunchOf(copy), copy.(state := Stopped));
  }

  lemma RowsStayGenuine(table: Table, thread: Thread, answer: Answer, created: set<Instance>, more: set<Instance>)
    requires Sound(table) && forall id <- table :: Genuine(table[id], created)
    requires ThreadOk(thread, created)
    requires more == if thread.CreateWrite? then created + {thread.rec} else created
    ensures Sound(TableAfter(table, thread, answer))
    ensures forall id <- TableAfter(table, thread, answer) :: Genuine(TableAfter(table, thread, answer)[id], more)
  {
    match thread
    case CreateWrite(rec) => SoundPerform(table, UpdateOp(rec));
    case StateWrite(copy, _) => SoundPerform(table, UpdateOp(copy));
    case RemoveWrite(id) => SoundPerform(table, RemoveOp(id));
    case _ =>
  }

  lemma ThreadStaysOk(table: Table, thread: Thread, answer: Answer, created: set<Instance>)
    requires forall id <- table :: Genuine(table[id], created)
    requires ThreadOk(thread, created)
    ensures ThreadOk(ThreadAfter(table, thread, answer), created)
  {
  }

  lemma StepKeepsInv(node: Node, move: Move)
    requires Inv(node)
    ensures Inv(Next(node, move))
  {
    if move.Step? && move.tid in node.threads {
      var thread := node.threads[move.tid];
      var node' := Next(node, move);
      RowsStayGenuine(node.table, thread, move.answer, node.created, node'.created);
      ThreadStaysOk(node.table, thread, move.answer, node.created);
      forall tid <- node'.threads
        ensures ThreadOk(node'.threads[tid], node'.created)
      {
        ThreadOkMonotonic(
          if tid == move.tid then ThreadAfter(node.table, thread, move.answer) else node.threads[tid],
          node.created, node'.created);
      }
      forall launch <- node'.launched
        ensures LaunchOk(launch, node'.created)
      {
        if launch in node.launched {
          var rec :| rec in node.created && AsksFor(launch, rec);
        } else {
          LaunchFromCopy(thread.copy, node.created);
        }
      }
    }
  }

  /**
    In every run: hardware addresses stay unique, every stored record agrees with some created record of that id
    on all fields but the state (so a generated network config is never written back), the state is one of three,
    and what QEMU is asked to launch is what some Create asked for.
   */
  lemma {:induction false} EveryRun(moves: seq<Move>)
    ensures Inv(Run(moves))
  {
    if moves != [] {
      EveryRun(moves[..|moves| - 1]);
      StepKeepsInv(Run(moves[..|moves| - 1]), moves[|moves| - 1]);
    }
  }

  /** The invariant read out for one stored record. */
  lemma StoredRecordsAreCreated(moves: seq<Move>, id: string)
    requires id in Run(moves).table
    ensures
      var inst := Run(moves).table[id];
      && LiveState(inst.state)
      && exists rec <- Run(moves).created :: rec.id == id && rec.state == Stopped && inst == rec.(state := inst.state)
  {
    EveryRun(moves);
    var inst := Run(moves).table[id];
    assert inst.(state := Stopped) in Run(moves).created;
  }

  // ---- Removal and stale write-backs ----

  /**
    A step brings back an id exactly when it commits an accepted
    insert, or a write-back whose record was removed after it was read.
   */
  lemma RevivedExactly(node: Node, move: Move, id: string)
    requires Inv(node) && id !in node.table
    ensures id in Next(node, move).table <==>
            && move.Step? && move.tid in node.threads && move.answer.Commit?
            && (node.threads[move.tid].CreateWrite? || node.threads[move.tid].StateWrite?)
            && var copy := if node.threads[move.tid].CreateWrite? then node.threads[move.tid].rec
                           else node.threads[move.tid].copy;
            copy.id == id && Complete(copy) && MacFree(node.table, copy)
  {
  }

  /** A record disappears only in a committed removal that finds it stopped. */
  lemma RemovedOnlyWhenStopped(node: Node, move: Move, id: string)
    requires Inv(node) && id in node.table
    ensures id !in Next(node, move).table <==>
            && move.Step? && move.tid in node.threads && move.answer.Commit?
            && node.threads[move.tid] == RemoveWrite(id)
            && node.table[id].state == Stopped
  {
  }

  /**
    A removal that commits between the read and the write of a state change does not last.
    For every record that can be created there is a run that removes it and whose next step restores it, as starting.
   */
  lemma RemovalCanBeUndone(rec: Instance)
    requires Complete(rec) && rec.state == Stopped
    ensures exists moves: seq<Move>, tid: nat ::
              && rec in Run(moves).created && rec.id !in Run(moves).table
              && tid in Run(moves).threads && Run(moves).threads[tid].StateWrite?
              && Run(moves + [Step(tid, Commit)]).table == map[rec.id := rec.(state := Starting)]
  {
    hide Run, Then, Created, StartedTwiceRead, RemovedWhileStarting;
    var moves := RemovedWhileStarting(rec, StartedTwiceRead(rec, Created(rec)));
    var _ := Then(moves, Step(1, Commit));
  }

  function Then(moves: seq<Move>, move: Move): (more: seq<Move>)
    ensures more == moves + [move] && Run(more) == Next(Run(moves), move)
  {
    After(Next, EMPTY, moves, move)
  }

  function Created(rec: Instance): (moves: seq<Move>)
    requires Complete(rec) && rec.state == Stopped
    ensures Run(moves) == Node(map[rec.id := rec], map[0 := Done], {rec}, [])
  {
    Then(Then(Then([], Call(0, CreateCheck(rec))), Step(0, Commit)), Step(0, Commit))
  }

  /** The start has read the record, and read it again for its first state change. */
  function StartedTwiceRead(rec: Instance, moves: seq<Move>): (more: seq<Move>)
    requires Complete(rec) && rec.state == Stopped
    requires Run(moves) == Node(map[rec.id := rec], map[0 := Done], {rec}, [])
    ensures Run(more) == Node(map[rec.id := rec], map[0 := Done, 1 := StartWriting(rec)], {rec}, [])
  {
    Then(Then(Then(moves, Call(1, StartRead(rec.id))), Step(1, Commit)), Step(1, Commit))
  }

  function StartWriting(rec: Instance): Thread {
    StateWrite(rec.(state := Starting), StartDial(rec))
  }

  function RemovedWhileStarting(rec: Instance, moves: seq<Move>): (more: seq<Move>)
    requires rec.state == Stopped
    requires Run(moves) == Node(map[rec.id := rec], map[0 := Done, 1 := StartWriting(rec)], {rec}, [])
    ensures Run(more) == Node(map[], map[0 := Done, 1 := StartWriting(rec), 2 := Done], {rec}, [])
  {
    var called := Then(moves, Call(2, RemoveRead(rec.id)));
    var read := Then(called, Step(2, Commit));
    assert Run(read) == Run(moves).(threads := Run(moves).threads[2 := RemoveWrite(rec.id)]);
    Then(read, Step(2, Commit))
  }
}
