/** When a stored record is replaced by another under its id: stale write-backs, and creations that do not see it. */
module NodeReplacements {
  import opened InstanceStore
  import opened NodeManager
  import opened NodeRuns
  import opened NodeRemovals
  import opened Runs

  /** The records agree on everything but the state. */
  predicate SameFields(a: Instance, b: Instance) {
    a.(state := b.state) == b
  }

  /** The record that a thread is about to write, if it writes in its next step. */
  predicate Writes(thread: Thread, inst: Instance) {
    thread == CreateWrite(inst) || (thread.StateWrite? && thread.copy == inst)
  }

  /** In one step: exactly by an accepted, committed write under that id of a record whose fields differ. */
  lemma ReplacedExactly(node: Node, move: Move, id: string)
    requires Inv(node) && id in node.table
    ensures id in Next(node, move).table && !SameFields(Next(node, move).table[id], node.table[id])
       <==> && move.Step? && move.tid in node.threads && move.answer.Commit?
            && exists inst :: && Writes(node.threads[move.tid], inst) && inst.id == id
                              && !SameFields(inst, node.table[id])
                              && Complete(inst) && MacFree(node.table, inst)
  {
    if move.Step? && move.tid in node.threads {
      var thread := node.threads[move.tid];
      match thread
      case CreateWrite(rec) => assert Writes(thread, rec);
      case StateWrite(copy, _) => assert Writes(thread, copy);
      case _ =>
    }
  }

  // ---- Over runs ----

  /** No record of the id, stored or about to be written back, has other fields than this one. */
  ghost predicate OnlyFields(node: Node, id: string, rec: Instance) {
    && (id in node.table ==> SameFields(node.table[id], rec))
    && forall tid | Pending(node, tid, id) :: SameFields(node.threads[tid].copy, rec)
  }

  lemma StepKeepsFields(node: Node, move: Move, id: string, rec: Instance)
    requires Sound(node.table) && AllSane(node) && OnlyFields(node, id, rec) && !Creates(node, move, id)
    ensures OnlyFields(Next(node, move), id, rec)
  {
    var next := Next(node, move);
    if move.Step? && move.tid in node.threads {
      assert Sane(node.threads[move.tid]);
      assert Pending(node, move.tid, id) ==> SameFields(node.threads[move.tid].copy, rec);
    }
    forall tid | Pending(next, tid, id)
      ensures SameFields(next.threads[tid].copy, rec)
    {
      assert Pending(node, tid, id) || (move.Step? && tid == move.tid);
    }
  }

  lemma {:induction false} FieldsStay(node: Node, moves: seq<Move>, id: string, rec: Instance)
    requires Inv(node) && AllSane(node) && OnlyFields(node, id, rec) && NoCreation(node, moves, id)
    ensures OnlyFields(RunFrom(node, moves), id, rec)
  {
    if moves != [] {
      var front := moves[..|moves| - 1];
      FieldsStay(node, front, id, rec);
      SaneFrom(node, front);
      StepKeepsFields(RunFrom(node, front), moves[|moves| - 1], id, rec);
    }
  }

  /**
    After any run, in every continuation without a creation of the id, the stored record keeps its fields
    if and only if no call is about to write back a record of the id with other fields.
   */
  lemma FieldsLastExactly(before: seq<Move>, id: string)
    requires id in Run(before).table
    ensures
      var node := Run(before);
      (forall later | NoCreation(node, later, id) && id in RunFrom(node, later).table ::
         SameFields(RunFrom(node, later).table[id], node.table[id]))
      <==> (forall tid | Pending(node, tid, id) :: SameFields(node.threads[tid].copy, node.table[id]))
  {
    var node := Run(before);
    SaneInEveryRun(before);
    if tid :| Pending(node, tid, id) && !SameFields(node.threads[tid].copy, node.table[id]) {
      var later := WriteBackCommits(node, tid, id);
    } else {
      forall later | NoCreation(node, later, id) && id in RunFrom(node, later).table
        ensures SameFields(RunFrom(node, later).table[id], node.table[id])
      {
        FieldsStay(node, later, id, node.table[id]);
      }
    }
  }

  // ---- Runs that lose a record ----

  /** A creation whose lookup fails writes over the stored record, whatever its state, if it is accepted. */
  lemma FailedLookupReplaces(node: Node, tid: nat, rec: Instance)
    requires Inv(node) && rec.id in node.table && tid in node.threads && node.threads[tid] == CreateCheck(rec)
    ensures
      var after := Next(Next(node, Step(tid, Fail)), Step(tid, Commit));
      after.table == if Complete(rec) && MacFree(node.table, rec) then node.table[rec.id := rec] else node.table
  {
  }

  /** The run in which two creations of one id both find it free before either inserts it. */
  function BothChecked(first: Instance, second: Instance): (moves: seq<Move>)
    requires first.state == Stopped && second.state == Stopped
    ensures Run(moves) == Node(map[], map[0 := CreateWrite(first), 1 := CreateWrite(second)], {}, [])
  {
    Then(Then(Then(Then([], Call(0, CreateCheck(first))), Call(1, CreateCheck(second))), Step(0, Commit)),
         Step(1, Commit))
  }

  /**
    For any two records of one id that can be created, a run has
    the second creation replace the record that the first inserted.
   */
  lemma CreationsCollide(first: Instance, second: Instance)
    requires Complete(first) && Complete(second) && first.id == second.id
    requires first.state == Stopped && second.state == Stopped
    ensures exists moves: seq<Move>, tid: nat ::
              && Run(moves).table == map[first.id := first]
              && Run(moves + [Step(tid, Commit)]).table == map[first.id := second]
  {
    hide Run, Then, BothChecked;
    var moves := Then(BothChecked(first, second), Step(0, Commit));
    var _ := Then(moves, Step(1, Commit));
  }

  /** The record was removed while a start was about to write it back, and created anew with other fields. */
  function CreatedAnew(former: Instance, latter: Instance, moves: seq<Move>): (more: seq<Move>)
    requires Complete(latter) && latter.state == Stopped
    requires Run(moves) == Node(map[], map[0 := Done, 1 := StartWriting(former), 2 := Done], {former}, [])
    ensures Run(more).table == map[latter.id := latter]
    ensures 1 in Run(more).threads && Run(more).threads[1] == StartWriting(former)
  {
    Then(Then(Then(moves, Call(3, CreateCheck(latter))), Step(3, Commit)), Step(3, Commit))
  }

  /** For any two such records there is a run that brings the removed one back over the one created in its place. */
  lemma StaleWriteReplaces(former: Instance, latter: Instance)
    requires Complete(former) && Complete(latter) && former.id == latter.id && former.state == Stopped
             && latter.state == Stopped
    ensures exists moves: seq<Move>, tid: nat ::
              && Run(moves).table == map[former.id := latter]
              && Run(moves + [Step(tid, Commit)]).table == map[former.id := former.(state := Starting)]
  {
    hide Run, Then, Created, StartedTwiceRead, RemovedWhileStarting, CreatedAnew;
    var moves := CreatedAnew(former, latter, RemovedWhileStarting(former, StartedTwiceRead(former, Created(former))));
    var _ := Then(moves, Step(1, Commit));
  }
}
