/**
  One download while one store overwrites the same image. The download opens the file under the lock that the store
  holds, but then reads it chunk by chunk without it; the store truncates that file and copies the new content into it.
 */
module SharedFile {
  import opened Wrappers
  import opened Bytes
  import opened ImageTransfer
  import opened Runs
  import FileRegistry

  datatype State = State(
    content: seq<byte>,         // the file
    written: Option<nat>,       // how much the store has copied, once it has truncated the file
    storing: bool,              // the store holds the lock
    reading: bool,              // the download has opened the file
    served: seq<byte>,          // what it has sent; the length is its position in the file
    cut: Option<nat>,           // where an unfinished download stood when the file was truncated
    done: bool)                 // the download has seen the end of the file and succeeded

  datatype Move =
    | Truncate
    | Copy(size: nat)
    | Release                   // the store ends, complete or not
    | Open
    | ReadChunk(wanted: nat)

  function Start(former: seq<byte>): State {
    State(former, None, false, false, [], None, false)
  }

  /** One move, for a store that replaces some content by `data`. A move that cannot be made changes nothing. */
  function Next(data: seq<byte>, s: State, move: Move): State {
    match move
    case Truncate =>
      if s.written.Some? then s
      else s.(content := [], written := Some(0), storing := true, cut := if s.done then None else Some(|s.served|))
    case Copy(size) =>
      if !s.storing || s.written.None? then s
      else
        var w := if s.written.value + size <= |data| then s.written.value + size else |data|;
        s.(content := data[..w], written := Some(w))
    case Release => s.(storing := false)
    case Open => if s.storing then s else s.(reading := true)
    case ReadChunk(wanted) =>
      if !s.reading || s.done then s
      else if |s.content| <= |s.served| then s.(done := true)
      else
        var n := ReadSize(wanted, |s.content| - |s.served|, FileRegistry.CHUNK_SIZE);
        s.(served := s.served + s.content[|s.served|..|s.served| + n])
  }

  function Stepper(data: seq<byte>): (State, Move) -> State {
    (s, move) => Next(data, s, move)
  }

  function RunFrom(data: seq<byte>, s: State, moves: seq<Move>): State {
    Fold(Stepper(data), s, moves)
  }

  function Run(former: seq<byte>, data: seq<byte>, moves: seq<Move>): State {
    RunFrom(data, Start(former), moves)
  }

  // ---- What can be served ----

  /** The old content up to `k`, and the new one from there to `m`. */
  predicate Possible(former: seq<byte>, data: seq<byte>, k: nat, m: nat) {
    k <= |former| && (m == k || k < m <= |data|)
  }

  function Mixed(former: seq<byte>, data: seq<byte>, k: nat, m: nat): seq<byte>
    requires Possible(former, data, k, m)
  {
    former[..k] + if k < m then data[k..m] else []
  }

  ghost predicate Inv(former: seq<byte>, data: seq<byte>, s: State) {
    && (!s.reading ==> s.served == [] && !s.done)
    && (match s.written
        case None => s.content == former && s.cut == None
        case Some(w) => w <= |data| && s.content == data[..w] && (s.cut.None? ==> s.done))
    && (match s.cut
        case None => |s.served| <= |former| && s.served == former[..|s.served|] && (s.done ==> s.served == former)
        case Some(k) => Possible(former, data, k, |s.served|) && s.served == Mixed(former, data, k, |s.served|))
  }

  lemma StepKeepsInv(former: seq<byte>, data: seq<byte>, s: State, move: Move)
    requires Inv(former, data, s)
    ensures Inv(former, data, Next(data, s, move))
  {
    if move.ReadChunk? && s.reading && !s.done && |s.content| > |s.served| {
      ReadKeepsInv(former, data, s, move.wanted);
    }
  }

  lemma ReadKeepsInv(former: seq<byte>, data: seq<byte>, s: State, wanted: nat)
    requires Inv(former, data, s) && s.reading && !s.done && |s.content| > |s.served|
    ensures Inv(former, data, Next(data, s, ReadChunk(wanted)))
  {
    var p, n := |s.served|, ReadSize(wanted, |s.content| - |s.served|, FileRegistry.CHUNK_SIZE);
    var served := s.served + s.content[p..p + n];
    assert Next(data, s, ReadChunk(wanted)) == s.(served := served);
    if s.cut.None? {
      assert served == former[..p + n];
    } else {
      var k, w := s.cut.value, s.written.value;
      assert s.content == data[..w] && data[..w][p..p + n] == data[p..p + n];
      assert served == former[..k] + data[k..p + n];
    }
  }

  lemma {:induction false} InvInEveryRun(former: seq<byte>, data: seq<byte>, moves: seq<Move>)
    ensures Inv(former, data, Run(former, data, moves))
  {
    if moves != [] {
      InvInEveryRun(former, data, moves[..|moves| - 1]);
      StepKeepsInv(former, data, Run(former, data, moves[..|moves| - 1]), moves[|moves| - 1]);
    }
  }

  /**
    In every run a download that succeeds has sent the old content as far as it stood when the file was truncated,
    and the new content from that position on; with no truncation under it, all of the old content.
   */
  lemma ServedMixture(former: seq<byte>, data: seq<byte>, moves: seq<Move>)
    requires Run(former, data, moves).done
    ensures
      var s := Run(former, data, moves);
      match s.cut
      case None => s.served == former
      case Some(k) => Possible(former, data, k, |s.served|) && s.served == Mixed(former, data, k, |s.served|)
  {
    InvInEveryRun(former, data, moves);
  }

  /** Exactly when that is one of the two contents. */
  lemma StoredContentExactly(former: seq<byte>, data: seq<byte>, moves: seq<Move>)
    requires Run(former, data, moves).done
    ensures
      var s := Run(former, data, moves);
      var m := |s.served|;
      s.served == former || s.served == data
      <==> match s.cut
           case None => true
           case Some(k) =>
             || (m == |former| && k <= m && (k < m ==> m <= |data| && former[k..] == data[k..m]))
             || (m == |data| && k <= m && k <= |former| && former[..k] == data[..k])
  {
    ServedMixture(former, data, moves);
    var s := Run(former, data, moves);
    if s.cut.Some? {
      var k, m := s.cut.value, |s.served|;
      assert s.served[..k] == former[..k];
      assert former == former[..k] + former[k..];
      if m == |data| {
        assert data == data[..k] + data[k..];
        assert k < m ==> s.served[k..] == data[k..];
      }
      if k < m {
        assert s.served[k..] == data[k..m];
      }
    }
  }

  /**
    For contents that differ at every position: only if the file was not truncated
    under the download, or before its first byte and it read all, or after its last.
   */
  lemma DistinctContentsExactly(former: seq<byte>, data: seq<byte>, moves: seq<Move>)
    requires Run(former, data, moves).done
    requires forall i | 0 <= i < |former| && i < |data| :: former[i] != data[i]
    ensures
      var s := Run(former, data, moves);
      s.served == former || s.served == data
      <==> s.cut.None? || (s.cut == Some(0) && |s.served| == |data|)
           || (s.cut == Some(|former|) && |s.served| == |former|)
  {
    StoredContentExactly(former, data, moves);
    ServedMixture(former, data, moves);
    var s := Run(former, data, moves);
    if s.cut.Some? {
      var k, m := s.cut.value, |s.served|;
      if m == |former| && k < m && m <= |data| {
        assert former[k..][0] == former[k] && data[k..m][0] == data[k];
      }
      if m == |data| && 0 < k <= |former| {
        assert former[..k][0] == former[0] && data[..k][0] == data[0];
      }
    }
  }

  // ---- Every mixture is served by some run ----

  /** Reads up to a position of the file, byte by byte. */
  lemma {:induction false} ReadTo(former: seq<byte>, data: seq<byte>, moves: seq<Move>, p: nat)
    returns (more: seq<Move>)
    requires var s := Run(former, data, moves); s.reading && !s.done && |s.served| <= p <= |s.content|
    ensures
      var s := Run(former, data, moves);
      Run(former, data, more) == s.(served := s.served + s.content[|s.served|..p])
    decreases p - |Run(former, data, moves).served|
  {
    var s := Run(former, data, moves);
    more := moves;
    if |s.served| == p {
      assert s.served + s.content[p..p] == s.served;
    } else {
      more := moves + [ReadChunk(1)];
      OneMore(Stepper(data), Start(former), moves, ReadChunk(1));
      var q := |s.served|;
      assert s.content[q..q + 1] + s.content[q + 1..p] == s.content[q..p];
      more := ReadTo(former, data, more, p);
    }
  }

  lemma MixtureIsServed(former: seq<byte>, data: seq<byte>, k: nat, m: nat) returns (moves: seq<Move>)
    requires Possible(former, data, k, m)
    ensures Run(former, data, moves).done && Run(former, data, moves).served == Mixed(former, data, k, m)
  {
    var start := Start(former);
    OneMore(Stepper(data), start, [], Open);
    var before := ReadTo(former, data, [] + [Open], k);
    assert [] + former[0..k] == former[..k];
    OneMore(Stepper(data), start, before, Truncate);
    moves := before + [Truncate];
    if k < m {
      OneMore(Stepper(data), start, moves, Copy(m));
      moves := moves + [Copy(m)];
      assert Run(former, data, moves).content == data[..m];
      moves := ReadTo(former, data, moves, m);
      assert data[..m][k..m] == data[k..m];
    }
    OneMore(Stepper(data), start, moves, ReadChunk(0));
    moves := moves + [ReadChunk(0)];
  }

  /** The byte strings that a successful download can send are exactly the mixtures. */
  lemma OutcomesExactly(former: seq<byte>, data: seq<byte>, sent: seq<byte>)
    ensures (exists moves :: Run(former, data, moves).done && Run(former, data, moves).served == sent)
       <==> (exists k: nat, m: nat :: Possible(former, data, k, m) && sent == Mixed(former, data, k, m))
  {
    if moves :| Run(former, data, moves).done && Run(former, data, moves).served == sent {
      ServedMixture(former, data, moves);
      var s := Run(former, data, moves);
      var k := if s.cut.Some? then s.cut.value else |former|;
      assert Possible(former, data, k, |sent|) && sent == Mixed(former, data, k, |sent|);
    }
    if k: nat, m: nat :| Possible(former, data, k, m) && sent == Mixed(former, data, k, m) {
      var moves := MixtureIsServed(former, data, k, m);
    }
  }

  // ---- Without overlap ----

  /** The store is complete and the download has read only what it wrote. */
  ghost predicate Complete(data: seq<byte>, s: State) {
    && s.written == Some(|data|) && s.content == data
    && |s.served| <= |data| && s.served == data[..|s.served|] && (s.done ==> s.served == data)
  }

  lemma {:induction false} CompleteStays(data: seq<byte>, s: State, moves: seq<Move>)
    requires Complete(data, s)
    ensures Complete(data, RunFrom(data, s, moves))
  {
    if moves != [] {
      var n := |moves| - 1;
      CompleteStays(data, s, moves[..n]);
      var t := RunFrom(data, s, moves[..n]);
      if moves[n].ReadChunk? && t.reading && !t.done && |t.served| < |data| {
        var size := ReadSize(moves[n].wanted, |t.content| - |t.served|, FileRegistry.CHUNK_SIZE);
        assert data[..|t.served|] + data[|t.served|..|t.served| + size] == data[..|t.served| + size];
      }
    }
  }

  /** A download that opens the file once the store is complete sends the new content, whatever follows. */
  lemma AfterStoreServesNew(former: seq<byte>, data: seq<byte>, before: seq<Move>, after: seq<Move>)
    requires Run(former, data, before).written == Some(|data|) && !Run(former, data, before).reading
    requires RunFrom(data, Run(former, data, before), after).done
    ensures RunFrom(data, Run(former, data, before), after).served == data
  {
    InvInEveryRun(former, data, before);
    assert data[..|data|] == data;
    CompleteStays(data, Run(former, data, before), after);
  }
}
