/**
  Starting instances in the QEMU service: a single-flight guard per instance id protects the shared temporary
  download path, and a finished download is renamed to the image path. Files are modelled with inodes, so that a
  writer keeps its file when the path is unlinked or renamed under it.
 */
module StartGuard {
  import opened Wrappers
  import opened Bytes
  import opened Runs
  import ImageTransfer

  type Content = seq<byte>

  datatype Path = Tmp(id: string) | Image(id: string)

  /** The directory entries and the contents of all inodes ever created. */
  datatype Files = Files(names: map<Path, nat>, data: seq<Content>)

  /** Where a call inside the guarded body stands. `content` is what the registry is serving it. */
  datatype Point =
    | MakeDir
    | CheckImage
    | CreateTmp
    | Fetch(inode: nat, content: Content, written: nat)
    | Rename(inode: nat, content: Content)
    | RemoveTmp
    | Launch
    | Leave

  datatype Caller =
    | Arrived(id: string)
    | Inside(id: string, at: Point)
    | Rejected(id: string)
    | Returned(id: string)

  datatype Server = Server(
    starting: set<string>,
    callers: map<nat, Caller>,
    files: Files,
    served: set<(string, Content)>,  // what the registry has started to serve, and to the start of which instance
    holder: map<string, nat>)   // who entered under each id of the starting set

  /** What the environment decides for a step of a call. */
  datatype Outcome =
    | Done
    | Error
    | Serve(content: Content)   // the registry starts to serve this content
    | Chunk(size: nat)          // the next chunk arrives and is written
    | BadChunk(size: nat)       // a chunk arrives and only that much of it is written

  datatype Move =
    | Arrive(tid: nat, id: string)
    | Step(tid: nat, outcome: Outcome)
    | Unlink(path: Path)        // a concurrent removal of the instance directory
    | Crash                     // the process dies; the files stay

  const BOOT := Server({}, map[], Files(map[], []), {}, map[])

  function Next(s: Server, move: Move): Server {
    match move
    case Arrive(tid, id) => if tid in s.callers then s else s.(callers := s.callers[tid := Arrived(id)])
    case Step(tid, outcome) => if tid in s.callers then StepOf(s, tid, s.callers[tid], outcome) else s
    case Unlink(path) => s.(files := s.files.(names := s.files.names - {path}))
    case Crash => s.(starting := {}, callers := map[], holder := map[])
  }

  function StepOf(s: Server, tid: nat, caller: Caller, outcome: Outcome): Server {
    match caller
    case Arrived(id) =>
      // under the lock
      if id in s.starting then s.(callers := s.callers[tid := Rejected(id)])
      else s.(starting := s.starting + {id}, callers := s.callers[tid := Inside(id, MakeDir)],
           holder := s.holder[id := tid])
    case Inside(id, Leave) =>
      // the deferred release, under the lock
      s.(starting := s.starting - {id}, callers := s.callers[tid := Returned(id)], holder := s.holder - {id})
    case Inside(id, at) =>
      s.(callers := s.callers[tid := Inside(id, PointAfter(s.files, id, at, outcome))],
      files := FilesAfter(s.files, id, at, outcome),
      served := ServedAfter(s.served, id, at, outcome))
    case _ => s
  }

  /** Opening for writing truncates an existing file and creates a missing one. */
  function Create(files: Files, path: Path): Files {
    if path in files.names && files.names[path] < |files.data|
    then files.(data := files.data[files.names[path] := []])
    else Files(files.names[path := |files.data|], files.data + [[]])
  }

  function PointAfter(files: Files, id: string, at: Point, outcome: Outcome): Point {
    match at
    case MakeDir => if outcome.Error? then Leave else CheckImage
    case CheckImage => if Image(id) in files.names then Launch else CreateTmp
    case CreateTmp =>
      if outcome.Serve? then Fetch(Create(files, Tmp(id)).names[Tmp(id)], outcome.content, 0) else RemoveTmp
    case Fetch(inode, content, written) =>
      (match outcome
       case Chunk(size) => Fetch(inode, content, Clip(content, written + size))
       case Done => if written == |content| then Rename(inode, content) else RemoveTmp
       case _ => RemoveTmp)
    case Rename(_, _) => if outcome.Done? && Tmp(id) in files.names then Launch else RemoveTmp
    case RemoveTmp => Leave
    case Launch => Leave
    case Leave => Leave
  }

  function Clip(content: Content, n: nat): nat {
    if n <= |content| then n else |content|
  }

  function FilesAfter(files: Files, id: string, at: Point, outcome: Outcome): Files {
    match at
    case CreateTmp =>
      if outcome.Serve? || outcome.Done? then Create(files, Tmp(id)) else files
    case Fetch(inode, content, written) =>
      if (outcome.Chunk? || outcome.BadChunk?) && inode < |files.data| && written <= |content|
      then (var more := content[written..Clip(content, written + outcome.size)];
            files.(data := files.data[inode := files.data[inode] + more]))
      else files
    case Rename(_, _) =>
      if outcome.Done? && Tmp(id) in files.names
      then files.(names := (files.names - {Tmp(id)})[Image(id) := files.names[Tmp(id)]])
      else files
    case RemoveTmp =>
      if outcome.Done? then files.(names := files.names - {Tmp(id)}) else files
    case _ => files
  }

  function Run(moves: seq<Move>): Server {
    Fold(Next, BOOT, moves)
  }

  // ---- The guard ----

  predicate IsInside(s: Server, tid: nat) {
    tid in s.callers && s.callers[tid].Inside?
  }

  /** Every id of the set is held by one caller inside the body, and every caller inside holds its id. */
  ghost predicate Guarded(s: Server) {
    && s.starting == s.holder.Keys
    && (forall id <- s.holder :: IsInside(s, s.holder[id]) && s.callers[s.holder[id]].id == id)
    && (forall t | IsInside(s, t) :: s.callers[t].id in s.holder && s.holder[s.callers[t].id] == t)
  }

  lemma StepKeepsGuard(s: Server, move: Move)
    requires Guarded(s)
    ensures Guarded(Next(s, move))
  {
    forall t | IsInside(Next(s, move), t)
      ensures s.callers[t].id in Next(s, move).holder && Next(s, move).holder[s.callers[t].id] == t
    {
      assert IsInside(s, t) || (move == Step(t, move.outcome) && s.callers[t].Arrived?);
    }
  }

  lemma {:induction false} GuardedInEveryRun(moves: seq<Move>)
    ensures Guarded(Run(moves))
  {
    if moves != [] {
      GuardedInEveryRun(moves[..|moves| - 1]);
      StepKeepsGuard(Run(moves[..|moves| - 1]), moves[|moves| - 1]);
    }
  }

  /** In every run at most one caller per id is inside the guarded body, and the set holds exactly their ids. */
  lemma SingleFlight(moves: seq<Move>, t: nat, u: nat)
    ensures
      var s := Run(moves);
      && (IsInside(s, t) && IsInside(s, u) && s.callers[t].id == s.callers[u].id ==> t == u)
      && s.starting == set v | v in s.callers && s.callers[v].Inside? :: s.callers[v].id
  {
    GuardedInEveryRun(moves);
  }

  /**
    An entry of the set is released exactly by the caller that
    holds it, as it leaves, or by a crash: never by a rejected one.
   */
  lemma ReleasedByHolderOnly(moves: seq<Move>, move: Move, id: string)
    requires id in Run(moves).starting
    ensures
      var s := Run(moves);
      id !in Next(s, move).starting <==>
      || move.Crash?
      || (move.Step? && move.tid in s.callers && s.callers[move.tid] == Inside(id, Leave)
          && id in s.holder && s.holder[id] == move.tid)
  {
    GuardedInEveryRun(moves);
    ReleaseStep(Run(moves), move, id);
  }

  lemma ReleaseStep(s: Server, move: Move, id: string)
    requires Guarded(s) && id in s.starting
    ensures id !in Next(s, move).starting <==>
            move.Crash? || (move.Step? && s.holder[id] == move.tid && s.callers[move.tid].at.Leave?)
  {
    assert IsInside(s, s.holder[id]) && s.callers[s.holder[id]].id == id;
    if move.Step? && IsInside(s, move.tid) {
      assert s.holder[s.callers[move.tid].id] == move.tid;
    }
  }

  // ---- The files ----

  /** The inode a call is downloading to. */
  function Open(at: Point): Option<nat> {
    match at
    case Fetch(inode, _, _) => Some(inode)
    case Rename(inode, _) => Some(inode)
    case _ => None
  }

  /** What the call's own file holds so far. */
  predicate Progress(files: Files, served: set<(string, Content)>, id: string, at: Point) {
    match at
    case Fetch(inode, content, written) =>
      (id, content) in served && inode < |files.data| && written <= |content| && files.data[inode] == content[..written]
    case Rename(inode, content) =>
      (id, content) in served && inode < |files.data| && files.data[inode] == content
    case _ => true
  }

  /** The call's open file goes by no other name than its temporary path, and that path leads to no other file. */
  ghost predicate OwnFile(files: Files, id: string, at: Point) {
    Open(at).Some? ==> forall p <- files.names :: files.names[p] == Open(at).value <==> p == Tmp(id)
  }

  ghost predicate CallOk(files: Files, served: set<(string, Content)>, id: string, at: Point) {
    Progress(files, served, id, at) && OwnFile(files, id, at)
  }

  /** Entries lead to distinct files, and what stands under an image path is a completely served content. */
  ghost predicate NamesOk(files: Files, served: set<(string, Content)>) {
    && (forall p <- files.names :: files.names[p] < |files.data|)
    && (forall p, q | p in files.names && q in files.names && files.names[p] == files.names[q] :: p == q)
    && (forall id | Image(id) in files.names :: (id, files.data[files.names[Image(id)]]) in served)
  }

  ghost predicate FilesOk(s: Server) {
    && NamesOk(s.files, s.served)
    && (forall t | IsInside(s, t) :: CallOk(s.files, s.served, s.callers[t].id, s.callers[t].at))
    && (forall t, u | IsInside(s, t) && IsInside(s, u) && t != u && Open(s.callers[t].at).Some? ::
          Open(s.callers[t].at) != Open(s.callers[u].at))
  }

  function ServedAfter(served: set<(string, Content)>, id: string, at: Point, outcome: Outcome)
    : set<(string, Content)>
  {
    if at.CreateTmp? && outcome.Serve? then served + {(id, outcome.content)} else served
  }

  /** Only a finished download is renamed to an image path, and no write reaches a file that has one. */
  lemma NamesStep(files: Files, served: set<(string, Content)>, id: string, at: Point, outcome: Outcome)
    requires NamesOk(files, served) && CallOk(files, served, id, at)
    ensures NamesOk(FilesAfter(files, id, at, outcome), ServedAfter(served, id, at, outcome))
  {
    match at
    case CreateTmp => CreateKeepsNames(files, served, id);
    case Rename(_, _) => RenameKeepsNames(files, served, id, at);
    case _ =>
  }

  lemma CreateKeepsNames(files: Files, served: set<(string, Content)>, id: string)
    requires NamesOk(files, served)
    ensures NamesOk(Create(files, Tmp(id)), served)
  {
  }

  lemma RenameKeepsNames(files: Files, served: set<(string, Content)>, id: string, at: Point)
    requires NamesOk(files, served) && CallOk(files, served, id, at) && at.Rename?
    ensures NamesOk(FilesAfter(files, id, at, Done), served)
  {
  }

  /** A step of a call keeps its own file in order. */
  lemma OwnStep(files: Files, served: set<(string, Content)>, id: string, at: Point, outcome: Outcome)
    requires NamesOk(files, served) && CallOk(files, served, id, at)
    ensures CallOk(FilesAfter(files, id, at, outcome), ServedAfter(served, id, at, outcome), id,
                   PointAfter(files, id, at, outcome))
  {
    match at
    case Fetch(inode, content, written) =>
      if outcome.Chunk? || outcome.BadChunk? {
        var upto := Clip(content, written + outcome.size);
        assert content[..written] + content[written..upto] == content[..upto];
      }
      assert outcome.Done? && written == |content| ==> content[..written] == content;
    case _ =>
  }

  /** It does not touch the file of another call. */
  lemma OtherStep(files: Files, served: set<(string, Content)>, id: string, at: Point, outcome: Outcome, id2: string,
                  at2: Point)
    requires NamesOk(files, served) && CallOk(files, served, id, at) && CallOk(files, served, id2, at2)
    requires id != id2 && (Open(at2).Some? ==> Open(at) != Open(at2))
    ensures CallOk(FilesAfter(files, id, at, outcome), ServedAfter(served, id, at, outcome), id2, at2)
    ensures Open(at2).Some? ==> Open(PointAfter(files, id, at, outcome)) != Open(at2)
  {
  }

  lemma StepKeepsFiles(s: Server, move: Move)
    requires Guarded(s) && FilesOk(s)
    ensures FilesOk(Next(s, move))
  {
    if move.Step? && IsInside(s, move.tid) && !s.callers[move.tid].at.Leave? {
      InsideStepKeepsFiles(s, move.tid, move.outcome);
    } else {
      FewerNamesKeepFiles(s, Next(s, move));
    }
  }

  /** Entering, leaving, crashing and unlinking neither write a file nor give one a new name. */
  lemma FewerNamesKeepFiles(s: Server, s': Server)
    requires FilesOk(s)
    requires s'.files.data == s.files.data && s'.served == s.served
    requires forall p <- s'.files.names :: p in s.files.names && s'.files.names[p] == s.files.names[p]
    requires forall t | IsInside(s', t) ::
               s'.callers[t].at == MakeDir || (IsInside(s, t) && s'.callers[t] == s.callers[t])
    ensures FilesOk(s')
  {
    forall t | IsInside(s', t)
      ensures CallOk(s'.files, s'.served, s'.callers[t].id, s'.callers[t].at)
    {
      assert s'.callers[t].at != MakeDir ==> CallOk(s.files, s.served, s.callers[t].id, s.callers[t].at);
    }
  }

  lemma InsideStepKeepsFiles(s: Server, tid: nat, outcome: Outcome)
    requires Guarded(s) && FilesOk(s)
    requires IsInside(s, tid) && !s.callers[tid].at.Leave?
    ensures FilesOk(Next(s, Step(tid, outcome)))
  {
    var s' := Next(s, Step(tid, outcome));
    var id, at := s.callers[tid].id, s.callers[tid].at;
    var at' := PointAfter(s.files, id, at, outcome);
    NamesStep(s.files, s.served, id, at, outcome);
    OwnStep(s.files, s.served, id, at, outcome);
    assert s'.callers == s.callers[tid := Inside(id, at')];
    forall t | IsInside(s, t) && t != tid
      ensures CallOk(s'.files, s'.served, s.callers[t].id, s.callers[t].at)
      ensures Open(s.callers[t].at).Some? ==> Open(at') != Open(s.callers[t].at)
    {
      assert s.holder[s.callers[t].id] == t && s.holder[id] == tid;
      OtherStep(s.files, s.served, id, at, outcome, s.callers[t].id, s.callers[t].at);
    }
  }

  lemma {:induction false} FilesInEveryRun(moves: seq<Move>)
    ensures FilesOk(Run(moves))
  {
    if moves != [] {
      var front := moves[..|moves| - 1];
      FilesInEveryRun(front);
      GuardedInEveryRun(front);
      StepKeepsFiles(Run(front), moves[|moves| - 1]);
    }
  }

  /** Whatever fails, and wherever a crash strikes, the image path of an instance never holds a partial download:
      its file is, in full, a content that the registry served to a start of that instance. */
  lemma NoPartialImage(moves: seq<Move>, id: string)
    requires Image(id) in Run(moves).files.names
    ensures Run(moves).files.names[Image(id)] < |Run(moves).files.data|
    ensures (id, Run(moves).files.data[Run(moves).files.names[Image(id)]]) in Run(moves).served
  {
    FilesInEveryRun(moves);
  }

  /**
    A content counts as served for an instance exactly from when the registry serves it to a call for that instance.
   */
  lemma ServedExactly(s: Server, move: Move, id: string, content: Content)
    ensures (id, content) in Next(s, move).served <==>
            || (id, content) in s.served
            || (move.Step? && move.outcome == Serve(content) && move.tid in s.callers
                && s.callers[move.tid] == Inside(id, CreateTmp))
  {
  }

  // ---- A call that nothing interferes with ----

  /** What is read under each path. */
  function Readable(files: Files): map<Path, Content> {
    map p | p in files.names && files.names[p] < |files.data| :: files.data[files.names[p]]
  }

  predicate SameUnder(a: map<Path, Content>, b: map<Path, Content>, p: Path) {
    (p in a <==> p in b) && (p in a && p in b ==> a[p] == b[p])
  }

  /** A call has changed nothing but what is under its own two paths. */
  ghost predicate OthersSame(before: map<Path, Content>, now: map<Path, Content>, id: string) {
    forall p | p != Tmp(id) && p != Image(id) :: SameUnder(before, now, p)
  }

  /** What it has done to its own two, if its own steps were the only ones. */
  predicate OwnSteps(before: map<Path, Content>, now: map<Path, Content>, served: set<(string, Content)>, id: string,
                     at: Point)
  {
    && (Image(id) in before ==> now == before)
    && (Image(id) in now && Image(id) !in before ==> (id, now[Image(id)]) in served && Tmp(id) !in now)
    && (at.CreateTmp? || at.Fetch? || at.Rename? || at.RemoveTmp? ==> Image(id) !in before && Image(id) !in now)
    && (at.MakeDir? || at.CheckImage? ==> now == before)
    && (at.Launch? ==> Image(id) in now)
  }

  ghost predicate Alone(before: map<Path, Content>, files: Files, served: set<(string, Content)>, id: string,
                        at: Point) {
    OthersSame(before, Readable(files), id) && OwnSteps(before, Readable(files), served, id, at)
  }

  lemma CreateReadable(files: Files, served: set<(string, Content)>, path: Path)
    requires NamesOk(files, served)
    ensures Readable(Create(files, path)) == Readable(files)[path := []]
  {
  }

  lemma WriteReadable(files: Files, served: set<(string, Content)>, path: Path, more: Content)
    requires NamesOk(files, served) && path in files.names
    ensures
      var inode := files.names[path];
      Readable(files.(data := files.data[inode := files.data[inode] + more])) ==
      Readable(files)[path := Readable(files)[path] + more]
  {
  }

  lemma RenameReadable(files: Files, served: set<(string, Content)>, from: Path, to: Path)
    requires NamesOk(files, served) && from in files.names && from != to
    ensures Readable(files.(names := (files.names - {from})[to := files.names[from]])) ==
            (Readable(files) - {from})[to := Readable(files)[from]]
  {
  }

  lemma UnlinkReadable(files: Files, served: set<(string, Content)>, path: Path)
    requires NamesOk(files, served)
    ensures Readable(files.(names := files.names - {path})) == Readable(files) - {path}
  {
  }

  lemma WriteUnnamed(files: Files, inode: nat, more: Content)
    requires inode < |files.data| && forall p <- files.names :: files.names[p] != inode
    ensures Readable(files.(data := files.data[inode := files.data[inode] + more])) == Readable(files)
  {
  }

  lemma FetchReadable(files: Files, served: set<(string, Content)>, id: string, at: Point, size: nat, outcome: Outcome)
    requires NamesOk(files, served) && CallOk(files, served, id, at) && at.Fetch?
    requires outcome == Chunk(size) || outcome == BadChunk(size)
    ensures
      var now, next := Readable(files), Readable(FilesAfter(files, id, at, outcome));
      next == if Tmp(id) in files.names then now[Tmp(id) := at.content[..Clip(at.content, at.written + size)]] else now
  {
    var inode, upto := at.inode, Clip(at.content, at.written + size);
    var more := at.content[at.written..upto];
    assert at.content[..at.written] + more == at.content[..upto];
    assert FilesAfter(files, id, at, outcome) == files.(data := files.data[inode := files.data[inode] + more]);
    if Tmp(id) in files.names {
      assert files.names[Tmp(id)] == inode && Readable(files)[Tmp(id)] == at.content[..at.written];
      WriteReadable(files, served, Tmp(id), more);
    } else {
      WriteUnnamed(files, inode, more);
    }
    hide *;
  }

  /** A step of a call, read off the paths. A write may go to a file that was unlinked under the call. */
  lemma ReadableStep(files: Files, served: set<(string, Content)>, id: string, at: Point, outcome: Outcome)
    requires NamesOk(files, served) && CallOk(files, served, id, at)
    ensures
      var now, next := Readable(files), Readable(FilesAfter(files, id, at, outcome));
      match at
      case CreateTmp => next == if outcome.Serve? || outcome.Done? then now[Tmp(id) := []] else now
      case Fetch(_, content, written) =>
        next == if (outcome.Chunk? || outcome.BadChunk?) && Tmp(id) in now
        then now[Tmp(id) := content[..Clip(content, written + outcome.size)]] else now
      case Rename(_, content) =>
        next == if outcome.Done? && Tmp(id) in now then (now - {Tmp(id)})[Image(id) := content] else now
      case RemoveTmp => next == if outcome.Done? then now - {Tmp(id)} else now
      case _ => next == now
  {
    match at
    case CreateTmp => CreateReadable(files, served, Tmp(id));
    case Fetch(_, _, _) =>
      if outcome.Chunk? || outcome.BadChunk? {
        FetchReadable(files, served, id, at, outcome.size, outcome);
      }
    case Rename(_, _) =>
      if Tmp(id) in files.names {
        RenameReadable(files, served, Tmp(id), Image(id));
      }
    case RemoveTmp => UnlinkReadable(files, served, Tmp(id));
    case _ =>
  }

  lemma OthersSameInStep(before: map<Path, Content>, files: Files, served: set<(string, Content)>, id: string,
                         at: Point, outcome: Outcome)
    requires NamesOk(files, served) && CallOk(files, served, id, at) && OthersSame(before, Readable(files), id)
    ensures OthersSame(before, Readable(FilesAfter(files, id, at, outcome)), id)
  {
    ReadableStep(files, served, id, at, outcome);
    hide NamesOk, CallOk, Readable, FilesAfter;
    forall p | p != Tmp(id) && p != Image(id)
      ensures SameUnder(before, Readable(FilesAfter(files, id, at, outcome)), p)
    {
      assert SameUnder(before, Readable(files), p);
    }
  }

  lemma OwnStepsInStep(before: map<Path, Content>, files: Files, served: set<(string, Content)>, id: string, at: Point,
                       outcome: Outcome)
    requires NamesOk(files, served) && CallOk(files, served, id, at)
    requires OwnSteps(before, Readable(files), served, id, at)
    ensures OwnSteps(before, Readable(FilesAfter(files, id, at, outcome)), ServedAfter(served, id, at, outcome), id,
                     PointAfter(files, id, at, outcome))
  {
    ReadableStep(files, served, id, at, outcome);
    assert Image(id) in Readable(files) <==> Image(id) in files.names;
    assert Tmp(id) in Readable(files) <==> Tmp(id) in files.names;
    assert at.Rename? ==> (id, at.content) in served;
    hide NamesOk, CallOk, Readable, FilesAfter, Create, Clip, Progress, OwnFile;
  }

  /** Where a call stands, with the files and what was served. */
  datatype Stand = Stand(files: Files, served: set<(string, Content)>, at: Point)

  function StepBy(id: string): (Stand, Outcome) -> Stand {
    (s: Stand, outcome: Outcome) =>
      Stand(FilesAfter(s.files, id, s.at, outcome), ServedAfter(s.served, id, s.at, outcome),
            PointAfter(s.files, id, s.at, outcome))
  }

  function Walk(s: Stand, id: string, outcomes: seq<Outcome>): Stand {
    Fold(StepBy(id), s, outcomes)
  }

  /**
    Whatever fails in it, a call alone keeps an image that it found, and touches no files but its own two. It launches
    only with an image in place, and an image that it brings is one that was served, with the temporary file gone.
   */
  lemma {:induction false} CallAlone(files: Files, served: set<(string, Content)>, id: string, outcomes: seq<Outcome>)
    requires NamesOk(files, served)
    ensures
      var s := Walk(Stand(files, served, MakeDir), id, outcomes);
      NamesOk(s.files, s.served) && CallOk(s.files, s.served, id, s.at)
      && Alone(Readable(files), s.files, s.served, id, s.at)
  {
    if outcomes != [] {
      var front, outcome := outcomes[..|outcomes| - 1], outcomes[|outcomes| - 1];
      CallAlone(files, served, id, front);
      var s := Walk(Stand(files, served, MakeDir), id, front);
      NamesStep(s.files, s.served, id, s.at, outcome);
      OwnStep(s.files, s.served, id, s.at, outcome);
      OthersSameInStep(Readable(files), s.files, s.served, id, s.at, outcome);
      OwnStepsInStep(Readable(files), s.files, s.served, id, s.at, outcome);
      hide NamesOk, CallOk, OthersSame, OwnSteps, FilesAfter, PointAfter, ServedAfter, Readable;
    }
  }

  function Sum(sizes: seq<nat>): nat {
    if sizes == [] then 0 else Sum(sizes[..|sizes| - 1]) + sizes[|sizes| - 1]
  }

  /** The image is missing, and a content is served in chunks of these sizes. */
  function Fetching(content: Content, sizes: seq<nat>): seq<Outcome> {
    [Done, Done, Serve(content)] + seq(|sizes|, i requires 0 <= i < |sizes| => Chunk(sizes[i]))
  }

  lemma FetchingOne(s: Stand, id: string, content: Content)
    requires s.at.MakeDir? && Image(id) !in s.files.names
    ensures Walk(s, id, Fetching(content, [])) ==
            Stand(Create(s.files, Tmp(id)), s.served + {(id, content)},
                  Fetch(Create(s.files, Tmp(id)).names[Tmp(id)], content, 0))
  {
    OneMore(StepBy(id), s, [], Done);
    OneMore(StepBy(id), s, [Done], Done);
    OneMore(StepBy(id), s, [Done, Done], Serve(content));
    assert [] + [Done] == [Done] && [Done] + [Done] == [Done, Done];
    assert [Done, Done] + [Serve(content)] == Fetching(content, []);
  }

  lemma FetchingMore(s: Stand, id: string, content: Content, sizes: seq<nat>)
    requires sizes != []
    ensures Walk(s, id, Fetching(content, sizes)) ==
            StepBy(id)(Walk(s, id, Fetching(content, sizes[..|sizes| - 1])), Chunk(sizes[|sizes| - 1]))
  {
    var n := |sizes| - 1;
    OneMore(StepBy(id), s, Fetching(content, sizes[..n]), Chunk(sizes[n]));
    assert Fetching(content, sizes) == Fetching(content, sizes[..n]) + [Chunk(sizes[n])];
  }

  /** So much of the content is in the temporary file; all else is as before. */
  ghost predicate Fetched(before: map<Path, Content>, s: Stand, id: string, content: Content, written: nat)
    requires written <= |content|
  {
    && s.at.Fetch? && s.at.content == content && s.at.written == written
    && Readable(s.files) == before[Tmp(id) := content[..written]]
  }

  lemma FetchedMore(before: map<Path, Content>, s: Stand, id: string, content: Content, written: nat, size: nat)
    requires NamesOk(s.files, s.served) && CallOk(s.files, s.served, id, s.at)
    requires written <= |content| && Fetched(before, s, id, content, written)
    ensures Fetched(before, StepBy(id)(s, Chunk(size)), id, content, Clip(content, written + size))
  {
    ReadableStep(s.files, s.served, id, s.at, Chunk(size));
    hide NamesOk, CallOk, Readable, FilesAfter;
  }

  lemma FetchedAll(before: map<Path, Content>, s: Stand, id: string, content: Content)
    requires NamesOk(s.files, s.served) && CallOk(s.files, s.served, id, s.at)
    requires Fetched(before, s, id, content, |content|)
    ensures
      var renamed := StepBy(id)(StepBy(id)(s, Done), Done);
      renamed.at == Launch && Readable(renamed.files) == (before - {Tmp(id)})[Image(id) := content]
  {
    var closed := StepBy(id)(s, Done);
    assert closed == Stand(s.files, s.served, Rename(s.at.inode, content));
    assert Tmp(id) in Readable(s.files) && Tmp(id) in s.files.names;
    assert content[..|content|] == content;
    assert CallOk(closed.files, closed.served, id, closed.at);
    ReadableStep(closed.files, closed.served, id, closed.at, Done);
    hide NamesOk, CallOk, Readable, FilesAfter;
  }

  /** What the temporary file holds then, however the content is cut. */
  lemma {:induction false} FetchedSoFar(files: Files, served: set<(string, Content)>, id: string, content: Content,
                                        sizes: seq<nat>)
    requires NamesOk(files, served) && Image(id) !in files.names
    ensures Fetched(Readable(files), Walk(Stand(files, served, MakeDir), id, Fetching(content, sizes)), id, content,
                    Clip(content, Sum(sizes)))
  {
    var start := Stand(files, served, MakeDir);
    if sizes == [] {
      FetchingOne(start, id, content);
      CreateReadable(files, served, Tmp(id));
      hide Create, Readable, Walk, Fetching;
    } else {
      var n := |sizes| - 1;
      var s := Walk(start, id, Fetching(content, sizes[..n]));
      FetchedSoFar(files, served, id, content, sizes[..n]);
      FetchingMore(start, id, content, sizes);
      CallAlone(files, served, id, Fetching(content, sizes[..n]));
      FetchedMore(Readable(files), s, id, content, Clip(content, Sum(sizes[..n])), sizes[n]);
      hide Fetched, Walk, Fetching, NamesOk, CallOk, Alone, Readable;
    }
  }

  /** A download that is served in full and renamed puts its content in place, as in `QemuServer.StartBody`. */
  lemma CompleteDownload(files: Files, served: set<(string, Content)>, id: string, content: Content, sizes: seq<nat>)
    requires NamesOk(files, served) && Image(id) !in files.names && Sum(sizes) >= |content|
    ensures
      var s := Walk(Stand(files, served, MakeDir), id, Fetching(content, sizes) + [Done] + [Done]);
      s.at == Launch && Readable(s.files) == (Readable(files) - {Tmp(id)})[Image(id) := content]
  {
    var start := Stand(files, served, MakeDir);
    FetchedSoFar(files, served, id, content, sizes);
    OneMore(StepBy(id), start, Fetching(content, sizes), Done);
    OneMore(StepBy(id), start, Fetching(content, sizes) + [Done], Done);
    CallAlone(files, served, id, Fetching(content, sizes));
    FetchedAll(Readable(files), Walk(start, id, Fetching(content, sizes)), id, content);
    hide Fetched, Fold, Readable, Fetching, NamesOk, CallOk, Alone, FilesAfter, PointAfter;
  }

  // ---- One call, undisturbed ----

  datatype StartError = AlreadyStarting | MkdirFailed | DownloadFailed | RenameFailed | LaunchFailed

  class QemuServer {
    var starting: set<string>
    var files: map<Path, Content>

    constructor ()
      ensures starting == {} && files == map[]
    {
      starting, files := {}, map[];
    }

    /**
      Writes a served image to a path chunk by chunk. What a failing download leaves there is the caller's to remove.
     */
    method Download(path: Path, chunks: seq<Content>, fault: ImageTransfer.ReceiveFault) returns (ok: bool)
      modifies this`files
      ensures ok <==> !ImageTransfer.Strikes(chunks, fault)
      ensures files == match ImageTransfer.Received(chunks, fault)
                       case None => old(files)
                       case Some(content) => old(files)[path := content]
      ensures ok ==> files == old(files)[path := Join(chunks)]
    {
      var r, content := ImageTransfer.Download(chunks, fault);
      if content.Some? {
        files := files[path := content.value];
      }
      ok := r.Ok?;
    }

    /** Everything the registry and the system answer is a parameter. */
    method Start(id: string, mkdirOk: bool, chunks: seq<Content>, fault: ImageTransfer.ReceiveFault, renameOk: bool,
                 launchOk: bool)
      returns (r: Result<(), StartError>)
      modifies this
      ensures starting == old(starting)
      ensures
        var entered, cached := id !in old(starting) && mkdirOk, Image(id) in old(files);
        var downloaded := !ImageTransfer.Strikes(chunks, fault);
        && (r == Err(AlreadyStarting) <==> id in old(starting))
        && (r == Err(MkdirFailed) <==> id !in old(starting) && !mkdirOk)
        && (r == Err(DownloadFailed) <==> entered && !cached && !downloaded)
        && (r == Err(RenameFailed) <==> entered && !cached && downloaded && !renameOk)
        && (r == Err(LaunchFailed) <==> entered && (cached || (downloaded && renameOk)) && !launchOk)
      ensures files == if id in old(starting) || !mkdirOk || Image(id) in old(files) then old(files)
                       else if !ImageTransfer.Strikes(chunks, fault) && renameOk
                       then (old(files) - {Tmp(id)})[Image(id) := Join(chunks)]
                       else old(files) - {Tmp(id)}
    {
      if id in starting {
        return Err(AlreadyStarting);
      }
      starting := starting + {id};
      if mkdirOk {
        r := StartBody(id, chunks, fault, renameOk, launchOk);
      } else {
        r := Err(MkdirFailed);
      }
      starting := starting - {id};
    }

    method StartBody(id: string, chunks: seq<Content>, fault: ImageTransfer.ReceiveFault, renameOk: bool,
                     launchOk: bool)
      returns (r: Result<(), StartError>)
      modifies this`files
      ensures
        var cached, downloaded := Image(id) in old(files), !ImageTransfer.Strikes(chunks, fault);
        && (r == Err(DownloadFailed) <==> !cached && !downloaded)
        && (r == Err(RenameFailed) <==> !cached && downloaded && !renameOk)
        && (r == Err(LaunchFailed) <==> (cached || (downloaded && renameOk)) && !launchOk)
        && (r.Ok? <==> (cached || (downloaded && renameOk)) && launchOk)
      ensures files == if Image(id) in old(files) then old(files)
                       else if !ImageTransfer.Strikes(chunks, fault) && renameOk
                       then (old(files) - {Tmp(id)})[Image(id) := Join(chunks)]
                       else old(files) - {Tmp(id)}
    {
      if Image(id) !in files {
        var downloaded := Download(Tmp(id), chunks, fault);
        if !downloaded {
          files := files - {Tmp(id)};
          return Err(DownloadFailed);
        }
        if !renameOk {
          files := files - {Tmp(id)};
          return Err(RenameFailed);
        }
        files := (files - {Tmp(id)})[Image(id) := files[Tmp(id)]];
      }
      r := if launchOk then Ok(()) else Err(LaunchFailed);
    }
  }
}
