/** The parallel batch run of the autotest runner: one distributor and any number of
    worker threads, interleaved one atomic step at a time. */
module WorkerPool {
  import opened Common
  import opened TestFileWorkers

  /** Where a worker thread is in its loop. Checking holds the file the thread copied
      out of the shared field, before it looks at the file's processed flag. */
  datatype ThreadPc = Waiting | Checking(file: Option<FileId>) | Running(run: FileId) | Releasing | Exited

  datatype Worker = Worker(flags: Flags, pc: ThreadPc)

  /** Where the distributor is: polling or handing over in a pass of the assignment
      loop, polling in a pass of the final loop, or stopping the workers in order. */
  datatype DistPc =
    | PassStart
    | Poll(w: nat)
    | HandOver(w: nat)
    | Drain(w: nat, allIdle: bool)
    | Stop(w: nat)
    | Join(w: nat)
    | Done

  /** `files` is the number of test files, `next` the distributor's file index,
      `runs` counts the calls of Process on each file. */
  datatype State = State(
    workers: seq<Worker>,
    files: nat,
    next: nat,
    dist: DistPc,
    processed: set<FileId>,
    runs: multiset<FileId>)

  function Initial(workerCount: nat, files: nat): State {
    State(seq(workerCount, _ => Worker(FRESH, Waiting)), files, 0, PassStart, {}, multiset{})
  }

  // ----- the steps

  predicate ThreadEnabled(s: State, w: nat)
    requires w < |s.workers|
  {
    match s.workers[w].pc
    case Waiting => s.workers[w].flags.Awake()
    case Exited => false
    case _ => true
  }

  function ThreadStep(s: State, w: nat): State
    requires w < |s.workers| && ThreadEnabled(s, w)
  {
    var k := s.workers[w];
    match k.pc
    case Waiting =>
      if k.flags.Leaves() then s.(workers := s.workers[w := k.(pc := Exited)])
      else s.(workers := s.workers[w := Worker(k.flags.Claimed(), Checking(k.flags.testfile))])
    case Checking(file) =>
      if file.Some? && file.value !in s.processed
      then s.(workers := s.workers[w := k.(pc := Running(file.value))])
      else s.(workers := s.workers[w := k.(pc := Releasing)])
    case Running(file) =>
      s.(workers := s.workers[w := k.(pc := Releasing)],
         runs := s.runs + multiset{file},
         processed := s.processed + {file})
    case Releasing =>
      s.(workers := s.workers[w := Worker(k.flags.Released(), Waiting)])
  }

  predicate DistEnabled(s: State) {
    match s.dist
    case Done => false
    case Join(w) => w < |s.workers| && s.workers[w].pc == Exited
    case _ => true
  }

  function DistStep(s: State): State
    requires DistEnabled(s)
  {
    var n := |s.workers|;
    match s.dist
    case PassStart => s.(dist := if s.next < s.files then Poll(0) else Drain(0, true))
    case Poll(w) =>
      if w >= n then s.(dist := PassStart)
      else s.(dist := if s.workers[w].flags.Idle() then HandOver(w) else Poll(w + 1))
    case HandOver(w) =>
      if w >= n || !s.workers[w].flags.Idle() then s.(dist := Poll(w + 1))
      else
        var k := s.workers[w];
        s.(workers := s.workers[w := k.(flags := k.flags.Offered(s.next))],
           next := s.next + 1,
           dist := if s.next + 1 >= s.files then PassStart else Poll(w + 1))
    case Drain(w, allIdle) =>
      if w >= n then s.(dist := if allIdle then Stop(0) else Drain(0, true))
      else s.(dist := Drain(w + 1, allIdle && s.workers[w].flags.Idle()))
    case Stop(w) =>
      if w >= n then s.(dist := Done)
      else
        var k := s.workers[w];
        s.(workers := s.workers[w := k.(flags := k.flags.StopRequested())], dist := Join(w))
    case Join(w) => s.(dist := Stop(w + 1))
  }

  ghost predicate Next(s: State, t: State) {
    || (DistEnabled(s) && t == DistStep(s))
    || (exists w: nat :: w < |s.workers| && ThreadEnabled(s, w) && t == ThreadStep(s, w))
  }

  /** A run is any finite interleaving of distributor and thread steps. */
  ghost predicate IsRun(run: seq<State>) {
    && |run| > 0
    && forall i {:trigger run[i]} :: 0 <= i < |run| - 1 ==> Next(run[i], run[i + 1])
  }

  // ----- what every step keeps

  ghost predicate Holds(s: State, w: nat, file: FileId)
    requires w < |s.workers|
  {
    s.workers[w].flags.testfile == Some(file)
  }

  /** A thread's position and its flags agree, and the file it holds is processed
      exactly when its run is over. */
  ghost predicate WorkerOk(s: State, k: Worker) {
    && (k.flags.testfile.Some? ==> k.flags.testfile.value < s.next)
    && match k.pc
       case Waiting =>
         && !k.flags.busy
         && (k.flags.runRequested <==> k.flags.testfile.Some?)
         && (k.flags.testfile.Some? ==> k.flags.testfile.value !in s.processed)
       case Checking(file) =>
         k.flags.busy && !k.flags.runRequested && file.Some? && k.flags.testfile == file && file.value !in s.processed
       case Running(file) =>
         k.flags.busy && !k.flags.runRequested && k.flags.testfile == Some(file) && file !in s.processed
       case Releasing =>
         k.flags.busy && !k.flags.runRequested && k.flags.testfile.Some? && k.flags.testfile.value in s.processed
       case Exited =>
         k.flags.Idle() && k.flags.terminateRequested
  }

  ghost predicate FilesOk(s: State) {
    && s.next <= s.files
    && (forall f: FileId :: f in s.processed ==> f < s.next)
    && (forall f: FileId {:trigger s.runs[f]} :: s.runs[f] == if f in s.processed then 1 else 0)
    && (forall f: FileId {:trigger f in s.processed} :: f < s.next ==>
         f in s.processed || exists w: nat :: w < |s.workers| && Holds(s, w, f))
    && (forall v: nat, w: nat, f: FileId ::
         v < |s.workers| && w < |s.workers| && Holds(s, v, f) && Holds(s, w, f) ==> v == w)
  }

  ghost predicate AllIdle(s: State, upto: nat) {
    forall w: nat :: w < upto && w < |s.workers| ==> s.workers[w].flags.Idle()
  }

  /** The workers below `upto` have left and no other has been asked to. */
  ghost predicate StoppedBelow(s: State, upto: nat) {
    forall w: nat {:trigger s.workers[w]} :: w < |s.workers| ==>
      if w < upto then s.workers[w].pc == Exited else !s.workers[w].flags.terminateRequested
  }

  ghost predicate DistOk(s: State) {
    match s.dist
    case PassStart => StoppedBelow(s, 0)
    case Poll(w) => StoppedBelow(s, 0) && s.next < s.files
    case HandOver(w) =>
      StoppedBelow(s, 0) && s.next < s.files && w < |s.workers| && s.workers[w].flags.Idle()
    case Drain(w, allIdle) =>
      StoppedBelow(s, 0) && s.next == s.files && (allIdle ==> AllIdle(s, w))
    case Stop(w) => s.next == s.files && AllIdle(s, |s.workers|) && StoppedBelow(s, w)
    case Join(w) =>
      && s.next == s.files && AllIdle(s, |s.workers|) && w < |s.workers|
      && (s.workers[w].pc == Exited || (s.workers[w].pc == Waiting && s.workers[w].flags.terminateRequested))
      && forall v: nat {:trigger s.workers[v]} :: v < |s.workers| && v != w ==>
           if v < w then s.workers[v].pc == Exited else !s.workers[v].flags.terminateRequested
    case Done => s.next == s.files && AllIdle(s, |s.workers|) && StoppedBelow(s, |s.workers|)
  }

  ghost predicate Inv(s: State) {
    && (forall w: nat {:trigger s.workers[w]} :: w < |s.workers| ==> WorkerOk(s, s.workers[w]))
    && FilesOk(s)
    && DistOk(s)
  }

  lemma InitialInv(workerCount: nat, files: nat)
    ensures Inv(Initial(workerCount, files))
  {
  }

  lemma ThreadKeepsWorkers(s: State, w: nat)
    requires Inv(s) && w < |s.workers| && ThreadEnabled(s, w)
    ensures forall v: nat {:trigger ThreadStep(s, w).workers[v]} :: v < |s.workers| ==>
      WorkerOk(ThreadStep(s, w), ThreadStep(s, w).workers[v])
  {
    var t := ThreadStep(s, w);
    forall v: nat | v < |s.workers| ensures WorkerOk(t, t.workers[v]) {
      assert WorkerOk(s, s.workers[v]) && WorkerOk(s, s.workers[w]);
      if v != w && s.workers[w].pc.Running? && s.workers[v].flags.testfile.Some? {
        assert Holds(s, v, s.workers[v].flags.testfile.value) && Holds(s, w, s.workers[w].pc.run);
      }
    }
  }

  lemma ThreadKeepsFiles(s: State, w: nat)
    requires Inv(s) && w < |s.workers| && ThreadEnabled(s, w)
    ensures FilesOk(ThreadStep(s, w))
  {
    var t := ThreadStep(s, w);
    assert WorkerOk(s, s.workers[w]);
    forall v: nat, f: FileId | v < |s.workers| ensures Holds(t, v, f) ==> Holds(s, v, f) {
    }
    forall f: FileId | f < t.next
      ensures f in t.processed || exists v: nat :: v < |t.workers| && Holds(t, v, f)
    {
      if f !in t.processed {
        var v: nat :| v < |s.workers| && Holds(s, v, f);
        assert Holds(t, v, f);
      }
    }
  }

  lemma ThreadKeepsDist(s: State, w: nat)
    requires Inv(s) && w < |s.workers| && ThreadEnabled(s, w)
    ensures DistOk(ThreadStep(s, w))
  {
    assert WorkerOk(s, s.workers[w]);
  }

  lemma DistKeepsInv(s: State)
    requires Inv(s) && DistEnabled(s)
    ensures Inv(DistStep(s))
  {
    var t := DistStep(s);
    if s.dist.HandOver? {
      var w := s.dist.w;
      assert WorkerOk(s, s.workers[w]);
      forall v: nat | v < |t.workers| ensures WorkerOk(t, t.workers[v]) {
        assert WorkerOk(s, s.workers[v]);
      }
      HandOverKeepsFiles(s);
    } else {
      assert forall v: nat, f: FileId :: v < |t.workers| ==> (Holds(t, v, f) <==> Holds(s, v, f));
      forall v: nat | v < |t.workers| ensures WorkerOk(t, t.workers[v]) {
        assert WorkerOk(s, s.workers[v]);
      }
    }
  }

  lemma HandOverKeepsFiles(s: State)
    requires Inv(s) && s.dist.HandOver?
    ensures FilesOk(DistStep(s))
  {
    var t, w := DistStep(s), s.dist.w;
    assert forall v: nat, f: FileId :: v < |t.workers| && v != w ==> (Holds(t, v, f) <==> Holds(s, v, f));
    assert Holds(t, w, s.next);
    forall v: nat | v < |t.workers| ensures !Holds(s, v, s.next) {
      assert WorkerOk(s, s.workers[v]);
    }
    forall f: FileId | f < t.next
      ensures f in t.processed || exists v: nat :: v < |t.workers| && Holds(t, v, f)
    {
      if f < s.next && f !in t.processed {
        var v: nat :| v < |s.workers| && Holds(s, v, f);
        assert Holds(t, v, f);
      }
    }
  }

  lemma NextKeepsInv(s: State, t: State)
    requires Inv(s) && Next(s, t)
    ensures Inv(t) && t.files == s.files && |t.workers| == |s.workers|
  {
    if DistEnabled(s) && t == DistStep(s) {
      DistKeepsInv(s);
    } else {
      var w: nat :| w < |s.workers| && ThreadEnabled(s, w) && t == ThreadStep(s, w);
      ThreadKeepsWorkers(s, w);
      ThreadKeepsFiles(s, w);
      ThreadKeepsDist(s, w);
    }
  }

  lemma {:induction false} RunKeepsInv(run: seq<State>, workerCount: nat, files: nat, i: nat)
    requires IsRun(run) && run[0] == Initial(workerCount, files) && i < |run|
    ensures Inv(run[i]) && run[i].files == files && |run[i].workers| == workerCount
  {
    if i == 0 {
      InitialInv(workerCount, files);
    } else {
      RunKeepsInv(run, workerCount, files, i - 1);
      assert Next(run[i - 1], run[i - 1 + 1]);
      NextKeepsInv(run[i - 1], run[i]);
    }
  }

  // ----- the promises of the pool

  /** Some interleaving leads from the start of the batch to `s`. */
  ghost predicate Reachable(s: State, workerCount: nat, files: nat) {
    exists run: seq<State> :: IsRun(run) && run[0] == Initial(workerCount, files) && run[|run| - 1] == s
  }

  lemma ReachableInv(s: State, workerCount: nat, files: nat)
    requires Reachable(s, workerCount, files)
    ensures Inv(s) && s.files == files && |s.workers| == workerCount
  {
    var run: seq<State> :| IsRun(run) && run[0] == Initial(workerCount, files) && run[|run| - 1] == s;
    RunKeepsInv(run, workerCount, files, |run| - 1);
  }

  /** Safety, in every interleaving: no file runs twice or is held twice; a file that was
      handed out is run or held, a file that was not is untouched. */
  lemma EveryFileAtMostOnce(s: State, workerCount: nat, files: nat, file: FileId)
    requires Reachable(s, workerCount, files)
    ensures s.runs[file] <= 1
    ensures file < s.next ==> s.runs[file] == 1 || exists w: nat :: w < |s.workers| && Holds(s, w, file)
    ensures file >= s.next ==> s.runs[file] == 0 && forall w: nat :: w < |s.workers| ==> !Holds(s, w, file)
    ensures forall v: nat, w: nat ::
      v < |s.workers| && w < |s.workers| && Holds(s, v, file) && Holds(s, w, file) ==> v == w
  {
    ReachableInv(s, workerCount, files);
    forall w: nat | w < |s.workers| && file >= s.next ensures !Holds(s, w, file) {
      assert WorkerOk(s, s.workers[w]);
    }
  }

  /** The idle check and the hand-over are two separate critical sections, with any steps of
      the threads between them, yet the hand-over is never refused. */
  lemma HandOverIsNeverRefused(s: State, workerCount: nat, files: nat)
    requires Reachable(s, workerCount, files) && s.dist.HandOver?
    ensures s.dist.w < workerCount
    ensures DistStep(s).next == s.next + 1 && Holds(DistStep(s), s.dist.w, s.next)
  {
    ReachableInv(s, workerCount, files);
  }

  /** The final loop polls the workers one by one. When it ends, all are idle at once
      and every file has run exactly once; this still holds when the batch is done. */
  lemma DrainedMeansFinished(s: State, workerCount: nat, files: nat)
    requires Reachable(s, workerCount, files) && (s.dist.Stop? || s.dist.Join? || s.dist.Done?)
    ensures |s.workers| == workerCount && forall w: nat :: w < workerCount ==> s.workers[w].flags.Idle()
    ensures forall f: FileId :: f < files ==> s.runs[f] == 1
    ensures s.dist.Done? ==> forall w: nat :: w < workerCount ==> s.workers[w].pc == Exited
  {
    ReachableInv(s, workerCount, files);
    assert forall w: nat, f: FileId :: w < |s.workers| && Holds(s, w, f) ==> !s.workers[w].flags.Idle();
  }

  // ----- progress

  function ThreadRank(k: Worker): nat {
    match k.pc
    case Waiting => if k.flags.runRequested then 5 else 1
    case Checking(_) => 4
    case Running(_) => 3
    case Releasing => 2
    case Exited => 0
  }

  function ThreadRanks(ws: seq<Worker>): nat {
    if ws == [] then 0 else ThreadRank(ws[0]) + ThreadRanks(ws[1..])
  }

  lemma {:induction false} RanksUpdate(ws: seq<Worker>, w: nat, k: Worker)
    requires w < |ws|
    ensures ThreadRanks(ws[w := k]) == ThreadRanks(ws) - ThreadRank(ws[w]) + ThreadRank(k)
  {
    if w == 0 {
      assert ws[w := k][1..] == ws[1..];
    } else {
      RanksUpdate(ws[1..], w - 1, k);
      assert ws[w := k][1..] == ws[1..][w - 1 := k];
    }
  }

  function Phase(s: State): nat {
    match s.dist
    case Drain(_, _) => 2
    case Stop(w) => 1
    case Join(w) => 1
    case Done => 0
    case _ => 3
  }

  /** How far the distributor is from its next irrevocable step, when no thread can move. */
  function Distance(s: State): nat {
    var n := |s.workers|;
    match s.dist
    case PassStart => 3
    case Poll(w) => if w >= n then 4 else 2
    case HandOver(w) => 1
    case Drain(w, allIdle) => (if allIdle then 0 else n + 2) + (if w >= n then 1 else n - w + 1)
    case Stop(w) => if w >= n then 0 else 2 * (n - w)
    case Join(w) => if w >= n then 0 else 2 * (n - w) - 1
    case Done => 0
  }

  lemma ThreadStepRank(s: State, w: nat)
    requires Inv(s) && w < |s.workers| && ThreadEnabled(s, w)
    ensures ThreadRanks(ThreadStep(s, w).workers) < ThreadRanks(s.workers)
  {
    var t := ThreadStep(s, w);
    assert WorkerOk(s, s.workers[w]);
    RanksUpdate(s.workers, w, t.workers[w]);
    assert t.workers == s.workers[w := t.workers[w]];
  }

  /** With every thread asleep the distributor can move, and gets closer to the end. */
  lemma DistStepRank(s: State)
    requires Inv(s) && s.dist != Done && (|s.workers| > 0 || s.files == 0)
    requires forall w: nat :: w < |s.workers| ==> !ThreadEnabled(s, w)
    ensures DistEnabled(s)
    ensures var t := DistStep(s);
      || Phase(t) < Phase(s)
      || (Phase(t) == Phase(s) && t.files - t.next < s.files - s.next)
      || (Phase(t) == Phase(s) && t.next == s.next && ThreadRanks(t.workers) <= ThreadRanks(s.workers)
          && Distance(t) < Distance(s))
  {
    forall w: nat | w < |s.workers| ensures s.workers[w].flags.Idle() {
      assert WorkerOk(s, s.workers[w]) && !ThreadEnabled(s, w);
    }
    if s.dist.Join? {
      assert !ThreadEnabled(s, s.dist.w);
    }
    if s.dist.Stop? && s.dist.w < |s.workers| {
      RanksUpdate(s.workers, s.dist.w, DistStep(s).workers[s.dist.w]);
    }
  }

  /** No reachable state is a trap: some schedule leads from it to the end of the batch.
      Without workers, a batch that has files polls for ever. */
  lemma {:induction false} CanFinish(s: State) returns (run: seq<State>)
    requires Inv(s) && (|s.workers| > 0 || s.files == 0)
    ensures IsRun(run) && run[0] == s && run[|run| - 1].dist == Done
    decreases Phase(s), s.files - s.next, ThreadRanks(s.workers), Distance(s)
  {
    if s.dist == Done {
      return [s];
    }
    var t: State;
    if w: nat :| w < |s.workers| && ThreadEnabled(s, w) {
      t := ThreadStep(s, w);
      ThreadStepRank(s, w);
    } else {
      DistStepRank(s);
      t := DistStep(s);
    }
    assert Next(s, t);
    NextKeepsInv(s, t);
    var rest := CanFinish(t);
    RunFrom(s, rest);
    run := [s] + rest;
  }

  lemma RunFrom(s: State, rest: seq<State>)
    requires IsRun(rest) && Next(s, rest[0])
    ensures IsRun([s] + rest)
  {
    var run := [s] + rest;
    forall i | 0 <= i < |run| - 1 ensures Next(run[i], run[i + 1]) {
      if i > 0 {
        assert Next(rest[i - 1], rest[i - 1 + 1]);
      }
    }
  }

  /** In every reachable state the batch is done or can still move, and it can be completed. */
  lemma NoDeadlock(s: State, workerCount: nat, files: nat)
    requires Reachable(s, workerCount, files) && workerCount > 0
    ensures s.dist != Done ==> exists t: State :: Next(s, t)
    ensures exists rest: seq<State> :: IsRun(rest) && rest[0] == s && rest[|rest| - 1].dist == Done
  {
    ReachableInv(s, workerCount, files);
    var rest := CanFinish(s);
    if s.dist != Done {
      assert Next(rest[0], rest[0 + 1]);
    }
  }

  /** How many steps of a run are not the distributor's. */
  function ThreadSteps(run: seq<State>): nat {
    if |run| < 2 then 0 else ThreadSteps(run[..|run| - 1]) + ThreadCost(run[|run| - 2], run[|run| - 1])
  }

  function ThreadCost(s: State, t: State): nat {
    if DistEnabled(s) && t == DistStep(s) then 0 else 1
  }

  lemma DistStepRaises(s: State)
    requires Inv(s) && DistEnabled(s)
    ensures ThreadRanks(DistStep(s).workers) <= ThreadRanks(s.workers) + 4 * (DistStep(s).next - s.next)
  {
    var t := DistStep(s);
    if s.dist.HandOver? || (s.dist.Stop? && s.dist.w < |s.workers|) {
      var w := s.dist.w;
      assert WorkerOk(s, s.workers[w]);
      RanksUpdate(s.workers, w, t.workers[w]);
      assert t.workers == s.workers[w := t.workers[w]];
    }
  }

  lemma {:induction false} FreshRanks(n: nat)
    ensures ThreadRanks(seq(n, _ => Worker(FRESH, Waiting))) == n
  {
    if n > 0 {
      FreshRanks(n - 1);
      assert seq(n, _ => Worker(FRESH, Waiting))[1..] == seq(n - 1, _ => Worker(FRESH, Waiting));
    }
  }

  lemma StepCost(s: State, t: State)
    requires Inv(s) && Next(s, t)
    ensures ThreadCost(s, t) + ThreadRanks(t.workers) + 4 * s.next <= ThreadRanks(s.workers) + 4 * t.next
  {
    if DistEnabled(s) && t == DistStep(s) {
      DistStepRaises(s);
    } else {
      var w: nat :| w < |s.workers| && ThreadEnabled(s, w) && t == ThreadStep(s, w);
      ThreadStepRank(s, w);
    }
  }

  lemma RunPrefix(run: seq<State>)
    requires IsRun(run) && |run| > 1
    ensures IsRun(run[..|run| - 1]) && Next(run[|run| - 2], run[|run| - 1])
  {
    var before := run[..|run| - 1];
    forall i | 0 <= i < |before| - 1 ensures Next(before[i], before[i + 1]) {
      assert Next(run[i], run[i + 1]);
    }
    assert Next(run[|run| - 2], run[|run| - 2 + 1]);
  }

  /** However the steps interleave, the threads make at most four steps for each file and one
      for each worker; all others are polls of the distributor. */
  lemma {:induction false} ThreadStepsAreBounded(run: seq<State>, workerCount: nat, files: nat)
    requires IsRun(run) && run[0] == Initial(workerCount, files)
    ensures Inv(run[|run| - 1]) && run[|run| - 1].files == files
    ensures ThreadSteps(run) + ThreadRanks(run[|run| - 1].workers) <= workerCount + 4 * run[|run| - 1].next
    ensures ThreadSteps(run) <= workerCount + 4 * files
    decreases |run|
  {
    if |run| == 1 {
      InitialInv(workerCount, files);
      FreshRanks(workerCount);
    } else {
      RunPrefix(run);
      ThreadStepsAreBounded(run[..|run| - 1], workerCount, files);
      var s, t := run[|run| - 2], run[|run| - 1];
      StepCost(s, t);
      NextKeepsInv(s, t);
    }
  }

  // ----- stopping a worker at an arbitrary moment

  /** What can happen to one worker: somebody offers it a file, somebody asks it to stop,
      or its thread moves. */
  datatype Event = Offer(file: FileId) | AskStop | Move

  /** The pool of one worker `s` after an event, together with the files it has accepted.
      Nothing is offered to a worker whose thread has left: Stop has joined and the worker
      is deleted by then. */
  function After(s: State, accepted: set<FileId>, e: Event): (State, set<FileId>)
    requires |s.workers| == 1
  {
    var k := s.workers[0];
    match e
    case Offer(file) =>
      if k.pc != Exited && k.flags.Idle()
      then (s.(workers := [k.(flags := k.flags.Offered(file))]), accepted + {file})
      else (s, accepted)
    case AskStop => (s.(workers := [k.(flags := k.flags.StopRequested())]), accepted)
    case Move => (if ThreadEnabled(s, 0) then ThreadStep(s, 0) else s, accepted)
  }

  /** The thread still owes the files in `accepted` that are not processed: at most the one
      it holds, and it cannot leave while it holds one. */
  ghost predicate Owes(s: State, accepted: set<FileId>)
    requires |s.workers| == 1
  {
    var k := s.workers[0];
    && (forall f :: f in accepted ==> f in s.processed || k.flags.testfile == Some(f))
    && match k.pc
       case Waiting => !k.flags.busy && (k.flags.runRequested <==> k.flags.testfile.Some?)
       case Checking(file) => k.flags.busy && !k.flags.runRequested && file.Some? && k.flags.testfile == file
       case Running(file) => k.flags.busy && !k.flags.runRequested && k.flags.testfile == Some(file)
       case Releasing =>
         k.flags.busy && !k.flags.runRequested && k.flags.testfile.Some? && k.flags.testfile.value in s.processed
       case Exited => k.flags.testfile.None?
  }

  function AfterAll(s: State, accepted: set<FileId>, events: seq<Event>): (State, set<FileId>)
    requires |s.workers| == 1
    decreases |events|
  {
    if events == [] then (s, accepted)
    else
      var (t, more) := After(s, accepted, events[0]);
      AfterAll(t, more, events[1..])
  }

  lemma {:induction false} EventsKeepOwes(s: State, accepted: set<FileId>, events: seq<Event>)
    requires |s.workers| == 1 && Owes(s, accepted)
    ensures var (t, more) := AfterAll(s, accepted, events); |t.workers| == 1 && Owes(t, more)
    decreases |events|
  {
    if events != [] {
      var (t, more) := After(s, accepted, events[0]);
      EventsKeepOwes(t, more, events[1..]);
    }
  }

  /** Stop, requested at any moment and in any interleaving, never drops an accepted file:
      by the time the thread has left, every file the worker accepted is processed. */
  lemma StopNeverDrops(files: nat, events: seq<Event>)
    ensures var (t, accepted) := AfterAll(Initial(1, files), {}, events);
      |t.workers| == 1 && (t.workers[0].pc == Exited ==> accepted <= t.processed)
  {
    EventsKeepOwes(Initial(1, files), {}, events);
    var (t, accepted) := AfterAll(Initial(1, files), {}, events);
    if t.workers[0].pc == Exited {
      assert forall f :: f in accepted ==> f in t.processed;
    }
  }

  // ----- one pass of the assignment loop

  /** How many workers from `w` up to `v` are idle. */
  function IdleCount(workers: seq<Worker>, w: nat, v: nat): nat
    requires v <= |workers|
    decreases v - w
  {
    if w >= v then 0 else (if workers[w].flags.Idle() then 1 else 0) + IdleCount(workers, w + 1, v)
  }

  lemma {:induction false} IdleCountAgrees(a: seq<Worker>, b: seq<Worker>, w: nat, v: nat)
    requires |a| == |b| && v <= |a| && forall k :: w <= k < v ==> a[k] == b[k]
    ensures IdleCount(a, w, v) == IdleCount(b, w, v)
    decreases v - w
  {
    if w < v {
      IdleCountAgrees(a, b, w + 1, v);
    }
  }

  /** Only the distributor moves. */
  ghost predicate IsDistRun(run: seq<State>) {
    && run != []
    && forall i {:trigger run[i]} :: 0 <= i < |run| - 1 ==> DistEnabled(run[i]) && run[i + 1] == DistStep(run[i])
  }

  lemma PrependStep(s: State, run: seq<State>)
    requires IsDistRun(run) && DistEnabled(s) && run[0] == DistStep(s)
    ensures IsDistRun([s] + run)
  {
    var longer := [s] + run;
    assert forall i :: 0 < i < |longer| ==> longer[i] == run[i - 1];
  }

  /** Each worker from `w` on that was idle in `s` has been offered the next file in turn, and
      no other has changed. */
  ghost predicate PassDone(s: State, w: nat, t: State) {
    && |t.workers| == |s.workers|
    && t == s.(workers := t.workers, dist := PassStart, next := s.next + IdleCount(s.workers, w, |s.workers|))
    && forall v {:trigger t.workers[v]} :: 0 <= v < |s.workers| ==>
         t.workers[v] == if w <= v && s.workers[v].flags.Idle()
                         then Offer(s.workers[v], s.next + IdleCount(s.workers, w, v)) else s.workers[v]
  }

  function Offer(k: Worker, file: FileId): Worker {
    k.(flags := k.flags.(testfile := Some(file), runRequested := true))
  }

  lemma PassGoesOn(s: State, w: nat, u: State, t: State)
    requires w < |s.workers| == |u.workers| && PassDone(u, w + 1, t)
    requires s.workers[w].flags.Idle() ==>
      u == s.(workers := s.workers[w := Offer(s.workers[w], s.next)], next := s.next + 1, dist := u.dist)
    requires !s.workers[w].flags.Idle() ==> u == s.(dist := u.dist)
    ensures PassDone(s, w, t)
  {
    IdleCountAgrees(s.workers, u.workers, w + 1, |s.workers|);
    forall v | w < v < |s.workers|
      ensures u.workers[v] == s.workers[v] && IdleCount(u.workers, w + 1, v) == IdleCount(s.workers, w + 1, v)
    {
      IdleCountAgrees(s.workers, u.workers, w + 1, v);
    }
  }

  /** While files remain, one pass hands a file to every idle worker, in the order of the
      files and of the workers, and passes over the busy ones. */
  lemma {:induction false} PassServesAllIdle(s: State, w: nat) returns (run: seq<State>)
    requires s.dist == Poll(w) && w <= |s.workers| && s.next + IdleCount(s.workers, w, |s.workers|) < s.files
    ensures IsDistRun(run) && run[0] == s && PassDone(s, w, run[|run| - 1])
    decreases |s.workers| - w
  {
    var first := DistStep(s);
    if w == |s.workers| {
      run := [s, first];
    } else {
      var u := if s.workers[w].flags.Idle() then DistStep(first) else first;
      if s.workers[w].flags.Idle() {
        IdleCountAgrees(s.workers, u.workers, w + 1, |s.workers|);
      }
      run := PassServesAllIdle(u, w + 1);
      PassGoesOn(s, w, u, run[|run| - 1]);
      if s.workers[w].flags.Idle() {
        PrependStep(first, run);
        run := [first] + run;
      }
      PrependStep(s, run);
      run := [s] + run;
    }
  }
}
