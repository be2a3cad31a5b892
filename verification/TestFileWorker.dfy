/** One worker of the autotest runner: the flags its mutex protects, and the
    critical sections that read or change them. */
module TestFileWorkers {
  import opened Common

  /** A test file is named by its index in the runner's list. */
  type FileId = nat

  /** The mutex-protected fields of a worker, as one value. */
  datatype Flags = Flags(
    testfile: Option<FileId>,
    busy: bool,
    runRequested: bool,
    terminateRequested: bool)
  {
    predicate Idle() {
      !busy && !runRequested && testfile.None?
    }

    /** The condition the worker thread sleeps on. */
    predicate Awake() {
      runRequested || terminateRequested
    }

    function Offered(file: FileId): Flags {
      if Idle() then this.(testfile := Some(file), runRequested := true) else this
    }

    function StopRequested(): Flags {
      this.(terminateRequested := true)
    }

    /** True when the woken thread leaves instead of taking a file. */
    predicate Leaves() {
      terminateRequested && !runRequested
    }

    function Claimed(): Flags {
      this.(busy := true, runRequested := false)
    }

    function Released(): Flags {
      this.(testfile := None, busy := false)
    }
  }

  const FRESH := Flags(None, false, false, false)

  /** The worker object. Each method is one region that runs under the mutex, so
      each is one atomic step of the protocol in `WorkerPool`. */
  class TestFileWorker {
    var testfile: Option<FileId>
    var busy: bool
    var runRequested: bool
    var terminateRequested: bool

    ghost function View(): Flags
      reads this
    {
      Flags(testfile, busy, runRequested, terminateRequested)
    }

    constructor ()
      ensures View() == FRESH
    {
      testfile, busy, runRequested, terminateRequested := None, false, false, false;
    }

    /** Called by the distributor: hand over a file unless the worker holds one. */
    method ProcessFile(file: FileId) returns (accepted: bool)
      modifies this
      ensures accepted == old(View().Idle())
      ensures View() == old(View()).Offered(file)
    {
      if busy || runRequested || testfile != None {
        return false;
      }
      testfile := Some(file);
      runRequested := true;
      return true;
    }

    method IsIdle() returns (idle: bool)
      ensures idle == View().Idle()
    {
      idle := !busy && !runRequested && testfile == None;
    }

    /** The locked part of Stop; joining the thread is a step of the pool. */
    method RequestStop()
      modifies this
      ensures View() == old(View()).StopRequested()
    {
      terminateRequested := true;
    }

    /** The first locked region of the thread loop, entered once the thread is awake. */
    method Claim() returns (leave: bool, ltestfile: Option<FileId>)
      requires View().Awake()
      modifies this
      ensures leave == old(View().Leaves())
      ensures leave ==> View() == old(View()) && ltestfile == None
      ensures !leave ==> View() == old(View()).Claimed() && ltestfile == old(testfile)
    {
      if terminateRequested && !runRequested {
        return true, None;
      }
      busy := true;
      runRequested := false;
      return false, testfile;
    }

    /** The second locked region of the thread loop. */
    method Release()
      modifies this
      ensures View() == old(View()).Released()
    {
      testfile := None;
      busy := false;
    }
  }
}
