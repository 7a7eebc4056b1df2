/** The task manager as built here: a serial stand-in for the thread pool
    that runs each task at once on the caller's thread. Tasks are abstract;
    what the manager does to them is recorded as an event trace. */
module ThreadManager {
  /** What the manager does to a task: run it, then release it. */
  datatype TaskEvent = Ran(task: nat) | Released(task: nat)

  /** The events of handing one task to the manager. */
  function Served(task: nat): (events: seq<TaskEvent>)
    ensures |events| == 2 && events[0].task == task && events[1].task == task
    ensures events[0].Ran? && events[1].Released?
  {
    [Ran(task), Released(task)]
  }

  /** The events of handing the given tasks over one after the other. */
  function ServedAll(tasks: seq<nat>): seq<TaskEvent>
  {
    if tasks == [] then [] else ServedAll(tasks[..|tasks| - 1]) + Served(tasks[|tasks| - 1])
  }

  /** Each task is run before it is released, and its two events are next
      to each other, in the order the tasks were handed over. */
  lemma {:induction false} ServedAllShape(tasks: seq<nat>)
    ensures |ServedAll(tasks)| == 2 * |tasks|
    ensures forall k :: 0 <= k < |tasks| ==>
      ServedAll(tasks)[2 * k] == Ran(tasks[k]) && ServedAll(tasks)[2 * k + 1] == Released(tasks[k])
  {
    if tasks != [] {
      var init := tasks[..|tasks| - 1];
      ServedAllShape(init);
      forall k | 0 <= k < |tasks|
        ensures ServedAll(tasks)[2 * k] == Ran(tasks[k]) && ServedAll(tasks)[2 * k + 1] == Released(tasks[k])
      {
        if k < |init| {
          assert tasks[k] == init[k];
        }
      }
    }
  }

  class ThreadManager {
    var computeQueueSize: int
    var ioQueueSize: int
    var roundRobin: int
    var numComputeThreads: int
    var numThreads: int
    /** The worker threads; nothing here ever starts one. */
    var threads: seq<nat>
    /** Everything done to tasks so far, oldest first. */
    var trace: seq<TaskEvent>

    constructor ()
      ensures computeQueueSize == 0 && ioQueueSize == 0 && roundRobin == 0
      ensures numComputeThreads == 1 && numThreads == 1
      ensures threads == [] && trace == []
    {
      computeQueueSize := 0;
      ioQueueSize := 0;
      roundRobin := 0;
      numComputeThreads := 1;
      numThreads := 1;
      threads := [];
      trace := [];
    }

    method Init(numRealCores: int, numLogicalCoresPerCpu: int)
      ensures unchanged(this)
    {
    }

    method Teardown()
      ensures unchanged(this)
    {
    }

    method TeardownTask(task: nat, enqueue: bool) returns (ok: bool)
      ensures ok
    {
      ok := true;
    }

    method TryCancelTask(taskId: nat)
      ensures unchanged(this)
    {
    }

    /** Runs the task and releases it before returning. */
    method EnqueueTask(task: nat)
      modifies this`trace
      ensures trace == old(trace) + Served(task)
    {
      trace := trace + [Ran(task)];
      trace := trace + [Released(task)];
    }

    /** The thread number is ignored: the same as EnqueueTask. */
    method EnqueueTaskOnThread(threadNum: int, task: nat)
      modifies this`trace
      ensures trace == old(trace) + Served(task)
    {
      trace := trace + [Ran(task)];
      trace := trace + [Released(task)];
    }

    method GetNumLooperThreads() returns (n: int)
      ensures n == numComputeThreads
    {
      n := numComputeThreads;
    }

    function IsInitialized(): (r: bool)
      reads this
      ensures r <==> threads != []
    {
      threads != []
    }
  }

  /** After construction, handing over the tasks in order leaves exactly
      their run-and-release events, and the manager still has one looper
      thread and no workers. */
  method ServeInOrder(tasks: seq<nat>) returns (m: ThreadManager)
    ensures m.trace == ServedAll(tasks)
    ensures m.numComputeThreads == 1 && !m.IsInitialized()
  {
    m := new ThreadManager();
    m.Init(4, 2);
    var i := 0;
    while i < |tasks|
      invariant 0 <= i <= |tasks|
      invariant m.trace == ServedAll(tasks[..i])
      invariant m.numComputeThreads == 1 && m.threads == []
    {
      assert tasks[..i + 1][..i] == tasks[..i];
      m.EnqueueTask(tasks[i]);
      i := i + 1;
    }
    assert tasks[..i] == tasks;
  }
}
