/**
 Exit managers: a stack of callbacks that are run, the latest first, when the manager goes away.
 A callback is known here by a number, and what it does is not modelled.
 */
module AtExit {
  type Task = nat

  /** What is global to the process: the current manager, and the callbacks that have run. */
  class Process {
    var topManager: AtExitManager?
    var ran: seq<Task>

    constructor ()
      ensures topManager == null && ran == []
    {
      topManager, ran := null, [];
    }
  }

  function Reverse(s: seq<Task>): (r: seq<Task>)
    ensures |r| == |s|
  {
    if s == [] then [] else [s[|s| - 1]] + Reverse(s[..|s| - 1])
  }

  lemma {:induction false} ReverseAt(s: seq<Task>, k: nat)
    requires k < |s|
    ensures Reverse(s)[k] == s[|s| - 1 - k]
  {
    if k > 0 {
      ReverseAt(s[..|s| - 1], k - 1);
    }
  }

  class AtExitManager {
    var stack: seq<Task>
    const nextManager: AtExitManager?

    /** The new manager shadows the one there was. */
    constructor (process: Process)
      modifies process
      ensures process.topManager == this && nextManager == old(process.topManager)
      ensures stack == [] && process.ran == old(process.ran)
    {
      stack := [];
      nextManager := process.topManager;
      new;
      process.topManager := this;
    }

    /** Without a manager the callback is dropped. */
    static method RegisterTask(process: Process, task: Task)
      modifies process.topManager
      ensures process.topManager != null ==> process.topManager.stack == old(process.topManager.stack) + [task]
    {
      if process.topManager == null {
        return;
      }
      process.topManager.stack := process.topManager.stack + [task];
    }

    /** Run what has been registered with the current manager, the latest first. */
    static method ProcessCallbacksNow(process: Process)
      modifies process`ran, process.topManager
      ensures process.topManager == null ==> process.ran == old(process.ran)
      ensures process.topManager != null ==>
                process.topManager.stack == []
                && process.ran == old(process.ran) + Reverse(old(process.topManager.stack))
    {
      if process.topManager == null {
        return;
      }
      var manager := process.topManager;
      while manager.stack != []
        invariant manager == process.topManager == old(process.topManager)
        invariant process.ran + Reverse(manager.stack) == old(process.ran) + Reverse(old(process.topManager.stack))
        decreases |manager.stack|
      {
        var task := manager.stack[|manager.stack| - 1];
        process.ran := process.ran + [task];
        manager.stack := manager.stack[..|manager.stack| - 1];
      }
    }

    /**
     The destructor: unless there is no manager at all, this must be the current one, and the one it shadowed
     becomes current again.
     */
    method Destroy(process: Process)
      requires process.topManager != null ==> process.topManager == this
      modifies process, this
      ensures old(process.topManager) == null ==>
                process.topManager == null && process.ran == old(process.ran) && stack == old(stack)
      ensures old(process.topManager) != null ==>
                && process.topManager == nextManager
                && process.ran == old(process.ran) + Reverse(old(stack)) && stack == []
    {
      if process.topManager == null {
        return;
      }
      ProcessCallbacksNow(process);
      process.topManager := nextManager;
    }
  }
}
