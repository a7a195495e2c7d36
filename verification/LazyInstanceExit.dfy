/**
 What happens at exit to the instances that have been created.
 */
module LazyInstanceExit {
  import opened LazyInstance
  import opened LazyInstanceHelper
  import AtExit

  lemma {:induction false} OccurrencesFront(j: nat, stack: seq<nat>, i: nat)
    ensures Occurrences([j] + stack, i) == Occurrences(stack, i) + if j == i then 1 else 0
  {
    var n := |stack| - 1;
    if stack == [] {
      assert [j] + stack == [] + [j];
      OccurrencesSnoc([], j, i);
    } else {
      OccurrencesFront(j, stack[..n], i);
      assert ([j] + stack)[..n + 1] == [j] + stack[..n];
    }
  }

  lemma {:induction false} ReverseOccurrences(stack: seq<nat>, i: nat)
    ensures Occurrences(AtExit.Reverse(stack), i) == Occurrences(stack, i)
  {
    if stack != [] {
      var n := |stack| - 1;
      ReverseOccurrences(stack[..n], i);
      OccurrencesFront(stack[n], AtExit.Reverse(stack[..n]), i);
    }
  }

  /** OnExit deletes an instance and marks it empty again. */
  function AfterCallbacks(status: seq<Status>, ran: seq<nat>): (after: seq<Status>)
    ensures |after| == |status|
  {
    if ran == [] then status
    else
      var n := |ran| - 1;
      var before := AfterCallbacks(status, ran[..n]);
      if ran[n] < |status| then before[ran[n] := STATE_EMPTY] else before
  }

  lemma {:induction false} CallbacksEmpty(status: seq<Status>, ran: seq<nat>, i: nat)
    requires i < |status|
    ensures AfterCallbacks(status, ran)[i] == if Occurrences(ran, i) > 0 then STATE_EMPTY else status[i]
  {
    if ran != [] {
      CallbacksEmpty(status, ran[..|ran| - 1], i);
    }
  }

  lemma AllRun(status: seq<Status>, stack: seq<nat>, i: nat)
    requires i < |status|
    ensures var ran := AtExit.Reverse(stack);
            && Occurrences(ran, i) == Occurrences(stack, i)
            && (forall k :: 0 <= k < |ran| ==> ran[k] == stack[|stack| - 1 - k])
            && AfterCallbacks(status, ran)[i] == if Occurrences(stack, i) > 0 then STATE_EMPTY else status[i]
  {
    var ran := AtExit.Reverse(stack);
    ReverseOccurrences(stack, i);
    forall k | 0 <= k < |ran| ensures ran[k] == stack[|stack| - 1 - k] {
      AtExit.ReverseAt(stack, k);
    }
    CallbacksEmpty(status, ran, i);
  }

  /**
   When all calls have returned, running the callbacks of the exit manager runs the destructor of each
   created instance that has one, exactly once, in the reverse of the order of registration; afterwards
   only leaky instances are still there.
   */
  lemma DestroyedOnce(start: State, run: seq<Choice>, i: nat)
    requires Fresh(start) && i < |start.status|
    requires forall t :: 0 <= t < |After(start, run).state.pcs| ==> After(start, run).state.pcs[t].Idle?
    ensures var s := After(start, run).state;
            var ran := AtExit.Reverse(s.stack);
            && |s.status| == |start.status|
            && Occurrences(ran, i) == (if s.status[i] == STATE_CREATED && !start.leaky[i] then 1 else 0)
            && (forall k :: 0 <= k < |ran| ==> ran[k] == s.stack[|s.stack| - 1 - k])
            && AfterCallbacks(s.status, ran)[i] == if start.leaky[i] then s.status[i] else STATE_EMPTY
  {
    RegisteredOnce(start, run, i);
    NoneHalfMade(start, run, i);
    AllRun(After(start, run).state.status, After(start, run).state.stack, i);
  }
}
