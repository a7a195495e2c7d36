/**
 Pointer and what it calls as one thread runs them, on a state that all threads change by the atomic operations.
 */
module LazyInstanceHelper {
  import opened Wrappers
  import opened Atomics
  import opened AtomicOperations
  import opened AtExit

  const STATE_EMPTY: Atomic32 := 0
  const STATE_CREATING: Atomic32 := 1
  const STATE_CREATED: Atomic32 := 2

  const CLAIM := CompareAndSwap(STATE_EMPTY, STATE_CREATING)

  /** Loads that saw the instance not created yet. */
  ghost predicate NoneCreated(marks: seq<Mark>) {
    forall k {:trigger marks[k]} :: 0 <= k < |marks| ==>
      marks[k].Took? && marks[k].op == Load && marks[k].result != STATE_CREATED
  }

  /** Loads up to the first that saw it created. */
  ghost predicate UpToCreated(marks: seq<Mark>) {
    && marks != [] && NoneCreated(marks[..|marks| - 1])
    && marks[|marks| - 1] == Took(ME, Load, STATE_CREATED)
  }

  /** What one call did to the state: it claimed the instance, or failed to and then waited for it to be created. */
  ghost predicate Answered(marks: seq<Mark>, needed: bool) {
    && |marks| >= 1 && marks[0].Took? && marks[0].op == CLAIM
    && (needed ==> marks[0].result == STATE_EMPTY && |marks| == 1)
    && (!needed ==> marks[0].result != STATE_EMPTY && UpToCreated(marks[1..]))
  }

  /** What one call did that has not returned yet: nothing, or it failed to claim the instance and waits. */
  ghost predicate Unanswered(marks: seq<Mark>) {
    marks == [] || (marks[0].Took? && marks[0].op == CLAIM && marks[0].result != STATE_EMPTY && NoneCreated(marks[1..]))
  }

  /** The loop of a caller that came too late. */
  method WaitUntilCreated(state: SharedCell) returns (running: bool, ghost loads: seq<Mark>)
    requires state.Valid()
    modifies state
    ensures state.Valid() && (!running ==> state.turns == [])
    ensures state.Mine() == old(state.Mine()) + loads && |loads| + |state.turns| == old(|state.turns|)
    ensures if running then UpToCreated(loads) else NoneCreated(loads)
  {
    ghost var before := state.Mine();
    var seen;
    running, seen := state.AcquireLoad();
    loads := if running then [Took(ME, Load, seen)] else [];
    while running && seen != STATE_CREATED
      invariant state.Valid() && state.Mine() == before + loads && |loads| + |state.turns| == old(|state.turns|)
      invariant if running then loads != [] && NoneCreated(loads[..|loads| - 1])
                               && loads[|loads| - 1] == Took(ME, Load, seen)
                else NoneCreated(loads) && state.turns == []
      decreases running, |state.turns|
    {
      ghost var seenBefore := loads;
      running, seen := state.AcquireLoad();
      loads := if running then loads + [Took(ME, Load, seen)] else loads;
      assert running ==> loads[..|loads| - 1] == seenBefore;
    }
  }

  method NeedsInstance(state: SharedCell) returns (done: bool, needed: bool)
    requires state.Valid()
    modifies state
    ensures state.Valid() && (!done ==> state.turns == [])
    ensures |old(state.Mine())| <= |state.Mine()| && state.Mine()[..|old(state.Mine())|] == old(state.Mine())
    ensures done ==> Answered(state.Mine()[|old(state.Mine())|..], needed)
    ensures !done ==> Unanswered(state.Mine()[|old(state.Mine())|..])
    ensures state.Mine() == old(state.Mine()) ==> !LeftAlone(old(state.turns))
  {
    ghost var before := state.Mine();
    var running, previous := state.NoBarrierCompareAndSwap(STATE_EMPTY, STATE_CREATING);
    if !running {
      assert state.Mine()[|before|..] == [];
      return false, false;
    }
    ghost var claim := Took(ME, CLAIM, previous);
    if previous == STATE_EMPTY {
      return true, true;
    }
    ghost var loads;
    running, loads := WaitUntilCreated(state);
    assert state.Mine() == before + ([claim] + loads);
    assert ([claim] + loads)[1..] == loads;
    return running, false;
  }

  /** The creator publishes the instance, and only then has its destructor called at exit, if it has one. */
  method CompleteInstance(state: SharedCell, process: Process, dtor: Option<Task>) returns (done: bool)
    requires state.Valid()
    modifies state, process.topManager
    ensures state.Valid() && (done <==> old(state.turns) != []) && (!done ==> state.turns == [])
    ensures state.Mine() == old(state.Mine()) + if done then [Took(ME, Store(STATE_CREATED), STATE_CREATED)] else []
    ensures process.topManager != null ==>
              process.topManager.stack ==
                old(process.topManager.stack) + if done && dtor.Some? then [dtor.value] else []
  {
    done := state.ReleaseStore(STATE_CREATED);
    if done && dtor.Some? {
      AtExitManager.RegisterTask(process, dtor.value);
    }
  }

  /**
   What one call of Pointer did to the state: it saw the instance created; or it did not, and then NeedsInstance
   answered, and whoever was to create the instance also published it.
   */
  ghost predicate Pointed(marks: seq<Mark>, created: bool) {
    && |marks| >= 1 && marks[0].Took? && marks[0].op == Load
    && (marks[0].result == STATE_CREATED ==> |marks| == 1 && !created)
    && (marks[0].result != STATE_CREATED ==>
          if created then
            |marks| == 3 && Answered([marks[1]], true) && marks[2] == Took(ME, Store(STATE_CREATED), STATE_CREATED)
          else Answered(marks[1..], false))
  }

  /** What a call of Pointer that has not returned yet did to the state. */
  ghost predicate Underway(marks: seq<Mark>) {
    || marks == []
    || (marks[0].Took? && marks[0].op == Load && marks[0].result != STATE_CREATED
        && (Unanswered(marks[1..]) || Answered(marks[1..], true)))
  }

  /** The creator registers its destructor exactly when it has published the instance. */
  method Pointer(state: SharedCell, process: Process, dtor: Option<Task>) returns (done: bool, created: bool)
    requires state.Valid()
    modifies state, process.topManager
    ensures state.Valid() && (!done ==> state.turns == [])
    ensures |old(state.Mine())| <= |state.Mine()| && state.Mine()[..|old(state.Mine())|] == old(state.Mine())
    ensures done ==> Pointed(state.Mine()[|old(state.Mine())|..], created)
    ensures !done ==> Underway(state.Mine()[|old(state.Mine())|..])
    ensures state.Mine() == old(state.Mine()) ==> old(state.turns) == []
    ensures process.topManager != null ==>
              process.topManager.stack ==
                old(process.topManager.stack) + if done && created && dtor.Some? then [dtor.value] else []
  {
    ghost var before := state.Mine();
    var seen, needed;
    done, seen := state.AcquireLoad();
    created := false;
    if !done || seen == STATE_CREATED {
      return;
    }
    ghost var load := Took(ME, Load, seen);
    done, needed := NeedsInstance(state);
    ghost var marks := state.Mine()[|before| + 1..];
    assert state.Mine()[..|before| + 1] == before + [load];
    assert state.Mine() == before + ([load] + marks);
    if done && needed {
      done := CompleteInstance(state, process, dtor);
      created := done;
      assert marks == [marks[0]];
      assert done ==> state.Mine() == before + [load, marks[0], Took(ME, Store(STATE_CREATED), STATE_CREATED)];
    } else {
      assert ([load] + marks)[1..] == marks;
    }
  }

  // ---------------------------------------------------------------------------------------
  // All threads together
  // ---------------------------------------------------------------------------------------

  /** The accesses there are to the state of an instance. */
  predicate IsAccess(op: Op) {
    op == CLAIM || op == Load || op == Store(STATE_CREATED)
  }

  predicate Claims(m: Mark) {
    m.Took? && m.op == CLAIM && m.result == STATE_EMPTY
  }

  lemma {:induction false} ClaimedIsNotEmpty(effects: seq<Mark>, k: nat)
    requires Sequential(STATE_EMPTY, effects) && TakesOnly(effects, IsAccess)
    requires k < |effects| && Claims(effects[k])
    ensures Replay(STATE_EMPTY, effects) != STATE_EMPTY
  {
    var n := |effects| - 1;
    assert effects[n].Took? && IsAccess(effects[n].op) && ReturnsAsAlone(STATE_EMPTY, effects, n);
    if k < n {
      var before := effects[..n];
      forall j | 0 <= j < n
        ensures before[j].Took? && IsAccess(before[j].op) && ReturnsAsAlone(STATE_EMPTY, before, j)
      {
        assert before[j] == effects[j] && before[..j] == effects[..j];
        assert ReturnsAsAlone(STATE_EMPTY, effects, j);
      }
      ClaimedIsNotEmpty(before, k);
    }
  }

  /** Whatever the order of the accesses, at most one compare-and-swap is told that the state was empty. */
  lemma ClaimedOnce(effects: seq<Mark>, j: nat, k: nat)
    requires Sequential(STATE_EMPTY, effects) && TakesOnly(effects, IsAccess)
    requires j < k < |effects| && Claims(effects[j])
    ensures !Claims(effects[k])
  {
    var before := effects[..k];
    forall i | 0 <= i < k ensures before[i].Took? && IsAccess(before[i].op) && ReturnsAsAlone(STATE_EMPTY, before, i) {
      assert before[i] == effects[i] && before[..i] == effects[..i];
      assert ReturnsAsAlone(STATE_EMPTY, effects, i);
    }
    ClaimedIsNotEmpty(before, j);
    assert ReturnsAsAlone(STATE_EMPTY, effects, k);
  }
}
