/**
 The retry loops as one thread runs them.  Before each of its accesses to the cell the thread meets a
 turn of the scheduler: other threads do any number of operations, and the kernel's compare-exchange
 may be made to fail.  A call that runs out of turns has not returned yet.
 */
module AtomicOperations {
  import opened Atomics

  datatype Turn = Turn(others: seq<Op>, spurious: bool) {
    /** No other thread does anything, and the kernel does not fail. */
    predicate Quiet() {
      others == [] && !spurious
    }
  }

  /** Three turns in a row at which the thread is left alone. */
  ghost predicate LeftAlone(turns: seq<Turn>) {
    exists k :: 0 <= k < |turns| - 2 && turns[k].Quiet() && turns[k + 1].Quiet() && turns[k + 2].Quiet()
  }

  /** Of the first n turns none that is as even or odd as `first` and the next are both quiet. */
  ghost predicate Disturbed(turns: seq<Turn>, first: nat, n: int) {
    forall k {:trigger turns[k]} :: 0 <= k < n - 1 && n <= |turns| && k % 2 == first ==>
      !turns[k].Quiet() || !turns[k + 1].Quiet()
  }

  lemma NeverAlone(turns: seq<Turn>, first: nat)
    requires first < 2 && Disturbed(turns, first, |turns|)
    ensures !LeftAlone(turns)
  {
    forall k | 0 <= k < |turns| - 2
      ensures !turns[k].Quiet() || !turns[k + 1].Quiet() || !turns[k + 2].Quiet()
    {
      var j := if k % 2 == first then k else k + 1;
      assert !turns[j].Quiet() || !turns[j + 1].Quiet();
    }
  }

  lemma DisturbedNext(turns: seq<Turn>, first: nat, n: nat)
    requires Disturbed(turns, first, n) && n + 2 <= |turns| && n % 2 == first < 2
    requires !turns[n].Quiet() || !turns[n + 1].Quiet()
    ensures Disturbed(turns, first, n + 2)
  {
    forall k | 0 <= k < n + 1 && k % 2 == first ensures !turns[k].Quiet() || !turns[k + 1].Quiet() {
      assert k != n - 1;
    }
  }

  lemma DisturbedLast(turns: seq<Turn>, first: nat, n: nat)
    requires Disturbed(turns, first, n) && n + 1 == |turns| && n % 2 == first < 2
    ensures Disturbed(turns, first, n + 1)
  {
    forall k | 0 <= k < n && k % 2 == first ensures !turns[k].Quiet() || !turns[k + 1].Quiet() {
      assert k != n - 1;
    }
  }

  /** Marks of the calling thread and of all others. */
  const ME: nat := 0
  const OTHERS: nat := 1

  class SharedCell {
    var value: Atomic32
    var turns: seq<Turn>
    ghost const initial: Atomic32
    /** Every operation that has taken effect, of any thread. */
    ghost var effects: seq<Mark>

    ghost predicate Valid()
      reads this
    {
      value == Replay(initial, effects) && Sequential(initial, effects)
    }

    /** The operations of the calling thread that have taken effect. */
    ghost function Mine(): seq<Mark>
      reads this
    {
      Of(effects, ME)
    }

    constructor (value: Atomic32, turns: seq<Turn>)
      ensures Valid() && initial == this.value == value && this.turns == turns && effects == []
    {
      this.value, this.turns, initial, effects := value, turns, value, [];
    }

    /** Record that an operation has just taken effect on a cell that held `before`. */
    ghost method Take(thread: nat, op: Op, before: Atomic32)
      requires before == Replay(initial, effects) && Sequential(initial, effects) && value == Effect(op, before)
      modifies this`effects
      ensures Valid()
      ensures effects == old(effects) + [Took(thread, op, Result(op, before))]
      ensures Mine() == old(Mine()) + if thread == ME then [Took(ME, op, Result(op, before))] else []
    {
      var m := Took(thread, op, Result(op, before));
      ReplaySnoc(initial, effects, m);
      SequentialSnoc(initial, effects, m);
      OfSnoc(effects, m, ME);
      effects := effects + [m];
    }

    /** Up to the thread's next access. */
    method NextTurn() returns (running: bool, spurious: bool)
      requires Valid()
      modifies this
      ensures Valid() && Mine() == old(Mine())
      ensures if running then old(turns) != [] && turns == old(turns)[1..] else old(turns) == turns == []
      ensures running ==> spurious == old(turns)[0].spurious
      ensures running && old(turns)[0].Quiet() ==> value == old(value)
    {
      if turns == [] {
        return false, false;
      }
      running, spurious := true, turns[0].spurious;
      var others := turns[0].others;
      turns := turns[1..];
      for i := 0 to |others|
        invariant Valid() && Mine() == old(Mine()) && turns == old(turns)[1..]
        invariant others == [] ==> value == old(value)
      {
        ghost var before := value;
        value := Effect(others[i], value);
        Take(OTHERS, others[i], before);
      }
    }

    /**
     The kernel's function, called for the operation `op`, which a success completes: it returns 0 and
     stores the new value, or returns something else and stores nothing.
     */
    method LinuxKernelCmpxchg(oldValue: Atomic32, newValue: Atomic32, ghost op: Op) returns (running: bool, r: int)
      requires Valid() && Effect(op, oldValue) == newValue
      modifies this
      ensures Valid()
      ensures if running then old(turns) != [] && turns == old(turns)[1..] else old(turns) == turns == []
      ensures running && old(turns)[0].Quiet() ==>
                if old(value) == oldValue then r == 0 else r != 0 && value == old(value)
      ensures Mine() == old(Mine()) + if running && r == 0 then [Took(ME, op, Result(op, oldValue))] else []
    {
      var spurious;
      running, spurious := NextTurn();
      r := 1;
      if running && value == oldValue && !spurious {
        r := 0;
        value := newValue;
        Take(ME, op, oldValue);
      }
    }

    /** done, with the value returned, or still running when there are no turns left. */
    method NoBarrierCompareAndSwap(oldValue: Atomic32, newValue: Atomic32) returns (done: bool, prevValue: Atomic32)
      requires Valid()
      modifies this
      ensures Valid() && (!done ==> turns == [] && !LeftAlone(old(turns)))
      ensures Mine() == old(Mine()) + if done then [Took(ME, CompareAndSwap(oldValue, newValue), prevValue)] else []
    {
      ghost var n := 1;
      var running, spurious := NextTurn();
      prevValue := value;
      while running
        invariant Valid() && Mine() == old(Mine())
        invariant if running then n <= |old(turns)| && n % 2 == 1 && turns == old(turns)[n..] else turns == []
        invariant Disturbed(old(turns), 1, if running then n else |old(turns)|)
        decreases running, |turns|
      {
        var r;
        running, r := LinuxKernelCmpxchg(oldValue, newValue, CompareAndSwap(oldValue, newValue));
        if running && r == 0 {
          return true, oldValue;
        }
        if running {
          running, spurious := NextTurn();
          prevValue := value;
          if running && prevValue != oldValue {
            Take(ME, CompareAndSwap(oldValue, newValue), prevValue);
            return true, prevValue;
          }
          if running {
            DisturbedNext(old(turns), 1, n);
            n := n + 2;
          } else {
            DisturbedLast(old(turns), 1, n);
          }
        }
      }
      NeverAlone(old(turns), 1);
      done := false;
    }

    method NoBarrierAtomicExchange(newValue: Atomic32) returns (done: bool, oldValue: Atomic32)
      requires Valid()
      modifies this
      ensures Valid() && (!done ==> turns == [] && !LeftAlone(old(turns)))
      ensures Mine() == old(Mine()) + if done then [Took(ME, Exchange(newValue), oldValue)] else []
    {
      ghost var n := 0;
      var running, r := true, 1;
      oldValue := 0;
      while running && r != 0
        invariant Valid()
        invariant if !running then turns == []
                  else r != 0 ==> n <= |old(turns)| && n % 2 == 0 && turns == old(turns)[n..]
        invariant (running && r == 0) || Disturbed(old(turns), 0, if running then n else |old(turns)|)
        invariant Mine() == old(Mine()) + if running && r == 0 then [Took(ME, Exchange(newValue), oldValue)] else []
        decreases running, r != 0, |turns|
      {
        var spurious;
        running, spurious := NextTurn();
        if running {
          oldValue := value;
          running, r := LinuxKernelCmpxchg(oldValue, newValue, Exchange(newValue));
          if !running {
            DisturbedLast(old(turns), 0, n);
          } else if r != 0 {
            DisturbedNext(old(turns), 0, n);
            n := n + 2;
          }
        }
      }
      if !running {
        NeverAlone(old(turns), 0);
      }
      done := running;
    }

    method BarrierAtomicIncrement(increment: Atomic32) returns (done: bool, result: Atomic32)
      requires Valid()
      modifies this
      ensures Valid() && (!done ==> turns == [] && !LeftAlone(old(turns)))
      ensures Mine() == old(Mine()) + if done then [Took(ME, Increment(increment), result)] else []
    {
      ghost var n := 0;
      while true
        invariant Valid() && Mine() == old(Mine())
        invariant n <= |old(turns)| && n % 2 == 0 && turns == old(turns)[n..] && Disturbed(old(turns), 0, n)
        decreases |turns|
      {
        var running, _ := NextTurn();
        if !running {
          NeverAlone(old(turns), 0);
          return false, 0;
        }
        var oldValue := value;
        var newValue := Wrap(oldValue + increment);
        var r;
        running, r := LinuxKernelCmpxchg(oldValue, newValue, Increment(increment));
        if !running {
          DisturbedLast(old(turns), 0, n);
          NeverAlone(old(turns), 0);
          return false, 0;
        }
        if r == 0 {
          return true, newValue;
        }
        DisturbedNext(old(turns), 0, n);
        n := n + 2;
      }
    }

    method AcquireLoad() returns (done: bool, result: Atomic32)
      requires Valid()
      modifies this
      ensures Valid() && if done then old(turns) != [] && turns == old(turns)[1..] else old(turns) == turns == []
      ensures Mine() == old(Mine()) + if done then [Took(ME, Load, result)] else []
    {
      var spurious;
      done, spurious := NextTurn();
      result := value;
      if done {
        Take(ME, Load, value);
      }
    }

    method ReleaseStore(newValue: Atomic32) returns (done: bool)
      requires Valid()
      modifies this
      ensures Valid() && if done then old(turns) != [] && turns == old(turns)[1..] else old(turns) == turns == []
      ensures Mine() == old(Mine()) + if done then [Took(ME, Store(newValue), newValue)] else []
    {
      var spurious;
      done, spurious := NextTurn();
      if done {
        ghost var before := value;
        value := newValue;
        Take(ME, Store(newValue), before);
      }
    }
  }
}
