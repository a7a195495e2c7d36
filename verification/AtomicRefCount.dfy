/**
 Reference counting: threads increment the count only while they hold a reference, and give up only
 references they hold.
 */
module AtomicRefCount {
  import opened Atomics

  /** How many references each thread holds after the operations have taken effect. */
  function Held(initial: seq<int>, effects: seq<Mark>): (held: seq<int>)
    ensures |held| == |initial|
  {
    if effects == [] then initial
    else
      var n := |effects| - 1;
      var held, m := Held(initial, effects[..n]), effects[n];
      if m.Took? && m.op.Increment? && m.thread < |initial| then
        Changed(held, m.thread, m.op.increment)
      else
        held
  }

  function Changed(held: seq<int>, t: nat, change: int): seq<int>
    requires t < |held|
  {
    held[t := held[t] + change]
  }

  function Total(held: seq<int>): int {
    if held == [] then 0 else Total(held[..|held| - 1]) + held[|held| - 1]
  }

  lemma {:induction false} TotalChanged(held: seq<int>, t: nat, change: int)
    requires t < |held|
    ensures Total(Changed(held, t, change)) == Total(held) + change
  {
    var n := |held| - 1;
    if t == n {
      assert Changed(held, t, change)[..n] == held[..n];
    } else {
      TotalChanged(held[..n], t, change);
      assert Changed(held, t, change)[..n] == Changed(held[..n], t, change);
    }
  }

  ghost predicate NoneOwed(held: seq<int>) {
    forall t {:trigger held[t]} :: 0 <= t < |held| ==> held[t] >= 0
  }

  lemma {:induction false} AtMostTotal(held: seq<int>, t: nat)
    requires NoneOwed(held) && t < |held|
    ensures 0 <= held[t] <= Total(held)
  {
    var n := |held| - 1;
    forall i | 0 <= i < n ensures held[..n][i] >= 0 {
      assert held[i] >= 0;
    }
    if t < n {
      AtMostTotal(held[..n], t);
      assert held[n] >= 0;
    } else {
      TotalNotNegative(held[..n]);
    }
  }

  lemma {:induction false} TotalNotNegative(held: seq<int>)
    requires NoneOwed(held)
    ensures Total(held) >= 0
  {
    if held != [] {
      var n := |held| - 1;
      forall i | 0 <= i < n ensures held[..n][i] >= 0 {
        assert held[i] >= 0;
      }
      TotalNotNegative(held[..n]);
      assert held[n] >= 0;
    }
  }

  /** The total is zero when nobody holds anything. */
  lemma {:induction false} NobodyHolds(held: seq<int>)
    requires NoneOwed(held)
    ensures Total(held) == 0 <==> forall t :: 0 <= t < |held| ==> held[t] == 0
  {
    if held != [] {
      var n := |held| - 1;
      forall i | 0 <= i < n ensures held[..n][i] >= 0 {
        assert held[i] >= 0;
      }
      NobodyHolds(held[..n]);
      TotalNotNegative(held[..n]);
      assert held[n] >= 0;
      assert (forall t :: 0 <= t < |held| ==> held[t] == 0)
        <==> held[n] == 0 && forall t :: 0 <= t < n ==> held[..n][t] == 0;
    }
  }

  // ---------------------------------------------------------------------------------------
  // The discipline
  // ---------------------------------------------------------------------------------------

  /** Increments by n > 0 need a reference to copy, decrements by n > 0 need n of them. */
  predicate MayCall(held: int, op: Op) {
    op.Increment? && op.increment != 0 && held >= 1 && held + op.increment >= 0
  }

  /** A thread may copy a reference it holds any number of times, and give up as many as it holds. */
  lemma DisciplineAllows(held: int, n: Atomic32)
    requires n > 0
    ensures MayCall(held, Increment(n)) <==> held >= 1
    ensures MayCall(held, Increment(-n)) <==> held >= n
    ensures !MayCall(held, Increment(0))
  {
  }

  function HeldAfter(start: State, initial: seq<int>, run: seq<Choice>): (held: seq<int>)
    ensures |held| == |initial|
  {
    Held(initial, Effects(Marks(start, run)))
  }

  /** All calls keep to the discipline, and there are never more references than the counter can count. */
  ghost predicate Disciplined(start: State, initial: seq<int>, run: seq<Choice>)
    requires |initial| == |start.pcs|
  {
    && Total(HeldAfter(start, initial, run)) < TWO_TO_THE_31
    && (run != [] ==>
          var n := |run| - 1;
          && Disciplined(start, initial, run[..n])
          && (run[n].Call? && run[n].thread < |initial| ==>
                MayCall(HeldAfter(start, initial, run[..n])[run[n].thread], run[n].op)))
  }

  ghost predicate Counting(start: State, initial: seq<int>) {
    && AllIdle(start) && |initial| == |start.pcs|
    && NoneOwed(initial) && start.cell == Total(initial) > 0
  }

  // ---------------------------------------------------------------------------------------
  // What it keeps
  // ---------------------------------------------------------------------------------------

  /** A thread that is to change the count still holds what its call needed. */
  ghost predicate Covered(s: State, held: seq<int>)
    requires |held| == |s.pcs|
  {
    forall t {:trigger s.pcs[t]} :: 0 <= t < |held| && s.pcs[t].Working() ==> MayCall(held[t], s.pcs[t].Operation())
  }

  predicate IsDecN(m: Mark) {
    m.Took? && m.op.Increment? && m.op.increment < 0
  }

  /** A result of 0 is the last that is seen, and means that no reference is held any more. */
  ghost predicate ZeroIsLast(effects: seq<Mark>, held: seq<int>) {
    && (forall k {:trigger effects[k]} :: 0 <= k < |effects| ==> effects[k].Took?)
    && (forall k {:trigger effects[k]} :: 0 <= k < |effects| ==>
          && (effects[k].result == 0 <==> k == |effects| - 1 && Total(held) == 0)
          && (effects[k].result == 0 ==> IsDecN(effects[k])))
  }

  ghost predicate Kept(s: State, initial: seq<int>, effects: seq<Mark>) {
    && |initial| == |s.pcs|
    && s.cell == Total(Held(initial, effects))
    && NoneOwed(Held(initial, effects)) && Covered(s, Held(initial, effects))
    && ZeroIsLast(effects, Held(initial, effects))
    && (effects == [] ==> Total(Held(initial, effects)) > 0)
  }

  lemma HeldSnoc(initial: seq<int>, effects: seq<Mark>, m: Mark)
    requires m.Took? && m.op.Increment? && m.thread < |initial|
    ensures Held(initial, effects + [m])
         == Changed(Held(initial, effects), m.thread, m.op.increment)
  {
    assert (effects + [m])[..|effects|] == effects;
  }

  /** A step that changes no counts. */
  lemma QuietStep(s: State, initial: seq<int>, effects: seq<Mark>, c: Choice)
    requires Kept(s, initial, effects) && Enabled(s, c)
    requires c.Call? ==> MayCall(Held(initial, effects)[c.thread], c.op)
    requires MarkOf(s, c) == [] || !MarkOf(s, c)[0].Took?
    ensures Kept(Step(s, c), initial, effects)
  {
    if c.Continue? {
      MoveIsAtomic(s.cell, s.pcs[c.thread], c.spurious);
      assert MayCall(Held(initial, effects)[c.thread], s.pcs[c.thread].Operation());
    }
    var next := Step(s, c);
    forall t | 0 <= t < |s.pcs| && next.pcs[t].Working()
      ensures MayCall(Held(initial, effects)[t], next.pcs[t].Operation())
    {
      assert t != c.thread ==> next.pcs[t] == s.pcs[t];
    }
  }

  lemma CountStep(s: State, initial: seq<int>, effects: seq<Mark>, c: Choice, m: Mark)
    requires Kept(s, initial, effects) && Enabled(s, c)
    requires MarkOf(s, c) == [m] && m.Took?
    requires Total(Held(initial, effects + [m])) < TWO_TO_THE_31
    ensures Kept(Step(s, c), initial, effects + [m])
  {
    var t := c.thread;
    var held, next := Held(initial, effects), Held(initial, effects + [m]);
    MoveIsAtomic(s.cell, s.pcs[t], c.spurious);
    assert MayCall(held[t], s.pcs[t].Operation());
    HeldSnoc(initial, effects, m);
    TotalChanged(held, t, m.op.increment);
    forall i | 0 <= i < |next| ensures next[i] >= 0 {
      assert held[i] >= 0;
    }
    TotalNotNegative(next);
    WrapSmall(Total(next));
    AtMostTotal(held, t);
    assert m.result == Total(next) == Step(s, c).cell;
    forall k | 0 <= k < |effects| + 1
      ensures (effects + [m])[k].Took?
      ensures (effects + [m])[k].result == 0 <==> k == |effects| && Total(next) == 0
      ensures (effects + [m])[k].result == 0 ==> IsDecN((effects + [m])[k])
    {
      assert k < |effects| ==> (effects + [m])[k] == effects[k];
    }
  }

  lemma {:induction false} RunKeeps(start: State, initial: seq<int>, run: seq<Choice>)
    requires Counting(start, initial) && Disciplined(start, initial, run)
    ensures Kept(After(start, run), initial, Effects(Marks(start, run)))
  {
    if run == [] {
      forall t | 0 <= t < |initial| ensures start.pcs[t].Idle? {
      }
    } else {
      var n := |run| - 1;
      RunKeeps(start, initial, run[..n]);
      var s, marks := After(start, run[..n]), Marks(start, run[..n]);
      assert marks + [] == marks;
      if Enabled(s, run[n]) {
        var m := MarkOf(s, run[n]);
        if m == [] {
          QuietStep(s, initial, Effects(marks), run[n]);
        } else {
          assert m == [m[0]];
          EffectsSnoc(marks, m[0]);
          assert Effects(marks) + [] == Effects(marks);
          if m[0].Took? {
            CountStep(s, initial, Effects(marks), run[n], m[0]);
          } else {
            QuietStep(s, initial, Effects(marks), run[n]);
          }
        }
      }
    }
  }

  // ---------------------------------------------------------------------------------------
  // Main results
  // ---------------------------------------------------------------------------------------

  /** AtomicRefCountDecN returns whether the count is still not zero. */
  predicate DecNReturns(m: Mark)
    requires m.Took?
  {
    m.result != 0
  }

  /** The count is the number of references held. */
  lemma CountIsReferences(start: State, initial: seq<int>, run: seq<Choice>)
    requires Counting(start, initial) && Disciplined(start, initial, run)
    ensures After(start, run).cell == Total(HeldAfter(start, initial, run))
    ensures NoneOwed(HeldAfter(start, initial, run))
  {
    RunKeeps(start, initial, run);
  }

  /**
   A decrement returns false exactly when it gives up the last reference, and then it is the last
   operation on the count: exactly one does, once all references are given up, and none before.
   */
  lemma LastReferenceTellsOnce(start: State, initial: seq<int>, run: seq<Choice>, k: nat)
    requires Counting(start, initial) && Disciplined(start, initial, run)
    requires k < |Effects(Marks(start, run))|
    ensures var effects := Effects(Marks(start, run));
            && effects[k].Took?
            && (!DecNReturns(effects[k]) <==>
                  k == |effects| - 1 && forall t :: 0 <= t < |initial| ==> HeldAfter(start, initial, run)[t] == 0)
            && (!DecNReturns(effects[k]) ==> IsDecN(effects[k]))
  {
    var effects := Effects(Marks(start, run));
    RunKeeps(start, initial, run);
    NobodyHolds(HeldAfter(start, initial, run));
    assert effects[k].Took?;
  }

  /** AtomicRefCountIsOne tells a holder that nobody else holds a reference. */
  lemma OnlyHolder(start: State, initial: seq<int>, run: seq<Choice>, t: nat, other: nat)
    requires Counting(start, initial) && Disciplined(start, initial, run)
    requires t < |initial| && other < |initial| && t != other
    requires HeldAfter(start, initial, run)[t] >= 1 && After(start, run).cell == 1
    ensures HeldAfter(start, initial, run)[other] == 0 && HeldAfter(start, initial, run)[t] == 1
  {
    RunKeeps(start, initial, run);
    var held := HeldAfter(start, initial, run);
    AtMostTotal(held, t);
    var rest := Changed(held, other, -held[other]);
    TotalChanged(held, other, -held[other]);
    forall i | 0 <= i < |rest| ensures rest[i] >= 0 {
      assert held[i] >= 0;
    }
    AtMostTotal(rest, t);
    assert held[other] >= 0;
  }
}
