/**
 Sequence numbers handed out by incrementing a shared counter.
 */
module AtomicSequenceNumber {
  import opened Atomics

  /** What GetNext makes of the result of its increment. */
  function GetNext(m: Mark): int
    requires m.Took?
  {
    m.result - 1
  }

  predicate IsGetNext(op: Op) {
    op == Increment(1)
  }

  lemma {:induction false} SumOfOnes(effects: seq<Mark>)
    requires TakesOnly(effects, IsGetNext)
    ensures Sum(effects) == |effects| && OnlyIncrements(effects)
  {
    if effects != [] {
      var n := |effects| - 1;
      forall k | 0 <= k < n ensures effects[..n][k].Took? && IsGetNext(effects[..n][k].op) {
        assert effects[..n][k] == effects[k];
      }
      SumOfOnes(effects[..n]);
      assert effects[n].Took? && IsGetNext(effects[n].op);
    }
  }

  lemma Counts(start: State, run: seq<Choice>, k: nat)
    requires AllIdle(start) && start.cell == 0 && CallsOnly(run, IsGetNext)
    requires k < |Effects(Marks(start, run))|
    ensures Effects(Marks(start, run))[k].Took? && Effects(Marks(start, run))[k].result == Wrap(k + 1)
  {
    var effects := Effects(Marks(start, run));
    Linearizable(start, run);
    OnlyCalledTakeEffect(start, run, IsGetNext);
    assert effects[k].Took? && IsGetNext(effects[k].op);
    var before := effects[..k];
    forall j | 0 <= j < k ensures before[j].Took? && IsGetNext(before[j].op) {
      assert before[j] == effects[j];
    }
    SumOfOnes(before);
    ReplayAddsUp(0, before);
    WrapSum(k, 1);
    assert ReturnsAsAlone(0, effects, k);
  }

  /**
   Whatever the interleaving, the first 2^31 - 1 calls are handed 0, 1, 2, ... in the order in which
   they take effect: no number twice, none left out.
   */
  lemma HandsOutInOrder(start: State, run: seq<Choice>, k: nat)
    requires AllIdle(start) && start.cell == 0 && CallsOnly(run, IsGetNext)
    requires k < |Effects(Marks(start, run))| && k < 0x7fff_ffff
    ensures Effects(Marks(start, run))[k].Took? && GetNext(Effects(Marks(start, run))[k]) == k
  {
    Counts(start, run, k);
    WrapSmall(k + 1);
  }

  /** The next increment overflows: its result is the least value of the counter. */
  lemma ThenOverflows(start: State, run: seq<Choice>)
    requires AllIdle(start) && start.cell == 0 && CallsOnly(run, IsGetNext)
    requires |Effects(Marks(start, run))| > 0x7fff_ffff
    ensures Effects(Marks(start, run))[0x7fff_ffff].Took?
    ensures Effects(Marks(start, run))[0x7fff_ffff].result == -0x8000_0000
  {
    Counts(start, run, 0x7fff_ffff);
  }
}
