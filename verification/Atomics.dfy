/**
 Atomic operations on a 32-bit cell, built from a kernel compare-exchange that may fail although
 the cell holds the expected value.  Threads interleave at every access to the cell; each access is
 one step.
 */
module Atomics {
  const TWO_TO_THE_31 := 0x8000_0000
  const TWO_TO_THE_32 := 0x1_0000_0000

  type Atomic32 = x: int | -TWO_TO_THE_31 <= x < TWO_TO_THE_31

  /** The 32-bit two's complement value of x. */
  function Wrap(x: int): Atomic32 {
    (x + TWO_TO_THE_31) % TWO_TO_THE_32 - TWO_TO_THE_31
  }

  lemma WrapSum(a: int, b: int)
    ensures Wrap(Wrap(a) + b) == Wrap(a + b)
  {
  }

  lemma WrapSmall(a: int)
    requires -TWO_TO_THE_31 <= a < TWO_TO_THE_31
    ensures Wrap(a) == a
  {
  }

  // ---------------------------------------------------------------------------------------
  // What the operations are to do
  // ---------------------------------------------------------------------------------------

  datatype Op =
    | Load
    | Store(value: Atomic32)
    | CompareAndSwap(oldValue: Atomic32, newValue: Atomic32)
    | Exchange(value: Atomic32)
    | Increment(increment: Atomic32)

  /** The value of the cell after the operation. */
  function Effect(op: Op, cell: Atomic32): Atomic32 {
    match op
    case Load => cell
    case Store(value) => value
    case CompareAndSwap(oldValue, newValue) => if cell == oldValue then newValue else cell
    case Exchange(value) => value
    case Increment(increment) => Wrap(cell + increment)
  }

  /** What the operation returns; a store returns nothing, which is shown as the value stored. */
  function Result(op: Op, cell: Atomic32): Atomic32 {
    match op
    case Load => cell
    case Store(value) => value
    case CompareAndSwap(oldValue, newValue) => cell
    case Exchange(value) => cell
    case Increment(increment) => Wrap(cell + increment)
  }

  // ---------------------------------------------------------------------------------------
  // What they do, access by access
  // ---------------------------------------------------------------------------------------

  /** Where a thread is: before the access of that name, or about to return from a call. */
  datatype Pc =
    | Idle
    | LoadCell
    | StoreCell(value: Atomic32)
    | CasRead(oldValue: Atomic32, newValue: Atomic32)
    | CasExchange(oldValue: Atomic32, newValue: Atomic32)
    | CasReread(oldValue: Atomic32, newValue: Atomic32)
    | ExchangeRead(value: Atomic32)
    | ExchangeTry(value: Atomic32, seen: Atomic32)
    | IncrementRead(increment: Atomic32)
    | IncrementTry(increment: Atomic32, seen: Atomic32)
    | Returning(op: Op, result: Atomic32)
  {
    /** In a call that has still to access the cell. */
    predicate Working() {
      !Idle? && !Returning?
    }

    function Operation(): Op
      requires Working()
    {
      match this
      case LoadCell => Load
      case StoreCell(value) => Store(value)
      case CasRead(oldValue, newValue) => CompareAndSwap(oldValue, newValue)
      case CasExchange(oldValue, newValue) => CompareAndSwap(oldValue, newValue)
      case CasReread(oldValue, newValue) => CompareAndSwap(oldValue, newValue)
      case ExchangeRead(value) => Exchange(value)
      case ExchangeTry(value, _) => Exchange(value)
      case IncrementRead(increment) => Increment(increment)
      case IncrementTry(increment, _) => Increment(increment)
    }
  }

  function Start(op: Op): Pc {
    match op
    case Load => LoadCell
    case Store(value) => StoreCell(value)
    case CompareAndSwap(oldValue, newValue) => CasRead(oldValue, newValue)
    case Exchange(value) => ExchangeRead(value)
    case Increment(increment) => IncrementRead(increment)
  }

  /** The kernel's compare-exchange stores only into a cell with the expected value, and not always then. */
  predicate CmpxchgSucceeds(cell: Atomic32, expected: Atomic32, spurious: bool) {
    cell == expected && !spurious
  }

  datatype Access = Access(cell: Atomic32, pc: Pc)

  /** One access of a thread at `pc` to the cell. */
  function Move(cell: Atomic32, pc: Pc, spurious: bool): Access
    requires pc.Working()
  {
    match pc
    case LoadCell => Access(cell, Returning(Load, cell))
    case StoreCell(value) => Access(value, Returning(Store(value), value))
    case CasRead(oldValue, newValue) => Access(cell, CasExchange(oldValue, newValue))
    case CasExchange(oldValue, newValue) =>
      if CmpxchgSucceeds(cell, oldValue, spurious) then
        Access(newValue, Returning(CompareAndSwap(oldValue, newValue), oldValue))
      else
        Access(cell, CasReread(oldValue, newValue))
    case CasReread(oldValue, newValue) =>
      if cell == oldValue then Access(cell, CasExchange(oldValue, newValue))
      else Access(cell, Returning(CompareAndSwap(oldValue, newValue), cell))
    case ExchangeRead(value) => Access(cell, ExchangeTry(value, cell))
    case ExchangeTry(value, seen) =>
      if CmpxchgSucceeds(cell, seen, spurious) then Access(value, Returning(Exchange(value), seen))
      else Access(cell, ExchangeRead(value))
    case IncrementRead(increment) => Access(cell, IncrementTry(increment, cell))
    case IncrementTry(increment, seen) =>
      var newValue := Wrap(seen + increment);
      if CmpxchgSucceeds(cell, seen, spurious) then Access(newValue, Returning(Increment(increment), newValue))
      else Access(cell, IncrementRead(increment))
  }

  /** An access either does the whole operation at once or leaves it all to do. */
  lemma MoveIsAtomic(cell: Atomic32, pc: Pc, spurious: bool)
    requires pc.Working()
    ensures var a := Move(cell, pc, spurious);
            if a.pc.Working() then
              a.cell == cell && a.pc.Operation() == pc.Operation()
            else
              && a.pc == Returning(pc.Operation(), Result(pc.Operation(), cell))
              && a.cell == Effect(pc.Operation(), cell)
  {
  }

  /** Up to n accesses of a thread that nobody disturbs. */
  function Alone(cell: Atomic32, pc: Pc, n: nat): Access
    decreases n
  {
    if n == 0 || !pc.Working() then Access(cell, pc)
    else
      var a := Move(cell, pc, false);
      Alone(a.cell, a.pc, n - 1)
  }

  /** How many accesses it takes a thread that nobody disturbs. */
  function Accesses(cell: Atomic32, pc: Pc): nat {
    match pc
    case LoadCell => 1
    case StoreCell(_) => 1
    case CasRead(oldValue, _) => if cell == oldValue then 2 else 3
    case CasExchange(oldValue, _) => if cell == oldValue then 1 else 2
    case CasReread(oldValue, _) => if cell == oldValue then 2 else 1
    case ExchangeRead(_) => 2
    case ExchangeTry(_, seen) => if cell == seen then 1 else 3
    case IncrementRead(_) => 2
    case IncrementTry(_, seen) => if cell == seen then 1 else 3
    case _ => 0
  }

  lemma OneAccessLess(cell: Atomic32, pc: Pc)
    requires pc.Working()
    ensures 1 <= Accesses(cell, pc) <= 3
    ensures var a := Move(cell, pc, false); a.pc.Working() ==> Accesses(a.cell, a.pc) < Accesses(cell, pc)
  {
  }

  /** From wherever it is, an operation that nobody disturbs is done after three accesses at most. */
  lemma {:induction false} AloneFinishes(cell: Atomic32, pc: Pc, n: nat)
    requires pc.Working() && Accesses(cell, pc) <= n
    ensures Accesses(cell, pc) <= 3
    ensures Alone(cell, pc, n) ==
              Access(Effect(pc.Operation(), cell), Returning(pc.Operation(), Result(pc.Operation(), cell)))
    decreases n
  {
    var a := Move(cell, pc, false);
    MoveIsAtomic(cell, pc, false);
    if a.pc.Working() {
      AloneFinishes(a.cell, a.pc, n - 1);
    } else {
      assert Alone(a.cell, a.pc, n - 1) == a;
    }
  }

  // ---------------------------------------------------------------------------------------
  // Runs of any number of threads
  // ---------------------------------------------------------------------------------------

  datatype State = State(cell: Atomic32, pcs: seq<Pc>)

  datatype Choice =
    | Call(thread: nat, op: Op)
    | Continue(thread: nat, spurious: bool)
    | Return(thread: nat)

  predicate Enabled(s: State, c: Choice) {
    && c.thread < |s.pcs|
    && match c
       case Call(t, _) => s.pcs[t].Idle?
       case Continue(t, _) => s.pcs[t].Working()
       case Return(t) => s.pcs[t].Returning?
  }

  function Step(s: State, c: Choice): State
    requires Enabled(s, c)
  {
    match c
    case Call(t, op) => s.(pcs := s.pcs[t := Start(op)])
    case Continue(t, spurious) =>
      var a := Move(s.cell, s.pcs[t], spurious);
      State(a.cell, s.pcs[t := a.pc])
    case Return(t) => s.(pcs := s.pcs[t := Idle])
  }

  /** The state after a run; a choice that is not enabled changes nothing. */
  function After(start: State, run: seq<Choice>): State {
    if run == [] then start
    else
      var n := |run| - 1;
      var s := After(start, run[..n]);
      if Enabled(s, run[n]) then Step(s, run[n]) else s
  }

  predicate AllIdle(s: State) {
    forall t :: 0 <= t < |s.pcs| ==> s.pcs[t].Idle?
  }

  // ---------------------------------------------------------------------------------------
  // What a run shows
  // ---------------------------------------------------------------------------------------

  /** The moments of a call: it begins, it takes effect, it returns. */
  datatype Mark =
    | Called(thread: nat, op: Op)
    | Took(thread: nat, op: Op, result: Atomic32)
    | Returned(thread: nat, result: Atomic32)

  function MarkOf(s: State, c: Choice): seq<Mark>
    requires Enabled(s, c)
  {
    match c
    case Call(t, op) => [Called(t, op)]
    case Continue(t, spurious) =>
      var pc := Move(s.cell, s.pcs[t], spurious).pc;
      if pc.Returning? then [Took(t, pc.op, pc.result)] else []
    case Return(t) => [Returned(t, s.pcs[t].result)]
  }

  function Marks(start: State, run: seq<Choice>): seq<Mark> {
    if run == [] then []
    else
      var n := |run| - 1;
      var s := After(start, run[..n]);
      Marks(start, run[..n]) + if Enabled(s, run[n]) then MarkOf(s, run[n]) else []
  }

  /** The marks of one thread. */
  function Of(marks: seq<Mark>, t: nat): seq<Mark> {
    if marks == [] then []
    else
      var n := |marks| - 1;
      Of(marks[..n], t) + if marks[n].thread == t then [marks[n]] else []
  }

  /** The linearization: the moments operations took effect, in order. */
  function Effects(marks: seq<Mark>): seq<Mark> {
    if marks == [] then []
    else
      var n := |marks| - 1;
      Effects(marks[..n]) + if marks[n].Took? then [marks[n]] else []
  }

  /** The cell after the operations were done one after the other. */
  function Replay(cell: Atomic32, effects: seq<Mark>): Atomic32 {
    if effects == [] then cell
    else
      var n := |effects| - 1;
      var before := Replay(cell, effects[..n]);
      if effects[n].Took? then Effect(effects[n].op, before) else before
  }

  /** Each operation returned what it returns when done alone, after those before it. */
  ghost predicate Sequential(cell: Atomic32, effects: seq<Mark>) {
    forall k {:trigger effects[k]} :: 0 <= k < |effects| ==> ReturnsAsAlone(cell, effects, k)
  }

  predicate ReturnsAsAlone(cell: Atomic32, effects: seq<Mark>, k: nat)
    requires k < |effects|
  {
    effects[k].Took? && effects[k].result == Result(effects[k].op, Replay(cell, effects[..k]))
  }

  /** A thread's calls follow each other, and each takes effect once, between its call and its return. */
  ghost predicate InTurn(marks: seq<Mark>) {
    forall k {:trigger marks[k]} :: 0 <= k < |marks| ==> Fits(marks, k)
  }

  predicate Fits(marks: seq<Mark>, k: nat)
    requires k < |marks|
  {
    if k % 3 == 0 then marks[k].Called?
    else if k % 3 == 1 then marks[k].Took? && marks[k - 1].Called? && marks[k].op == marks[k - 1].op
    else marks[k].Returned? && marks[k - 1].Took? && marks[k].result == marks[k - 1].result
  }

  // ---------------------------------------------------------------------------------------
  // Linearizability
  // ---------------------------------------------------------------------------------------

  lemma OfSnoc(marks: seq<Mark>, m: Mark, t: nat)
    ensures Of(marks + [m], t) == Of(marks, t) + if m.thread == t then [m] else []
  {
    assert (marks + [m])[..|marks|] == marks;
  }

  lemma EffectsSnoc(marks: seq<Mark>, m: Mark)
    ensures Effects(marks + [m]) == Effects(marks) + if m.Took? then [m] else []
  {
    assert (marks + [m])[..|marks|] == marks;
  }

  lemma ReplaySnoc(cell: Atomic32, effects: seq<Mark>, m: Mark)
    requires m.Took?
    ensures Replay(cell, effects + [m]) == Effect(m.op, Replay(cell, effects))
  {
    assert (effects + [m])[..|effects|] == effects;
  }

  lemma SequentialSnoc(cell: Atomic32, effects: seq<Mark>, m: Mark)
    requires Sequential(cell, effects)
    requires m.Took? && m.result == Result(m.op, Replay(cell, effects))
    ensures Sequential(cell, effects + [m])
  {
    var next := effects + [m];
    forall k | 0 <= k < |next| ensures ReturnsAsAlone(cell, next, k) {
      if k < |effects| {
        assert next[k] == effects[k] && next[..k] == effects[..k];
        assert ReturnsAsAlone(cell, effects, k);
      } else {
        assert next[..k] == effects;
      }
    }
  }

  lemma InTurnSnoc(marks: seq<Mark>, m: Mark)
    requires InTurn(marks)
    requires Fits(marks + [m], |marks|)
    ensures InTurn(marks + [m])
  {
    var next := marks + [m];
    forall k | 0 <= k < |next| ensures Fits(next, k) {
      if k < |marks| {
        assert next[k] == marks[k] && (k > 0 ==> next[k - 1] == marks[k - 1]);
        assert Fits(marks, k);
      }
    }
  }

  /** Where a thread is agrees with its marks. */
  predicate Agrees(pc: Pc, marks: seq<Mark>) {
    match pc
    case Idle => |marks| % 3 == 0
    case Returning(op, result) =>
      |marks| % 3 == 2 && marks[|marks| - 1].Took? && marks[|marks| - 1].result == result
    case _ =>
      |marks| % 3 == 1 && marks[|marks| - 1].Called? && marks[|marks| - 1].op == pc.Operation()
  }

  ghost predicate ThreadOk(s: State, marks: seq<Mark>, t: nat)
    requires t < |s.pcs|
  {
    InTurn(Of(marks, t)) && Agrees(s.pcs[t], Of(marks, t))
  }

  /** A step of a thread and its mark, if it leaves one. */
  lemma OwnStep(s: State, mine: seq<Mark>, c: Choice)
    requires Enabled(s, c) && Agrees(s.pcs[c.thread], mine)
    ensures Agrees(Step(s, c).pcs[c.thread], mine + MarkOf(s, c))
    ensures MarkOf(s, c) != [] ==> Fits(mine + MarkOf(s, c), |mine|)
  {
    if c.Continue? {
      MoveIsAtomic(s.cell, s.pcs[c.thread], c.spurious);
      if MarkOf(s, c) == [] {
        assert mine + MarkOf(s, c) == mine;
      }
    }
  }

  lemma ThreadStep(s: State, marks: seq<Mark>, c: Choice, t: nat)
    requires Enabled(s, c) && t < |s.pcs| && ThreadOk(s, marks, t)
    ensures ThreadOk(Step(s, c), marks + MarkOf(s, c), t)
  {
    var m := MarkOf(s, c);
    assert m == [] || m == [m[0]];
    if m == [] {
      assert marks + m == marks;
    } else {
      OfSnoc(marks, m[0], t);
    }
    if t == c.thread {
      assert Of(marks + m, t) == Of(marks, t) + m;
      OwnStep(s, Of(marks, t), c);
      if m != [] {
        InTurnSnoc(Of(marks, t), m[0]);
      }
    } else {
      assert Of(marks + m, t) == Of(marks, t);
    }
  }

  lemma EffectsStep(start: Atomic32, s: State, marks: seq<Mark>, c: Choice)
    requires Enabled(s, c)
    requires s.cell == Replay(start, Effects(marks)) && Sequential(start, Effects(marks))
    ensures Step(s, c).cell == Replay(start, Effects(marks + MarkOf(s, c)))
    ensures Sequential(start, Effects(marks + MarkOf(s, c)))
  {
    if c.Continue? {
      MoveIsAtomic(s.cell, s.pcs[c.thread], c.spurious);
    }
    if MarkOf(s, c) == [] {
      assert marks + [] == marks;
    } else {
      var m := MarkOf(s, c)[0];
      assert MarkOf(s, c) == [m];
      EffectsSnoc(marks, m);
      assert Effects(marks) + [] == Effects(marks);
      if m.Took? {
        ReplaySnoc(start, Effects(marks), m);
        SequentialSnoc(start, Effects(marks), m);
      }
    }
  }

  /**
   Linearizability: whatever the interleaving and the failures of the kernel's compare-exchange, the
   cell and all results are those of the operations done one at a time, each at a moment between its
   call and its return.
   */
  lemma {:induction false} Linearizable(start: State, run: seq<Choice>)
    requires AllIdle(start)
    ensures |After(start, run).pcs| == |start.pcs|
    ensures After(start, run).cell == Replay(start.cell, Effects(Marks(start, run)))
    ensures Sequential(start.cell, Effects(Marks(start, run)))
    ensures forall t {:trigger Of(Marks(start, run), t)} :: 0 <= t < |start.pcs| ==>
              ThreadOk(After(start, run), Marks(start, run), t)
  {
    if run != [] {
      var n := |run| - 1;
      Linearizable(start, run[..n]);
      var s, marks := After(start, run[..n]), Marks(start, run[..n]);
      assert marks + [] == marks;
      if Enabled(s, run[n]) {
        EffectsStep(start.cell, s, marks, run[n]);
        forall t | 0 <= t < |start.pcs| ensures ThreadOk(After(start, run), Marks(start, run), t) {
          assert ThreadOk(s, marks, t);
          ThreadStep(s, marks, run[n], t);
        }
      } else {
        forall t | 0 <= t < |start.pcs| ensures ThreadOk(After(start, run), Marks(start, run), t) {
          assert ThreadOk(s, marks, t);
        }
      }
    } else {
      forall t | 0 <= t < |start.pcs| ensures ThreadOk(start, [], t) {
        assert start.pcs[t].Idle?;
      }
    }
  }

  // ---------------------------------------------------------------------------------------
  // What follows for callers
  // ---------------------------------------------------------------------------------------

  /** Effect k took place at a step of the run, by a thread in a call of that operation. */
  ghost predicate TookPlaceAt(start: State, run: seq<Choice>, k: nat, i: nat)
    requires k < |Effects(Marks(start, run))|
  {
    i < |run| &&
    var s, m := After(start, run[..i]), Effects(Marks(start, run))[k];
    && Enabled(s, run[i]) && run[i].Continue? && After(start, run[..i + 1]) == Step(s, run[i])
    && MarkOf(s, run[i]) == [m] && m.Took? && m.thread < |s.pcs|
    && s.pcs[m.thread].Working() && s.pcs[m.thread].Operation() == m.op
  }

  lemma TakingStep(s: State, c: Choice)
    requires Enabled(s, c) && MarkOf(s, c) != [] && MarkOf(s, c)[0].Took?
    ensures c.Continue? && MarkOf(s, c) == [MarkOf(s, c)[0]]
    ensures var m := MarkOf(s, c)[0];
            m.thread < |s.pcs| && s.pcs[m.thread].Working() && s.pcs[m.thread].Operation() == m.op
  {
    if c.Continue? {
      MoveIsAtomic(s.cell, s.pcs[c.thread], c.spurious);
    }
  }

  /** Effects of a longer run are those of the shorter one and perhaps one more. */
  lemma EffectsOfRun(start: State, run: seq<Choice>)
    requires run != []
    ensures var n := |run| - 1;
            var s, before := After(start, run[..n]), Effects(Marks(start, run[..n]));
            Effects(Marks(start, run))
              == before + if Enabled(s, run[n]) && MarkOf(s, run[n]) != [] && MarkOf(s, run[n])[0].Took?
                          then [MarkOf(s, run[n])[0]] else []
  {
    var n := |run| - 1;
    var s, marks := After(start, run[..n]), Marks(start, run[..n]);
    assert marks + [] == marks && Effects(marks) + [] == Effects(marks);
    if Enabled(s, run[n]) && MarkOf(s, run[n]) != [] {
      assert MarkOf(s, run[n]) == [MarkOf(s, run[n])[0]];
      EffectsSnoc(marks, MarkOf(s, run[n])[0]);
    }
  }

  lemma TookPlaceBefore(start: State, run: seq<Choice>, k: nat, i: nat)
    requires run != [] && k < |Effects(Marks(start, run[..|run| - 1]))| && k < |Effects(Marks(start, run))|
    requires Effects(Marks(start, run))[k] == Effects(Marks(start, run[..|run| - 1]))[k]
    requires TookPlaceAt(start, run[..|run| - 1], k, i)
    ensures TookPlaceAt(start, run, k, i)
  {
    var front := run[..|run| - 1];
    assert front[..i] == run[..i] && front[..i + 1] == run[..i + 1] && front[i] == run[i];
  }

  lemma TookPlaceLast(start: State, run: seq<Choice>, k: nat)
    requires run != [] && k < |Effects(Marks(start, run))|
    requires var n := |run| - 1;
             var s := After(start, run[..n]);
             && Enabled(s, run[n]) && MarkOf(s, run[n]) != [] && MarkOf(s, run[n])[0].Took?
             && Effects(Marks(start, run))[k] == MarkOf(s, run[n])[0]
    ensures TookPlaceAt(start, run, k, |run| - 1)
  {
    var n := |run| - 1;
    TakingStep(After(start, run[..n]), run[n]);
    assert run[..n + 1] == run;
  }

  lemma {:induction false} TookPlace(start: State, run: seq<Choice>, k: nat) returns (i: nat)
    requires k < |Effects(Marks(start, run))|
    ensures TookPlaceAt(start, run, k, i)
  {
    var n := |run| - 1;
    EffectsOfRun(start, run);
    if k < |Effects(Marks(start, run[..n]))| {
      i := TookPlace(start, run[..n], k);
      TookPlaceBefore(start, run, k, i);
    } else {
      i := n;
      TookPlaceLast(start, run, k);
    }
  }

  /**
   A compare-and-swap returns the old value it was given exactly when its swap took effect, and
   otherwise a different value that the cell held at that moment; the moment is step i of the run, at which the
   thread was in that call.
   */
  lemma CompareAndSwapTells(start: State, run: seq<Choice>, k: nat) returns (i: nat)
    requires k < |Effects(Marks(start, run))|
    requires Effects(Marks(start, run))[k].Took? && Effects(Marks(start, run))[k].op.CompareAndSwap?
    ensures TookPlaceAt(start, run, k, i)
    ensures var m := Effects(Marks(start, run))[k];
            var before, after := After(start, run[..i]).cell, After(start, run[..i + 1]).cell;
            if before == m.op.oldValue then m.result == m.op.oldValue && after == m.op.newValue
            else m.result == before != m.op.oldValue && after == before
  {
    i := TookPlace(start, run, k);
    var s := After(start, run[..i]);
    MoveIsAtomic(s.cell, s.pcs[run[i].thread], run[i].spurious);
  }

  /** What an operation makes of the cell and returns, on 32 bits. */
  predicate Tells(op: Op, before: Atomic32, after: Atomic32, result: Atomic32) {
    match op
    case Load => result == before == after
    case Store(value) => after == value
    case CompareAndSwap(oldValue, newValue) =>
      result == before && after == if before == oldValue then newValue else before
    case Exchange(value) => result == before && after == value
    case Increment(increment) =>
      var sum := before + increment;
      result == after && (after == sum || after == sum - TWO_TO_THE_32 || after == sum + TWO_TO_THE_32)
  }

  /** Whatever the operation: there is a step of the run, inside the call, at which it did what it is to do. */
  lemma EachTells(start: State, run: seq<Choice>, k: nat) returns (i: nat)
    requires k < |Effects(Marks(start, run))|
    ensures TookPlaceAt(start, run, k, i)
    ensures var m := Effects(Marks(start, run))[k];
            m.Took? && Tells(m.op, After(start, run[..i]).cell, After(start, run[..i + 1]).cell, m.result)
  {
    i := TookPlace(start, run, k);
    var s := After(start, run[..i]);
    MoveIsAtomic(s.cell, s.pcs[run[i].thread], run[i].spurious);
  }

  ghost predicate OnlyIncrements(effects: seq<Mark>) {
    forall k {:trigger effects[k]} :: 0 <= k < |effects| ==> effects[k].Took? && effects[k].op.Increment?
  }

  function Sum(effects: seq<Mark>): int {
    if effects == [] then 0
    else
      var n := |effects| - 1;
      Sum(effects[..n]) + if effects[n].Took? && effects[n].op.Increment? then effects[n].op.increment else 0
  }

  lemma {:induction false} ReplayAddsUp(cell: Atomic32, effects: seq<Mark>)
    requires OnlyIncrements(effects)
    ensures Replay(cell, effects) == Wrap(cell + Sum(effects))
  {
    var n := |effects| - 1;
    if effects == [] {
      WrapSmall(cell);
    } else {
      forall k | 0 <= k < n ensures effects[..n][k].Took? && effects[..n][k].op.Increment? {
        assert effects[..n][k] == effects[k];
      }
      ReplayAddsUp(cell, effects[..n]);
      WrapSum(cell + Sum(effects[..n]), effects[n].op.increment);
    }
  }

  /** Only what was called takes effect. */
  ghost predicate CallsOnly(run: seq<Choice>, p: Op -> bool) {
    forall i {:trigger run[i]} :: 0 <= i < |run| && run[i].Call? ==> p(run[i].op)
  }

  ghost predicate WorksOnly(s: State, p: Op -> bool) {
    forall t {:trigger s.pcs[t]} :: 0 <= t < |s.pcs| && s.pcs[t].Working() ==> p(s.pcs[t].Operation())
  }

  ghost predicate TakesOnly(effects: seq<Mark>, p: Op -> bool) {
    forall k {:trigger effects[k]} :: 0 <= k < |effects| ==> effects[k].Took? && p(effects[k].op)
  }

  lemma WorksOnlyStep(s: State, c: Choice, p: Op -> bool)
    requires WorksOnly(s, p) && Enabled(s, c) && (c.Call? ==> p(c.op))
    ensures WorksOnly(Step(s, c), p)
    ensures MarkOf(s, c) != [] && MarkOf(s, c)[0].Took? ==> p(MarkOf(s, c)[0].op)
  {
    if c.Continue? {
      MoveIsAtomic(s.cell, s.pcs[c.thread], c.spurious);
    }
    var next := Step(s, c);
    forall t | 0 <= t < |next.pcs| && next.pcs[t].Working() ensures p(next.pcs[t].Operation()) {
      assert t != c.thread ==> next.pcs[t] == s.pcs[t];
    }
  }

  lemma TakesOnlySnoc(effects: seq<Mark>, m: Mark, p: Op -> bool)
    requires TakesOnly(effects, p) && m.Took? && p(m.op)
    ensures TakesOnly(effects + [m], p)
  {
  }

  lemma CallsOnlyBefore(run: seq<Choice>, n: nat, p: Op -> bool)
    requires CallsOnly(run, p) && n <= |run|
    ensures CallsOnly(run[..n], p)
  {
    forall i | 0 <= i < n && run[..n][i].Call? ensures p(run[..n][i].op) {
      assert run[..n][i] == run[i];
    }
  }

  lemma WorksOnlyIdle(s: State, p: Op -> bool)
    requires AllIdle(s)
    ensures WorksOnly(s, p)
  {
    forall t | 0 <= t < |s.pcs| ensures s.pcs[t].Idle? {
    }
  }

  lemma {:induction false} OnlyCalledTakeEffect(start: State, run: seq<Choice>, p: Op -> bool)
    requires AllIdle(start) && CallsOnly(run, p)
    ensures WorksOnly(After(start, run), p) && TakesOnly(Effects(Marks(start, run)), p)
  {
    if run == [] {
      WorksOnlyIdle(start, p);
    } else {
      var n := |run| - 1;
      CallsOnlyBefore(run, n, p);
      OnlyCalledTakeEffect(start, run[..n], p);
      EffectsOfRun(start, run);
      var s := After(start, run[..n]);
      if Enabled(s, run[n]) {
        WorksOnlyStep(s, run[n], p);
        if MarkOf(s, run[n]) != [] && MarkOf(s, run[n])[0].Took? {
          TakesOnlySnoc(Effects(Marks(start, run[..n])), MarkOf(s, run[n])[0], p);
        }
      }
    }
  }

  predicate IsIncrement(op: Op) {
    op.Increment?
  }

  lemma TakesIncrements(effects: seq<Mark>)
    requires TakesOnly(effects, IsIncrement)
    ensures OnlyIncrements(effects)
  {
    forall k | 0 <= k < |effects| ensures effects[k].Took? && effects[k].op.Increment? {
      assert IsIncrement(effects[k].op);
    }
  }

  lemma CellIsReplay(start: State, run: seq<Choice>)
    requires AllIdle(start)
    ensures After(start, run).cell == Replay(start.cell, Effects(Marks(start, run)))
  {
    Linearizable(start, run);
  }

  /** `after` is `before` and the increments together, wrapped to 32 bits. */
  predicate AddedUp(before: Atomic32, after: Atomic32, effects: seq<Mark>) {
    after == Wrap(before + Sum(effects))
  }

  lemma IncrementsReplayed(cell: Atomic32, effects: seq<Mark>)
    requires TakesOnly(effects, IsIncrement)
    ensures AddedUp(cell, Replay(cell, effects), effects)
  {
    TakesIncrements(effects);
    ReplayAddsUp(cell, effects);
  }

  lemma IncrementsTake(start: State, run: seq<Choice>)
    requires AllIdle(start) && CallsOnly(run, IsIncrement)
    ensures TakesOnly(Effects(Marks(start, run)), IsIncrement)
  {
    OnlyCalledTakeEffect(start, run, IsIncrement);
  }

  /** When all threads only increment, the cell holds the sum of what has taken effect, wrapped to 32 bits. */
  lemma IncrementsAddUp(start: State, run: seq<Choice>)
    requires AllIdle(start) && CallsOnly(run, IsIncrement)
    ensures AddedUp(start.cell, After(start, run).cell, Effects(Marks(start, run)))
  {
    CellIsReplay(start, run);
    IncrementsTake(start, run);
    IncrementsReplayed(start.cell, Effects(Marks(start, run)));
  }
}
