/**
 Lazily created instances, shared by any number of threads.  Each access to an instance's state is one
 step; the compare-and-swap that claims an instance is the retry loop of Atomics.
 */
module LazyInstance {
  import Atomics
  import opened LazyInstanceHelper

  type Status = Atomics.Atomic32

  /** Where a thread is in Pointer() of instance i. */
  datatype Pc =
    | Idle
    | FastPath(i: nat)
    | Claiming(i: nat, cas: Atomics.Pc)
    | Spinning(i: nat)
    | New(i: nat)
    | Storing(i: nat)
    | Registering(i: nat)
    | GotPointer(i: nat)

  /**
   `leaky` instances have no destructor; `made` counts the calls of Traits::New; `stack` is that of the
   exit manager, the latest callback last.
   */
  datatype State = State(leaky: seq<bool>, status: seq<Status>, made: seq<nat>, stack: seq<nat>, pcs: seq<Pc>)

  datatype Choice = Begin(thread: nat, i: nat) | Continue(thread: nat, spurious: bool)

  predicate Enabled(s: State, c: Choice) {
    && c.thread < |s.pcs|
    && (if c.Begin? then s.pcs[c.thread].Idle? && c.i < |s.status| else !s.pcs[c.thread].Idle?)
  }

  /** A thread that is claiming an instance is in a call of that compare-and-swap. */
  predicate InItsCall(pc: Pc) {
    pc.Claiming? ==> pc.cas.Working() && pc.cas.Operation() == CLAIM
  }

  predicate Typed(s: State) {
    && |s.made| == |s.status| == |s.leaky|
    && forall t :: 0 <= t < |s.pcs| && !s.pcs[t].Idle? ==> s.pcs[t].i < |s.status| && InItsCall(s.pcs[t])
  }

  /** The next access of a thread: its new place, and the instance's new status, count and registration. */
  datatype Effect = Effect(pc: Pc, status: Status, made: nat, registers: bool)

  function Move(pc: Pc, leaky: bool, status: Status, made: nat, spurious: bool): Effect
    requires !pc.Idle? && InItsCall(pc)
  {
    match pc
    case FastPath(i) =>
      Effect(if status == STATE_CREATED then GotPointer(i) else Claiming(i, Atomics.Start(CLAIM)), status, made, false)
    case Claiming(i, cas) =>
      var a := Atomics.Move(status, cas, spurious);
      Effect(if !a.pc.Returning? then Claiming(i, a.pc) else if a.pc.result == STATE_EMPTY then New(i) else Spinning(i),
             a.cell, made, false)
    case Spinning(i) => Effect(if status == STATE_CREATED then GotPointer(i) else Spinning(i), status, made, false)
    case New(i) => Effect(Storing(i), status, made + 1, false)
    case Storing(i) => Effect(if leaky then GotPointer(i) else Registering(i), STATE_CREATED, made, false)
    case Registering(i) => Effect(GotPointer(i), status, made, true)
    case GotPointer(i) => Effect(Idle, status, made, false)
  }

  /** Claiming an instance is atomic: a thread goes on claiming, or the instance was empty and is now its to create. */
  lemma ClaimIsAtomic(pc: Pc, leaky: bool, status: Status, made: nat, spurious: bool)
    requires pc.Claiming? && InItsCall(pc)
    ensures var e := Move(pc, leaky, status, made, spurious);
            && InItsCall(e.pc) && e.pc.i == pc.i && e.made == made && !e.registers
            && if e.pc.New? then status == STATE_EMPTY && e.status == STATE_CREATING
               else e.status == status && (e.pc.Claiming? || (e.pc.Spinning? && status != STATE_EMPTY))
  {
    Atomics.MoveIsAtomic(status, pc.cas, spurious);
  }

  function Step(s: State, c: Choice): State
    requires Typed(s) && Enabled(s, c)
  {
    match c
    case Begin(t, i) => s.(pcs := s.pcs[t := FastPath(i)])
    case Continue(t, spurious) =>
      var i := s.pcs[t].i;
      var e := Move(s.pcs[t], s.leaky[i], s.status[i], s.made[i], spurious);
      State(s.leaky, s.status[i := e.status], s.made[i := e.made], if e.registers then s.stack + [i] else s.stack,
            s.pcs[t := e.pc])
  }

  /** What NeedsInstance returns to a thread by a step, if the step makes it return. */
  datatype Answer = Answer(thread: nat, i: nat, needed: bool)

  function AnswerOf(s: State, c: Choice): seq<Answer>
    requires Typed(s) && Enabled(s, c)
  {
    if c.Begin? then []
    else
      var pc, next := s.pcs[c.thread], Step(s, c).pcs[c.thread];
      if next.New? then [Answer(c.thread, pc.i, true)]
      else if pc.Spinning? && next.GotPointer? then [Answer(c.thread, pc.i, false)]
      else []
  }

  // ---------------------------------------------------------------------------------------
  // The invariant
  // ---------------------------------------------------------------------------------------

  /** The thread that has been told to create instance i, until it is done. */
  predicate Owns(pc: Pc, i: nat) {
    (pc.New? || pc.Storing? || pc.Registering?) && pc.i == i
  }

  function Owners(pcs: seq<Pc>, i: nat): nat {
    if pcs == [] then 0
    else
      var n := |pcs| - 1;
      Owners(pcs[..n], i) + if Owns(pcs[n], i) then 1 else 0
  }

  function Occurrences(stack: seq<nat>, i: nat): nat {
    if stack == [] then 0
    else
      var n := |stack| - 1;
      Occurrences(stack[..n], i) + if stack[n] == i then 1 else 0
  }

  /** How often NeedsInstance has returned true for instance i. */
  function Creators(answers: seq<Answer>, i: nat): nat {
    if answers == [] then 0
    else
      var n := |answers| - 1;
      Creators(answers[..n], i) + if answers[n].i == i && answers[n].needed then 1 else 0
  }

  /** What holds of an instance, from its counts. */
  predicate InstanceOk(leaky: bool, status: Status, made: nat, owners: nat, registered: nat, creators: nat) {
    if status == STATE_EMPTY then made == 0 && owners == 0 && registered == 0 && creators == 0
    else if status == STATE_CREATING then made <= 1 && owners == 1 && registered == 0 && creators == 1
    else status == STATE_CREATED && made == 1 && owners + registered == (if leaky then 0 else 1) && creators == 1
  }

  /** What holds of a thread at work on an instance. */
  predicate ThreadOk(pc: Pc, status: Status, made: nat) {
    match pc
    case New(_) => status == STATE_CREATING && made == 0
    case Storing(_) => status == STATE_CREATING && made == 1
    case Registering(_) => status == STATE_CREATED
    case GotPointer(_) => status == STATE_CREATED
    case Spinning(_) => status != STATE_EMPTY
    case _ => true
  }

  ghost predicate InstancesOk(s: State, answers: seq<Answer>)
    requires Typed(s)
  {
    forall i {:trigger s.status[i]} :: 0 <= i < |s.status| ==> InstanceHolds(s, answers, i)
  }

  predicate InstanceHolds(s: State, answers: seq<Answer>, i: nat)
    requires Typed(s) && i < |s.status|
  {
    InstanceOk(s.leaky[i], s.status[i], s.made[i], Owners(s.pcs, i), Occurrences(s.stack, i), Creators(answers, i))
  }

  predicate ThreadHolds(s: State, t: nat)
    requires Typed(s) && t < |s.pcs|
  {
    s.pcs[t].Idle? || ThreadOk(s.pcs[t], s.status[s.pcs[t].i], s.made[s.pcs[t].i])
  }

  ghost predicate ThreadsOk(s: State)
    requires Typed(s)
  {
    forall t {:trigger s.pcs[t]} :: 0 <= t < |s.pcs| ==> ThreadHolds(s, t)
  }

  /** Whoever was told that no instance is needed found it created. */
  ghost predicate AnswersOk(s: State, answers: seq<Answer>)
    requires Typed(s)
  {
    forall k {:trigger answers[k]} :: 0 <= k < |answers| ==>
      answers[k].i < |s.status| && (!answers[k].needed ==> s.status[answers[k].i] == STATE_CREATED)
  }

  ghost predicate Inv(s: State, answers: seq<Answer>) {
    Typed(s) && InstancesOk(s, answers) && ThreadsOk(s) && AnswersOk(s, answers)
  }

  // ---------------------------------------------------------------------------------------
  // Counting
  // ---------------------------------------------------------------------------------------

  lemma {:induction false} OwnersUpdate(pcs: seq<Pc>, t: nat, pc: Pc, i: nat)
    requires t < |pcs|
    ensures Owners(pcs[t := pc], i)
         == Owners(pcs, i) - (if Owns(pcs[t], i) then 1 else 0) + (if Owns(pc, i) then 1 else 0)
  {
    var n := |pcs| - 1;
    if t == n {
      assert pcs[t := pc][..n] == pcs[..n];
    } else {
      OwnersUpdate(pcs[..n], t, pc, i);
      assert pcs[t := pc][..n] == pcs[..n][t := pc];
    }
  }

  lemma {:induction false} OwnerCounts(pcs: seq<Pc>, t: nat, i: nat)
    requires t < |pcs| && Owns(pcs[t], i)
    ensures Owners(pcs, i) >= 1
  {
    var n := |pcs| - 1;
    if t < n {
      OwnerCounts(pcs[..n], t, i);
    }
  }

  lemma {:induction false} TwoOwners(pcs: seq<Pc>, t: nat, u: nat, i: nat)
    requires t < u < |pcs| && Owns(pcs[t], i) && Owns(pcs[u], i)
    ensures Owners(pcs, i) >= 2
  {
    var n := |pcs| - 1;
    if u < n {
      TwoOwners(pcs[..n], t, u, i);
    } else {
      OwnerCounts(pcs[..n], t, i);
    }
  }

  lemma OccurrencesSnoc(stack: seq<nat>, j: nat, i: nat)
    ensures Occurrences(stack + [j], i) == Occurrences(stack, i) + if j == i then 1 else 0
  {
    assert (stack + [j])[..|stack|] == stack;
  }

  lemma CreatorsSnoc(answers: seq<Answer>, a: Answer, i: nat)
    ensures Creators(answers + [a], i) == Creators(answers, i) + if a.i == i && a.needed then 1 else 0
  {
    assert (answers + [a])[..|answers|] == answers;
  }

  lemma CreatorsStep(s: State, answers: seq<Answer>, c: Choice, i: nat)
    requires Typed(s) && Enabled(s, c)
    ensures Creators(answers + AnswerOf(s, c), i)
         == Creators(answers, i)
            + if AnswerOf(s, c) != [] && AnswerOf(s, c)[0].i == i && AnswerOf(s, c)[0].needed then 1 else 0
  {
    var a := AnswerOf(s, c);
    if a == [] {
      assert answers + a == answers;
    } else {
      assert a == [a[0]];
      CreatorsSnoc(answers, a[0], i);
    }
  }

  // ---------------------------------------------------------------------------------------
  // Every step keeps the invariant
  // ---------------------------------------------------------------------------------------

  lemma MoveInItsCall(pc: Pc, leaky: bool, status: Status, made: nat, spurious: bool)
    requires !pc.Idle? && InItsCall(pc)
    ensures var next := Move(pc, leaky, status, made, spurious).pc;
            next.Idle? || (next.i == pc.i && InItsCall(next))
  {
    if pc.Claiming? {
      ClaimIsAtomic(pc, leaky, status, made, spurious);
    }
  }

  lemma TypedStep(s: State, c: Choice)
    requires Typed(s) && Enabled(s, c)
    ensures Typed(Step(s, c)) && |Step(s, c).pcs| == |s.pcs|
    ensures Step(s, c).leaky == s.leaky && |Step(s, c).status| == |s.status|
  {
    var next := Step(s, c);
    if c.Continue? {
      MoveInItsCall(s.pcs[c.thread], s.leaky[s.pcs[c.thread].i], s.status[s.pcs[c.thread].i],
                    s.made[s.pcs[c.thread].i], c.spurious);
    }
    forall t | 0 <= t < |next.pcs| && !next.pcs[t].Idle?
      ensures next.pcs[t].i < |next.status| && InItsCall(next.pcs[t])
    {
      assert !s.pcs[t].Idle? ==> s.pcs[t].i < |s.status| && InItsCall(s.pcs[t]);
    }
  }

  function One(b: bool): nat {
    if b then 1 else 0
  }

  /** What a thread's step does to the counts of the instance it works on. */
  lemma CountsMove(pc: Pc, leaky: bool, status: Status, made: nat, spurious: bool,
                   owners: nat, registered: nat, creators: nat)
    requires !pc.Idle? && InItsCall(pc)
    requires InstanceOk(leaky, status, made, owners, registered, creators) && ThreadOk(pc, status, made)
    requires Owns(pc, pc.i) ==> owners >= 1
    ensures var e := Move(pc, leaky, status, made, spurious);
            InstanceOk(leaky, e.status, e.made, owners - One(Owns(pc, pc.i)) + One(Owns(e.pc, pc.i)),
                       registered + One(e.registers), creators + One(e.pc.New?))
  {
    if pc.Claiming? {
      ClaimIsAtomic(pc, leaky, status, made, spurious);
    }
  }

  /** An instance that the step is not about. */
  lemma OtherCounts(s: State, c: Choice, i: nat)
    requires Typed(s) && Enabled(s, c) && i < |s.status|
    requires c.Continue? ==> s.pcs[c.thread].i != i
    ensures Owners(Step(s, c).pcs, i) == Owners(s.pcs, i)
    ensures Occurrences(Step(s, c).stack, i) == Occurrences(s.stack, i)
    ensures Step(s, c).status[i] == s.status[i] && Step(s, c).made[i] == s.made[i]
  {
    OwnersUpdate(s.pcs, c.thread, Step(s, c).pcs[c.thread], i);
    if c.Continue? {
      OccurrencesSnoc(s.stack, s.pcs[c.thread].i, i);
    }
  }

  lemma OtherInstance(s: State, answers: seq<Answer>, c: Choice, i: nat)
    requires Inv(s, answers) && Enabled(s, c) && i < |s.status| && Typed(Step(s, c))
    requires c.Continue? ==> s.pcs[c.thread].i != i
    ensures InstanceHolds(Step(s, c), answers + AnswerOf(s, c), i)
  {
    assert InstanceHolds(s, answers, i);
    CreatorsStep(s, answers, c, i);
    OtherCounts(s, c, i);
  }

  /** The instance that a thread works on. */
  lemma OwnCounts(s: State, c: Choice)
    requires Typed(s) && Enabled(s, c) && c.Continue?
    ensures var t, i, next := c.thread, s.pcs[c.thread].i, Step(s, c);
            var e := Move(s.pcs[t], s.leaky[i], s.status[i], s.made[i], c.spurious);
            && next.pcs[t] == e.pc && next.status[i] == e.status && next.made[i] == e.made
            && Owners(next.pcs, i) == Owners(s.pcs, i) - One(Owns(s.pcs[t], i)) + One(Owns(e.pc, i))
            && Occurrences(next.stack, i) == Occurrences(s.stack, i) + One(e.registers)
  {
    var t, i := c.thread, s.pcs[c.thread].i;
    OwnersUpdate(s.pcs, t, Step(s, c).pcs[t], i);
    OccurrencesSnoc(s.stack, i, i);
  }

  lemma OwnInstance(s: State, answers: seq<Answer>, c: Choice)
    requires Inv(s, answers) && Enabled(s, c) && c.Continue? && Typed(Step(s, c))
    ensures InstanceHolds(Step(s, c), answers + AnswerOf(s, c), s.pcs[c.thread].i)
  {
    var t, pc, i := c.thread, s.pcs[c.thread], s.pcs[c.thread].i;
    assert InstanceHolds(s, answers, i) && ThreadHolds(s, t);
    if Owns(pc, i) {
      OwnerCounts(s.pcs, t, i);
    }
    CountsMove(pc, s.leaky[i], s.status[i], s.made[i], c.spurious, Owners(s.pcs, i), Occurrences(s.stack, i),
               Creators(answers, i));
    OwnCounts(s, c);
    CreatorsStep(s, answers, c, i);
  }

  lemma ThreadStep(s: State, answers: seq<Answer>, c: Choice, u: nat)
    requires Inv(s, answers) && Enabled(s, c) && u < |s.pcs| && Typed(Step(s, c))
    ensures ThreadHolds(Step(s, c), u)
  {
    var t := c.thread;
    assert ThreadHolds(s, t) && ThreadHolds(s, u);
    if u != t && c.Continue? && !s.pcs[u].Idle? && Owns(s.pcs[u], s.pcs[t].i) {
      var i := s.pcs[t].i;
      assert InstanceHolds(s, answers, i);
      OwnerCounts(s.pcs, u, i);
      if Owns(s.pcs[t], i) {
        TwoOwners(s.pcs, if t < u then t else u, if t < u then u else t, i);
      }
    }
  }

  predicate Moves(before: Status, after: Status) {
    || after == before
    || (before == STATE_EMPTY && after == STATE_CREATING)
    || (before == STATE_CREATING && after == STATE_CREATED)
  }

  /** The state of an instance only moves from empty to being created to created. */
  lemma StatusMoves(s: State, answers: seq<Answer>, c: Choice, i: nat)
    requires Inv(s, answers) && Enabled(s, c) && i < |s.status|
    ensures |Step(s, c).status| == |s.status| && Moves(s.status[i], Step(s, c).status[i])
  {
    assert ThreadHolds(s, c.thread);
  }

  lemma InvStep(s: State, answers: seq<Answer>, c: Choice)
    requires Inv(s, answers) && Enabled(s, c)
    ensures Inv(Step(s, c), answers + AnswerOf(s, c))
  {
    var next, all := Step(s, c), answers + AnswerOf(s, c);
    TypedStep(s, c);
    forall i | 0 <= i < |next.status| ensures InstanceHolds(next, all, i) {
      if c.Continue? && s.pcs[c.thread].i == i {
        OwnInstance(s, answers, c);
      } else {
        OtherInstance(s, answers, c, i);
      }
    }
    forall t | 0 <= t < |next.pcs| ensures ThreadHolds(next, t) {
      ThreadStep(s, answers, c, t);
    }
    forall k | 0 <= k < |all|
      ensures all[k].i < |next.status| && (!all[k].needed ==> next.status[all[k].i] == STATE_CREATED)
    {
      if k < |answers| {
        assert all[k] == answers[k];
        StatusMoves(s, answers, c, answers[k].i);
      } else {
        StatusMoves(s, answers, c, all[k].i);
      }
    }
  }

  // ---------------------------------------------------------------------------------------
  // Runs
  // ---------------------------------------------------------------------------------------

  /** Before anything has happened. */
  predicate Fresh(s: State) {
    && Typed(s) && s.stack == []
    && (forall i :: 0 <= i < |s.status| ==> s.status[i] == STATE_EMPTY && s.made[i] == 0)
    && (forall t :: 0 <= t < |s.pcs| ==> s.pcs[t].Idle?)
  }

  datatype Outcome = Outcome(state: State, answers: seq<Answer>)

  /** What a run leads to; a choice that is not enabled changes nothing. */
  function After(start: State, run: seq<Choice>): Outcome {
    if run == [] then Outcome(start, [])
    else
      var n := |run| - 1;
      var o := After(start, run[..n]);
      if Typed(o.state) && Enabled(o.state, run[n]) then
        Outcome(Step(o.state, run[n]), o.answers + AnswerOf(o.state, run[n]))
      else
        o
  }

  lemma {:induction false} NoOwners(pcs: seq<Pc>, i: nat)
    requires forall t :: 0 <= t < |pcs| ==> pcs[t].Idle? || pcs[t].GotPointer?
    ensures Owners(pcs, i) == 0
  {
    if pcs != [] {
      NoOwners(pcs[..|pcs| - 1], i);
    }
  }

  lemma {:induction false} RunKeeps(start: State, run: seq<Choice>)
    requires Fresh(start)
    ensures Inv(After(start, run).state, After(start, run).answers)
    ensures |After(start, run).state.pcs| == |start.pcs| && |After(start, run).state.status| == |start.status|
    ensures After(start, run).state.leaky == start.leaky
  {
    if run == [] {
      forall i | 0 <= i < |start.status| ensures InstanceHolds(start, [], i) {
        NoOwners(start.pcs, i);
      }
      forall t | 0 <= t < |start.pcs| ensures ThreadHolds(start, t) {
        assert start.pcs[t].Idle?;
      }
    } else {
      var n := |run| - 1;
      RunKeeps(start, run[..n]);
      var o := After(start, run[..n]);
      if Enabled(o.state, run[n]) {
        InvStep(o.state, o.answers, run[n]);
        TypedStep(o.state, run[n]);
      }
    }
  }

  /**
   Over every run, NeedsInstance returns true at most once for an instance, and exactly once when the
   instance is being or has been created; it returns false only when the instance has been created;
   and Traits::New is called at most once.
   */
  lemma CreatedOnce(start: State, run: seq<Choice>, i: nat)
    requires Fresh(start) && i < |start.status|
    ensures var o := After(start, run);
            && |o.state.status| == |o.state.made| == |start.status|
            && Creators(o.answers, i) == (if o.state.status[i] == STATE_EMPTY then 0 else 1)
            && o.state.made[i] <= 1
            && (o.state.status[i] == STATE_CREATED ==> o.state.made[i] == 1)
            && (forall k :: 0 <= k < |o.answers| && o.answers[k].i == i && !o.answers[k].needed ==>
                  o.state.status[i] == STATE_CREATED)
  {
    RunKeeps(start, run);
    var o := After(start, run);
    assert InstanceHolds(o.state, o.answers, i);
  }

  /** Whoever gets a pointer gets it to an instance that has been created. */
  lemma PointersAreCreated(start: State, run: seq<Choice>, t: nat)
    requires Fresh(start) && t < |start.pcs|
    ensures var s := After(start, run).state;
            && |s.pcs| == |start.pcs|
            && (s.pcs[t].GotPointer? ==> s.pcs[t].i < |s.status| && s.status[s.pcs[t].i] == STATE_CREATED)
  {
    RunKeeps(start, run);
    assert ThreadHolds(After(start, run).state, t);
  }

  // ---------------------------------------------------------------------------------------
  // Nobody waits for ever
  // ---------------------------------------------------------------------------------------

  /** Up to n steps of a thread that nobody disturbs, on its way to the pointer. */
  function Alone(e: Effect, leaky: bool, n: nat): Effect
    decreases n
  {
    if n == 0 || e.pc.Idle? || e.pc.GotPointer? || !InItsCall(e.pc) then e
    else Alone(Move(e.pc, leaky, e.status, e.made, false), leaky, n - 1)
  }

  /** How many steps it takes at most. */
  function Steps(pc: Pc, status: Status): nat {
    match pc
    case FastPath(_) => 7
    case Claiming(_, cas) => 3 + Atomics.Accesses(status, cas)
    case Spinning(_) => 1
    case New(_) => 3
    case Storing(_) => 2
    case Registering(_) => 1
    case _ => 0
  }

  /** A thread that nobody disturbs gets its pointer, unless it has to wait for another to create the instance. */
  lemma {:induction false} AloneGetsPointer(pc: Pc, leaky: bool, status: Status, made: nat, registers: bool, n: nat)
    requires !pc.Idle? && InItsCall(pc) && ThreadOk(pc, status, made) && Steps(pc, status) <= n
    requires status in {STATE_EMPTY, STATE_CREATING, STATE_CREATED} && (status == STATE_EMPTY ==> made == 0)
    requires status == STATE_CREATING ==> Owns(pc, pc.i)
    ensures Steps(pc, status) <= 7
    ensures var e := Alone(Effect(pc, status, made, registers), leaky, n);
            e.pc == GotPointer(pc.i) && e.status == STATE_CREATED
    decreases n
  {
    if !pc.GotPointer? {
      var e := Move(pc, leaky, status, made, false);
      MoveInItsCall(pc, leaky, status, made, false);
      if pc.Claiming? {
        Atomics.MoveIsAtomic(status, pc.cas, false);
        Atomics.OneAccessLess(status, pc.cas);
      }
      AloneGetsPointer(e.pc, leaky, e.status, e.made, e.registers, n - 1);
    }
  }

  /** Thread t, undisturbed, gets its pointer. */
  predicate GetsPointer(s: State, t: nat)
    requires Typed(s) && t < |s.pcs| && !s.pcs[t].Idle?
  {
    var i := s.pcs[t].i;
    Alone(Effect(s.pcs[t], s.status[i], s.made[i], false), s.leaky[i], 7).pc == GotPointer(i)
  }

  lemma {:induction false} OwnerExists(pcs: seq<Pc>, i: nat) returns (u: nat)
    requires Owners(pcs, i) >= 1
    ensures u < |pcs| && Owns(pcs[u], i)
  {
    var n := |pcs| - 1;
    if Owns(pcs[n], i) {
      u := n;
    } else {
      u := OwnerExists(pcs[..n], i);
    }
  }

  /**
   At every moment of every run, a thread in Pointer() gets its pointer when it is left alone; or it is held up by a
   thread that is creating the instance, and that one gets its pointer when it is left alone.
   */
  lemma NobodyWaitsForEver(start: State, run: seq<Choice>, t: nat) returns (u: nat)
    requires Fresh(start) && t < |start.pcs|
    requires t < |After(start, run).state.pcs| && !After(start, run).state.pcs[t].Idle?
    ensures var s := After(start, run).state;
            && Typed(s) && u < |s.pcs| && !s.pcs[u].Idle? && s.pcs[u].i == s.pcs[t].i && GetsPointer(s, u)
            && (u == t || Owns(s.pcs[u], s.pcs[t].i))
  {
    RunKeeps(start, run);
    var o := After(start, run);
    var s, i := o.state, o.state.pcs[t].i;
    assert InstanceHolds(s, o.answers, i);
    u := t;
    if s.status[i] == STATE_CREATING {
      u := OwnerExists(s.pcs, i);
    }
    assert ThreadHolds(s, u);
    assert InItsCall(s.pcs[u]);
    StepsAtMostSeven(s.pcs[u], s.status[i]);
    AloneGetsPointer(s.pcs[u], s.leaky[i], s.status[i], s.made[i], false, 7);
  }

  lemma StepsAtMostSeven(pc: Pc, status: Status)
    requires InItsCall(pc)
    ensures Steps(pc, status) <= 7
  {
    if pc.Claiming? {
      Atomics.OneAccessLess(status, pc.cas);
    }
  }

  /** When all calls have returned, the exit manager has each created instance with a destructor, once. */
  lemma RegisteredOnce(start: State, run: seq<Choice>, i: nat)
    requires Fresh(start) && i < |start.status|
    requires forall t :: 0 <= t < |After(start, run).state.pcs| ==> After(start, run).state.pcs[t].Idle?
    ensures var s := After(start, run).state;
            && |s.status| == |start.status|
            && Occurrences(s.stack, i) == if s.status[i] == STATE_CREATED && !start.leaky[i] then 1 else 0
  {
    RunKeeps(start, run);
    var o := After(start, run);
    NoOwners(o.state.pcs, i);
    assert InstanceHolds(o.state, o.answers, i);
  }

  /** When all calls have returned, an instance is either empty or created. */
  lemma NoneHalfMade(start: State, run: seq<Choice>, i: nat)
    requires Fresh(start) && i < |start.status|
    requires forall t :: 0 <= t < |After(start, run).state.pcs| ==> After(start, run).state.pcs[t].Idle?
    ensures var s := After(start, run).state;
            |s.status| == |start.status| && (s.status[i] == STATE_EMPTY || s.status[i] == STATE_CREATED)
  {
    RunKeeps(start, run);
    var o := After(start, run);
    NoOwners(o.state.pcs, i);
    assert InstanceHolds(o.state, o.answers, i);
  }
}
