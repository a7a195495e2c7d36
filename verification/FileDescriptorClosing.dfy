/**
 When the final loop of a shuffle finds every descriptor that it closes open, whatever Duplicate hands out.  Sources
 need not be open here: one that is not can be handed out, and be closed by the very arc that was to read it.
 */
module FileDescriptorClosing {
  import opened Wrappers
  import opened FileDescriptorArcs
  import opened FileDescriptorReuse
  import opened FileDescriptorRuns

  /**
   No source that could be handed out is to be closed, if an arc that needs a duplicate stands before one that reads
   it or is that one.
   */
  ghost predicate SafeToClose(orig: seq<InjectionArc>, before: Table, reserved: set<int>) {
    forall i, k :: 0 <= i <= k < |orig| && Overwrites(orig, i) && Takeable(orig[k].source, before, reserved)
                   ==> !CloseAsked(orig, orig[k].source)
  }

  /** One of the arcs up to i needs a duplicate. */
  ghost predicate NeedsDuplicate(orig: seq<InjectionArc>, i: int)
    requires i <= |orig|
  {
    exists p :: 0 <= p < i && Overwrites(orig, p)
  }

  /** What an arc to come may still close was to be closed, has not been, and is no temporary. */
  ghost predicate ClosesRightly(orig: seq<InjectionArc>, arcs: seq<InjectionArc>, k: nat,
                                temps: set<int>, closes: set<int>)
    requires k < |orig| == |arcs|
  {
    arcs[k].close ==>
      arcs[k].source !in temps && arcs[k].source !in closes && CloseAsked(orig, arcs[k].source)
  }

  ghost predicate AllCloseRightly(orig: seq<InjectionArc>, i: nat, arcs: seq<InjectionArc>,
                                  temps: set<int>, closes: set<int>)
    requires i <= |orig| == |arcs|
  {
    forall k {:trigger ClosesRightly(orig, arcs, k, temps, closes)} ::
      i <= k < |orig| ==> ClosesRightly(orig, arcs, k, temps, closes)
  }

  /** Temporaries are open, and what was open before still is unless it has been closed. */
  ghost predicate StaysOpen(before: Table, table: Table, temps: set<int>, closes: set<int>) {
    && (forall t :: t in temps ==> t in table)
    && (forall fd :: fd in before && fd !in closes ==> fd in table)
  }

  ghost predicate SafeInv(orig: seq<InjectionArc>, before: Table, i: nat, c: Config)
    requires i <= |orig| == |c.arcs|
  {
    && AllCloseRightly(orig, i, c.arcs, TempSet(c.trace), CloseSet(c.trace))
    && StaysOpen(before, c.table, TempSet(c.trace), CloseSet(c.trace))
    && Distinct(Temporaries(c.trace))
    && (TempSet(c.trace) != {} ==> NeedsDuplicate(orig, i))
  }

  lemma HitNeedsDuplicate(orig: seq<InjectionArc>, i: nat, c: Config)
    requires i < |orig| == |c.arcs| && forall k :: 0 <= k < |orig| ==> RunSource(orig, c, k)
    requires TempSet(c.trace) != {} ==> NeedsDuplicate(orig, i)
    requires Hit(c.arcs, i, |c.arcs|)
    ensures NeedsDuplicate(orig, i + 1)
  {
    if TempSet(c.trace) == {} {
      var j :| i < j < |c.arcs| && c.arcs[j].source == c.arcs[i].dest;
      assert RunSource(orig, c, j) && RunSource(orig, c, i);
      assert Overwrites(orig, i);
    }
  }

  /** What is handed out is not to be closed by an arc to come that reads it already. */
  lemma TakenNotClosed(orig: seq<InjectionArc>, before: Table, reserved: set<int>, i: nat, arcs: seq<InjectionArc>,
                       table: Table, temps: set<int>, closes: set<int>, temp: int, k: nat)
    requires SafeToClose(orig, before, reserved) && i <= k < |orig| == |arcs|
    requires AllCloseRightly(orig, i, arcs, temps, closes) && StaysOpen(before, table, temps, closes)
    requires NeedsDuplicate(orig, i + 1) && (arcs[k].source == orig[k].source || arcs[k].source in temps)
    requires 0 <= temp && temp !in table && temp !in reserved
    ensures arcs[k].source == temp ==> !arcs[k].close
  {
    assert ClosesRightly(orig, arcs, k, temps, closes);
    var p :| 0 <= p < i + 1 && Overwrites(orig, p);
    assert Takeable(temp, before, reserved) || temp in closes;
  }

  lemma RightlyStep(orig: seq<InjectionArc>, i: nat, arcs: seq<InjectionArc>, temp: int, now: seq<InjectionArc>,
                    temps: set<int>, closes: set<int>)
    requires i < |orig| == |arcs| && AllCloseRightly(orig, i, arcs, temps, closes)
    requires PassedUpTo(arcs, i, temp, |arcs|, now)
    requires Hit(arcs, i, |arcs|) ==> forall k :: i <= k < |arcs| && arcs[k].source == temp ==> !arcs[k].close
    ensures AllCloseRightly(orig, i + 1, now, WithTemp(arcs, i, temps, temp), WithClose(arcs, i, now, closes))
  {
    var temps', closes' := WithTemp(arcs, i, temps, temp), WithClose(arcs, i, now, closes);
    assert ClosesRightly(orig, arcs, i, temps, closes);
    forall k | i < k < |arcs| ensures ClosesRightly(orig, now, k, temps', closes') {
      assert ClosesRightly(orig, arcs, k, temps, closes);
      assert now[k] == Passed(arcs, i, temp, k);
      assert now[i].close ==> !Claims(arcs, i, k);
    }
  }

  lemma OpenStep(orig: seq<InjectionArc>, before: Table, i: nat, arcs: seq<InjectionArc>, temp: int,
                 now: seq<InjectionArc>, table: Table, table3: Table, temps: set<int>, closes: set<int>)
    requires i < |orig| == |arcs| == |now|
    requires now[i].close ==> arcs[i].source !in WithTemp(arcs, i, temps, temp)
    requires Hit(arcs, i, |arcs|) ==> arcs[i].dest in table
    requires Carried(arcs, i, now, AfterDuplicate(arcs, i, temp, table), table3)
    requires StaysOpen(before, table, temps, closes)
    ensures StaysOpen(before, table3, WithTemp(arcs, i, temps, temp), WithClose(arcs, i, now, closes))
  {
  }

  /** What the temporary of arc i, if it needs one, is not. */
  lemma BeforeSafeStep(orig: seq<InjectionArc>, before: Table, c: Config, i: nat, temp: int, reserved: set<int>)
    requires SafeToClose(orig, before, reserved) && i < |orig| == |c.arcs|
    requires forall k :: 0 <= k < |orig| ==> RunSource(orig, c, k)
    requires SafeInv(orig, before, i, c) && CanStep(c, i, temp, reserved)
    ensures Hit(c.arcs, i, |c.arcs|) ==>
              && (forall k :: i <= k < |orig| ==> c.arcs[k].source == temp ==> !c.arcs[k].close)
              && temp !in Temporaries(c.trace) && NeedsDuplicate(orig, i + 1)
    ensures c.arcs[i].close ==> c.arcs[i].source !in WithTemp(c.arcs, i, TempSet(c.trace), temp)
  {
    var n, temps, closes := |c.arcs|, TempSet(c.trace), CloseSet(c.trace);
    assert ClosesRightly(orig, c.arcs, i, temps, closes);
    if Hit(c.arcs, i, n) {
      HitNeedsDuplicate(orig, i, c);
      forall k | i <= k < n ensures c.arcs[k].source == temp ==> !c.arcs[k].close {
        assert RunSource(orig, c, k);
        TakenNotClosed(orig, before, reserved, i, c.arcs, c.table, temps, closes, temp, k);
      }
      SetsOfTrace(c.trace, temp);
    }
  }

  lemma SafeStep(orig: seq<InjectionArc>, before: Table, c: Config, i: nat, temp: int, reserved: set<int>)
    requires SafeToClose(orig, before, reserved) && i < |orig| == |c.arcs|
    requires forall k :: 0 <= k < |orig| ==> RunSource(orig, c, k)
    requires SafeInv(orig, before, i, c) && CanStep(c, i, temp, reserved)
    ensures SafeInv(orig, before, i + 1, Next(c, i, temp))
  {
    var n, temps, closes := |c.arcs|, TempSet(c.trace), CloseSet(c.trace);
    var now := Inner(c.arcs, i, temp, n);
    BeforeSafeStep(orig, before, c, i, temp, reserved);
    InnerIsPassed(c.arcs, i, temp, n);
    RightlyStep(orig, i, c.arcs, temp, now, temps, closes);
    OpenStep(orig, before, i, c.arcs, temp, now, c.table, Next(c, i, temp).table, temps, closes);
    SafeTrace(orig, c.arcs, i, temp, now, c.trace);
  }

  lemma SafeTrace(orig: seq<InjectionArc>, arcs: seq<InjectionArc>, i: nat, temp: int, now: seq<InjectionArc>,
                  trace: seq<Action>)
    requires i < |orig| == |arcs| == |now| && Distinct(Temporaries(trace))
    requires TempSet(trace) != {} ==> NeedsDuplicate(orig, i)
    requires Hit(arcs, i, |arcs|) ==> temp !in Temporaries(trace) && NeedsDuplicate(orig, i + 1)
    ensures var trace' := Extended(trace, arcs, i, temp, now[i].close);
            && TempSet(trace') == WithTemp(arcs, i, TempSet(trace), temp)
            && CloseSet(trace') == WithClose(arcs, i, now, CloseSet(trace))
            && Distinct(Temporaries(trace')) && (TempSet(trace') != {} ==> NeedsDuplicate(orig, i + 1))
  {
    ExtendedSets(arcs, i, temp, now[i].close, trace);
    assert NeedsDuplicate(orig, i) ==> NeedsDuplicate(orig, i + 1);
    if Hit(arcs, i, |arcs|) {
      DistinctSnoc(Temporaries(trace), temp);
    }
  }

  lemma {:induction false} RunSafe(orig: seq<InjectionArc>, before: Table, reserved: set<int>, taken: seq<int>)
    requires SafeToClose(orig, before, reserved)
    requires |taken| <= |orig| && Legal(orig, before, reserved, taken)
    ensures SafeInv(orig, before, |taken|, StateAfter(orig, before, taken))
  {
    if taken == [] {
      forall k | 0 <= k < |orig| ensures ClosesRightly(orig, orig, k, {}, {}) {
      }
    } else {
      var n := |taken| - 1;
      RunSafe(orig, before, reserved, taken[..n]);
      forall k | 0 <= k < |orig| ensures RunSource(orig, StateAfter(orig, before, taken[..n]), k) {
        RunSources(orig, before, taken[..n], k);
      }
      SafeStep(orig, before, StateAfter(orig, before, taken[..n]), n, taken[n], reserved);
    }
  }

  /** How many of `fds`, closed one after the other, are not open when their turn comes. */
  ghost function Failing(table: Table, fds: seq<int>): nat {
    if fds == [] then 0
    else
      var rest, fd := fds[..|fds| - 1], fds[|fds| - 1];
      Failing(table, rest) + if fd in table && fd !in Elements(rest) then 0 else 1
  }

  lemma {:induction false} NoneFails(table: Table, fds: seq<int>)
    ensures Failing(table, fds) == 0 <==> Distinct(fds) && forall fd :: fd in fds ==> fd in table
  {
    if fds != [] {
      var rest, fd := fds[..|fds| - 1], fds[|fds| - 1];
      assert fds == rest + [fd];
      NoneFails(table, rest);
    }
  }

  /** The final loop closes descriptors that are open, each once. */
  ghost predicate ClosesWell(orig: seq<InjectionArc>, before: Table, taken: seq<int>)
    requires |taken| <= |orig|
  {
    && Distinct(Extras(orig, before, taken))
    && forall fd :: fd in Extras(orig, before, taken) ==> fd in StateAfter(orig, before, taken).table
  }

  /** Whatever Duplicate hands out, the final loop closes nothing that is not open. */
  lemma FinalLoopIsSafe(orig: seq<InjectionArc>, before: Table, reserved: set<int>, taken: seq<int>)
    requires SafeToClose(orig, before, reserved) && Complete(orig, before, reserved, taken)
    ensures ClosesWell(orig, before, taken)
  {
    var c := StateAfter(orig, before, taken);
    RunSafe(orig, before, reserved, taken);
    forall fd | fd in Extras(orig, before, taken) ensures fd in c.table {
      SetsOfTrace(c.trace, fd);
    }
  }

  /** Both kinds of maps whose outcome is known in full are safe. */
  lemma KnownAreSafe(orig: seq<InjectionArc>, before: Table, reserved: set<int>)
    requires AllReserved(orig, reserved) || AllSourcesOpen(orig, before)
    ensures SafeToClose(orig, before, reserved)
  {
  }

  // ---------------------------------------------------------------------------------------
  // Sources that are taken
  // ---------------------------------------------------------------------------------------

  /** Taking the temporaries of a run one by one. */
  lemma OneStep(orig: seq<InjectionArc>, before: Table, taken: seq<int>, temp: int, c: Config, d: Config)
    requires |taken| < |orig| && Legal(orig, before, {}, taken) && StateAfter(orig, before, taken) == c
    requires CanStep(c, |taken|, temp, {}) && Next(c, |taken|, temp) == d
    ensures Legal(orig, before, {}, taken + [temp]) && StateAfter(orig, before, taken + [temp]) == d
  {
    StateSnoc(orig, before, {}, taken, temp);
  }

  lemma OwnFirst(b: OpenFile)
    ensures var c := Config([InjectionArc(7, 1, true), InjectionArc(1, 0, false)], map[1 := b], []);
            && CanStep(c, 0, 7, {})
            && Next(c, 0, 7) == Config([InjectionArc(7, 1, false), InjectionArc(7, 0, true)], map[1 := b, 7 := b],
                                       [Action.Duplicate(1, 7), Action.Move(7, 1)])
  {
    var arcs := [InjectionArc(7, 1, true), InjectionArc(1, 0, false)];
    assert arcs[1].source == arcs[0].dest && Hit(arcs, 0, 2);
    assert Inner(arcs, 0, 7, 1) == arcs;
    assert Inner(arcs, 0, 7, 2) == [InjectionArc(7, 1, false), InjectionArc(7, 0, true)];
    assert [] + [Action.Duplicate(1, 7)] + [Action.Move(7, 1)] == [Action.Duplicate(1, 7), Action.Move(7, 1)];
    assert map[1 := b][7 := b][1 := b] == map[1 := b, 7 := b];
  }

  lemma OwnSecond(b: OpenFile, log: seq<Action>)
    ensures var c := Config([InjectionArc(7, 1, false), InjectionArc(7, 0, true)], map[1 := b, 7 := b], log);
            && CanStep(c, 1, -1, {})
            && Next(c, 1, -1) == Config(c.arcs, map[0 := b, 1 := b], log + [Action.Move(7, 0)] + [Action.Close(7)])
  {
    var arcs := [InjectionArc(7, 1, false), InjectionArc(7, 0, true)];
    assert !Hit(arcs, 1, 2) && Inner(arcs, 1, -1, 2) == arcs;
    assert map[1 := b, 7 := b][0 := b] - {7} == map[0 := b, 1 := b];
  }

  /**
   The first arc's own source, 7, is not open and is handed out for its dest; the second arc, reading 7 now,
   inherits the close that the first was asked for, and the final loop finds 7 closed.
   */
  lemma OwnSourceTaken(b: OpenFile)
    ensures var arcs := [InjectionArc(7, 1, true), InjectionArc(1, 0, false)];
            Complete(arcs, map[1 := b], {}, [7, -1]) && !ClosesWell(arcs, map[1 := b], [7, -1])
  {
    var arcs := [InjectionArc(7, 1, true), InjectionArc(1, 0, false)];
    var c1 := Config([InjectionArc(7, 1, false), InjectionArc(7, 0, true)], map[1 := b, 7 := b],
                     [Action.Duplicate(1, 7), Action.Move(7, 1)]);
    var c2 := Config(c1.arcs, map[0 := b, 1 := b], c1.trace + [Action.Move(7, 0)] + [Action.Close(7)]);
    OwnFirst(b);
    OwnSecond(b, c1.trace);
    OneStep(arcs, map[1 := b], [], 7, Config(arcs, map[1 := b], []), c1);
    assert [] + [7] == [7] && [7] + [-1] == [7, -1];
    OneStep(arcs, map[1 := b], [7], -1, c1, c2);
    TempsAre([Action.Duplicate(1, 7)], [Action.Move(7, 1)] + [Action.Move(7, 0)] + [Action.Close(7)], c2.trace);
    OnlyTaken(arcs, map[1 := b], [7, -1]);
  }

  lemma TempsAre(first: seq<Action>, more: seq<Action>, trace: seq<Action>)
    requires first + more == trace && |first| == 1 && first[0].Duplicate?
    requires forall k :: 0 <= k < |more| ==> !more[k].Duplicate?
    ensures Temporaries(trace) == [first[0].result]
  {
    assert first == [first[0]];
    OneTemporary(first[0].fd, first[0].result, more);
  }

  lemma OnlyTaken(orig: seq<InjectionArc>, before: Table, taken: seq<int>)
    requires |taken| <= |orig| && |TempsOf(orig, before, taken)| == 1
    requires TempsOf(orig, before, taken)[0] !in StateAfter(orig, before, taken).table
    ensures !ClosesWell(orig, before, taken)
  {
    assert Extras(orig, before, taken)[0] == TempsOf(orig, before, taken)[0];
  }

  lemma FirstTaken(a: OpenFile, b: OpenFile)
    ensures var c := Config([InjectionArc(0, 1, false), InjectionArc(7, 7, true), InjectionArc(1, 0, false)],
                            map[0 := a, 1 := b], []);
            && CanStep(c, 0, 7, {})
            && Next(c, 0, 7) == Config([InjectionArc(0, 1, false), InjectionArc(7, 7, true), InjectionArc(7, 0, false)],
                                       map[0 := a, 1 := a, 7 := b], [Action.Duplicate(1, 7), Action.Move(0, 1)])
  {
    var arcs := [InjectionArc(0, 1, false), InjectionArc(7, 7, true), InjectionArc(1, 0, false)];
    assert arcs[2].source == arcs[0].dest && Hit(arcs, 0, 3);
    assert Inner(arcs, 0, 7, 1) == arcs;
    assert Inner(arcs, 0, 7, 2) == arcs;
    assert Inner(arcs, 0, 7, 3) == [InjectionArc(0, 1, false), InjectionArc(7, 7, true), InjectionArc(7, 0, false)];
    assert [] + [Action.Duplicate(1, 7)] + [Action.Move(0, 1)] == [Action.Duplicate(1, 7), Action.Move(0, 1)];
    assert map[0 := a, 1 := b][7 := b][1 := a] == map[0 := a, 1 := a, 7 := b];
  }

  lemma SecondTaken(table: Table, log: seq<Action>)
    ensures var arcs := [InjectionArc(0, 1, false), InjectionArc(7, 7, true), InjectionArc(7, 0, false)];
            var now := [InjectionArc(0, 1, false), InjectionArc(7, 7, false), InjectionArc(7, 0, true)];
            CanStep(Config(arcs, table, log), 1, -1, {})
            && Next(Config(arcs, table, log), 1, -1) == Config(now, table, log)
  {
    var arcs := [InjectionArc(0, 1, false), InjectionArc(7, 7, true), InjectionArc(7, 0, false)];
    assert !Hit(arcs, 1, 3) && Inner(arcs, 1, -1, 2) == arcs;
    assert Inner(arcs, 1, -1, 3) == [InjectionArc(0, 1, false), InjectionArc(7, 7, false), InjectionArc(7, 0, true)];
  }

  lemma ThirdTaken(a: OpenFile, b: OpenFile, log: seq<Action>)
    ensures var c := Config([InjectionArc(0, 1, false), InjectionArc(7, 7, false), InjectionArc(7, 0, true)],
                            map[0 := a, 1 := a, 7 := b], log);
            && CanStep(c, 2, -1, {})
            && Next(c, 2, -1) == Config(c.arcs, map[0 := b, 1 := a], log + [Action.Move(7, 0)] + [Action.Close(7)])
  {
    var arcs := [InjectionArc(0, 1, false), InjectionArc(7, 7, false), InjectionArc(7, 0, true)];
    assert !Hit(arcs, 2, 3) && Inner(arcs, 2, -1, 3) == arcs;
    assert map[0 := a, 1 := a, 7 := b][0 := b] - {7} == map[0 := b, 1 := a];
  }

  /**
   Descriptor 7, not open, is taken for the temporary; the identity arc on 7 passes its close on to the arc that now
   reads 7, and the final loop finds 7 closed.
   */
  lemma IdentitySourceTaken(a: OpenFile, b: OpenFile)
    ensures var arcs := [InjectionArc(0, 1, false), InjectionArc(7, 7, true), InjectionArc(1, 0, false)];
            Complete(arcs, map[0 := a, 1 := b], {}, [7, -1, -1]) && !ClosesWell(arcs, map[0 := a, 1 := b], [7, -1, -1])
  {
    var arcs := [InjectionArc(0, 1, false), InjectionArc(7, 7, true), InjectionArc(1, 0, false)];
    var before: Table := map[0 := a, 1 := b];
    var c1 := Config([InjectionArc(0, 1, false), InjectionArc(7, 7, true), InjectionArc(7, 0, false)],
                     map[0 := a, 1 := a, 7 := b], [Action.Duplicate(1, 7), Action.Move(0, 1)]);
    var c2 := c1.(arcs := [InjectionArc(0, 1, false), InjectionArc(7, 7, false), InjectionArc(7, 0, true)]);
    var c3 := Config(c2.arcs, map[0 := b, 1 := a], c1.trace + [Action.Move(7, 0)] + [Action.Close(7)]);
    FirstTaken(a, b);
    SecondTaken(c1.table, c1.trace);
    ThirdTaken(a, b, c2.trace);
    OneStep(arcs, before, [], 7, Config(arcs, before, []), c1);
    assert [] + [7] == [7] && [7] + [-1] == [7, -1] && [7, -1] + [-1] == [7, -1, -1];
    OneStep(arcs, before, [7], -1, c1, c2);
    OneStep(arcs, before, [7, -1], -1, c2, c3);
    TempsAre([Action.Duplicate(1, 7)], [Action.Move(0, 1)] + [Action.Move(7, 0)] + [Action.Close(7)], c3.trace);
    OnlyTaken(arcs, before, [7, -1, -1]);
  }
}
