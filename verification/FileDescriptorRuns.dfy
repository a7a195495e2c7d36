/**
 The runs of a shuffle: for each arc in turn the descriptor that Duplicate hands out, if the arc needs one.  What
 comes out of a map follows from these alone, so what a caller may rely on is what holds of all its runs.
 */
module FileDescriptorRuns {
  import opened Wrappers
  import opened FileDescriptorArcs
  import opened FileDescriptorReuse

  // ---------------------------------------------------------------------------------------
  // The inner loop
  // ---------------------------------------------------------------------------------------

  /** The arcs once the inner loop for arc i has come to arc j. */
  function Inner(arcs: seq<InjectionArc>, i: nat, temp: int, j: nat): (now: seq<InjectionArc>)
    requires i < j <= |arcs|
    ensures |now| == |arcs|
  {
    if j == i + 1 then arcs
    else HandedOff(Redirect(Inner(arcs, i, temp, j - 1), i, temp, j - 1), i, j - 1)
  }

  /** Sources and dests do not depend on who closes what. */
  ghost predicate InnerAt(arcs: seq<InjectionArc>, i: nat, temp: int, j: nat, now: seq<InjectionArc>, k: nat)
    requires i < j <= |arcs| == |now| && k < |arcs|
  {
    && now[k].dest == arcs[k].dest
    && now[k].source == (if i < k < j && !arcs[i].Identity() && arcs[k].source == arcs[i].dest
                         then temp else arcs[k].source)
    && (k < i || j <= k ==> now[k] == arcs[k])
    && (k == i && now[k].close ==> arcs[k].close)
  }

  lemma {:induction false} InnerIs(arcs: seq<InjectionArc>, i: nat, temp: int, j: nat, k: nat)
    requires i < j <= |arcs| && k < |arcs|
    ensures InnerAt(arcs, i, temp, j, Inner(arcs, i, temp, j), k)
  {
    if j > i + 1 {
      InnerIs(arcs, i, temp, j - 1, k);
      InnerIs(arcs, i, temp, j - 1, i);
      InnerIs(arcs, i, temp, j - 1, j - 1);
    }
  }

  lemma NotHit(arcs: seq<InjectionArc>, i: nat, temp: int, j: nat, now: seq<InjectionArc>)
    requires i < j < |arcs| == |now| && !Hit(arcs, i, j + 1)
    requires now[i].source == arcs[i].source && now[i].dest == arcs[i].dest && now[j] == arcs[j]
    ensures Redirect(now, i, temp, j) == now
  {
  }

  /** As long as no arc has been hit, the temporary does not matter. */
  lemma {:induction false} InnerSame(arcs: seq<InjectionArc>, i: nat, temp: int, temp': int, j: nat)
    requires i < j <= |arcs| && !Hit(arcs, i, j)
    ensures Inner(arcs, i, temp, j) == Inner(arcs, i, temp', j)
  {
    if j > i + 1 {
      assert !Hit(arcs, i, j - 1);
      InnerSame(arcs, i, temp, temp', j - 1);
      InnerIs(arcs, i, temp, j - 1, i);
      InnerIs(arcs, i, temp, j - 1, j - 1);
      NotHit(arcs, i, temp, j - 1, Inner(arcs, i, temp, j - 1));
      NotHit(arcs, i, temp', j - 1, Inner(arcs, i, temp, j - 1));
    }
  }

  /** What the inner loop does, unless the temporary is the very source that arc i still has to close. */
  lemma {:induction false} InnerIsPassed(arcs: seq<InjectionArc>, i: nat, temp: int, j: nat)
    requires i < j <= |arcs|
    requires Hit(arcs, i, j) ==> temp != arcs[i].source || !arcs[i].close
    ensures PassedUpTo(arcs, i, temp, j, Inner(arcs, i, temp, j))
  {
    if j > i + 1 {
      assert Hit(arcs, i, j - 1) ==> Hit(arcs, i, j);
      InnerIsPassed(arcs, i, temp, j - 1);
      PassedAdvance(arcs, i, temp, j - 1, Inner(arcs, i, temp, j - 1));
    }
  }

  // ---------------------------------------------------------------------------------------
  // Runs
  // ---------------------------------------------------------------------------------------

  datatype Config = Config(arcs: seq<InjectionArc>, table: Table, trace: seq<Action>)

  ghost function AfterDuplicate(arcs: seq<InjectionArc>, i: int, temp: int, table: Table): Table
    requires 0 <= i < |arcs|
  {
    if Hit(arcs, i, |arcs|) && arcs[i].dest in table then table[temp := table[arcs[i].dest]] else table
  }

  ghost function AfterMove(arcs: seq<InjectionArc>, i: int, table: Table): Table
    requires 0 <= i < |arcs|
  {
    if !arcs[i].Identity() && arcs[i].source in table then table[arcs[i].dest := table[arcs[i].source]] else table
  }

  ghost function AfterClose(arcs: seq<InjectionArc>, i: int, close: bool, table: Table): Table
    requires 0 <= i < |arcs|
  {
    if !arcs[i].Identity() && close then table - {arcs[i].source} else table
  }

  /** Arc i can be carried out, and Duplicate may hand out `temp` for it. */
  ghost predicate CanStep(c: Config, i: nat, temp: int, reserved: set<int>)
    requires i < |c.arcs|
  {
    && (Hit(c.arcs, i, |c.arcs|) ==>
          c.arcs[i].dest in c.table && 0 <= temp && temp !in c.table && temp !in reserved)
    && (!c.arcs[i].Identity() ==> c.arcs[i].source in AfterDuplicate(c.arcs, i, temp, c.table))
  }

  /** Arc i cannot be carried out: what is to be duplicated or moved is not open. */
  ghost predicate Stuck(c: Config, i: nat, temp: int)
    requires i < |c.arcs|
  {
    || (Hit(c.arcs, i, |c.arcs|) && c.arcs[i].dest !in c.table)
    || (!c.arcs[i].Identity() && c.arcs[i].source !in AfterDuplicate(c.arcs, i, temp, c.table))
  }

  /** Arc i has been carried out. */
  ghost function Next(c: Config, i: nat, temp: int): Config
    requires i < |c.arcs|
  {
    var now := Inner(c.arcs, i, temp, |c.arcs|);
    Config(now,
           AfterClose(c.arcs, i, now[i].close, AfterMove(c.arcs, i, AfterDuplicate(c.arcs, i, temp, c.table))),
           Extended(c.trace, c.arcs, i, temp, now[i].close))
  }

  /** Duplicate has handed out `taken`, one for each of the first arcs; -1, say, where none was needed. */
  ghost function StateAfter(orig: seq<InjectionArc>, before: Table, taken: seq<int>): (c: Config)
    requires |taken| <= |orig|
    ensures |c.arcs| == |orig|
  {
    if taken == [] then Config(orig, before, [])
    else
      var n := |taken| - 1;
      Next(StateAfter(orig, before, taken[..n]), n, taken[n])
  }

  ghost predicate Legal(orig: seq<InjectionArc>, before: Table, reserved: set<int>, taken: seq<int>)
    requires |taken| <= |orig|
  {
    taken == []
    || var n := |taken| - 1;
       && Legal(orig, before, reserved, taken[..n])
       && CanStep(StateAfter(orig, before, taken[..n]), n, taken[n], reserved)
  }

  ghost predicate Complete(orig: seq<InjectionArc>, before: Table, reserved: set<int>, taken: seq<int>) {
    |taken| == |orig| && Legal(orig, before, reserved, taken)
  }

  ghost function TempsOf(orig: seq<InjectionArc>, before: Table, taken: seq<int>): seq<int>
    requires |taken| <= |orig|
  {
    Temporaries(StateAfter(orig, before, taken).trace)
  }

  /** The run got stuck at its last arc. */
  ghost predicate StuckRun(orig: seq<InjectionArc>, before: Table, reserved: set<int>, taken: seq<int>) {
    && 0 < |taken| <= |orig|
    && var n := |taken| - 1;
       Legal(orig, before, reserved, taken[..n]) && Stuck(StateAfter(orig, before, taken[..n]), n, taken[n])
  }

  /** The temporaries that the final loop closes. */
  ghost function Extras(orig: seq<InjectionArc>, before: Table, taken: seq<int>): seq<int>
    requires |taken| <= |orig|
  {
    var temps := TempsOf(orig, before, taken);
    temps[..Min(|temps|, MAX_EXTRA_FDS)]
  }

  /** The table that a successful run leaves. */
  ghost function Final(orig: seq<InjectionArc>, before: Table, taken: seq<int>): Table
    requires |taken| <= |orig|
  {
    StateAfter(orig, before, taken).table - Elements(Extras(orig, before, taken))
  }

  /** The run had the effect of all arcs at once. */
  ghost predicate Delivers(orig: seq<InjectionArc>, before: Table, taken: seq<int>)
    requires |taken| <= |orig|
  {
    Delivered(orig, before, Final(orig, before, taken))
  }

  lemma StateSnoc(orig: seq<InjectionArc>, before: Table, reserved: set<int>, taken: seq<int>, temp: int)
    requires |taken| < |orig|
    ensures StateAfter(orig, before, taken + [temp]) == Next(StateAfter(orig, before, taken), |taken|, temp)
    ensures Legal(orig, before, reserved, taken + [temp]) <==>
              Legal(orig, before, reserved, taken)
              && CanStep(StateAfter(orig, before, taken), |taken|, temp, reserved)
  {
    assert (taken + [temp])[..|taken|] == taken;
  }

  /** A descriptor that Duplicate may refuse may also be one it hands out. */
  lemma {:induction false} LegalWithLess(orig: seq<InjectionArc>, before: Table, reserved: set<int>,
                                         reserved': set<int>, taken: seq<int>)
    requires |taken| <= |orig| && Legal(orig, before, reserved, taken) && reserved' <= reserved
    ensures Legal(orig, before, reserved', taken)
  {
    if taken != [] {
      LegalWithLess(orig, before, reserved, reserved', taken[..|taken| - 1]);
    }
  }

  // ---------------------------------------------------------------------------------------
  // What holds along every run of every map
  // ---------------------------------------------------------------------------------------

  lemma ExtendedSets(arcs: seq<InjectionArc>, i: int, temp: int, close: bool, trace: seq<Action>)
    requires 0 <= i < |arcs|
    ensures var trace' := Extended(trace, arcs, i, temp, close);
            && TempSet(trace') == WithTemp(arcs, i, TempSet(trace), temp)
            && CloseSet(trace') == CloseSet(trace) + (if !arcs[i].Identity() && close then {arcs[i].source} else {})
            && Temporaries(trace') ==
                 (if Hit(arcs, i, |arcs|) then Temporaries(trace) + [temp] else Temporaries(trace))
            && Closes(trace') ==
                 (if !arcs[i].Identity() && close then Closes(trace) + [arcs[i].source] else Closes(trace))
  {
    var duplicate, move := Action.Duplicate(arcs[i].dest, temp), Action.Move(arcs[i].source, arcs[i].dest);
    ProjectionsSnoc(trace, duplicate);
    var trace1 := if Hit(arcs, i, |arcs|) then trace + [duplicate] else trace;
    ProjectionsSnoc(trace1, move);
    var trace2 := if arcs[i].Identity() then trace1 else trace1 + [move];
    ProjectionsSnoc(trace2, Action.Close(arcs[i].source));
  }

  /** A source is the original one or a temporary, and no dest changes. */
  ghost predicate RunSource(orig: seq<InjectionArc>, c: Config, k: nat)
    requires k < |orig| == |c.arcs|
  {
    c.arcs[k].dest == orig[k].dest
    && (c.arcs[k].source == orig[k].source || c.arcs[k].source in TempSet(c.trace))
  }

  /** What was open and the map does not name is as it was, and has not been handed out. */
  ghost predicate Undisturbed(orig: seq<InjectionArc>, before: Table, c: Config, fd: int) {
    fd in before && !Mentioned(orig, fd) ==> Lookup(c.table, fd) == Lookup(before, fd) && fd !in TempSet(c.trace)
  }

  lemma SourceStep(orig: seq<InjectionArc>, c: Config, i: nat, temp: int, k: nat)
    requires i < |c.arcs| == |orig| && k < |orig| && RunSource(orig, c, k)
    ensures RunSource(orig, Next(c, i, temp), k)
  {
    var now := Inner(c.arcs, i, temp, |c.arcs|);
    InnerIs(c.arcs, i, temp, |c.arcs|, k);
    ExtendedSets(c.arcs, i, temp, now[i].close, c.trace);
    if i < k && !c.arcs[i].Identity() && c.arcs[k].source == c.arcs[i].dest {
      assert Hit(c.arcs, i, |c.arcs|);
    }
  }

  lemma UndisturbedStep(orig: seq<InjectionArc>, before: Table, c: Config, i: nat, temp: int,
                        reserved: set<int>, fd: int)
    requires i < |c.arcs| == |orig| && RunSource(orig, c, i) && CanStep(c, i, temp, reserved)
    requires Undisturbed(orig, before, c, fd)
    ensures Undisturbed(orig, before, Next(c, i, temp), fd)
  {
    if fd in before && !Mentioned(orig, fd) {
      var close := Inner(c.arcs, i, temp, |c.arcs|)[i].close;
      ExtendedSets(c.arcs, i, temp, close, c.trace);
      assert orig[i].dest != fd && orig[i].source != fd;
      assert fd in c.table by {
        assert Lookup(c.table, fd) == Lookup(before, fd);
      }
      Elsewhere(c.arcs, i, temp, close, c.table, fd);
    }
  }

  /** Carrying out arc i touches its dest, its source and the temporary only. */
  lemma Elsewhere(arcs: seq<InjectionArc>, i: nat, temp: int, close: bool, table: Table, fd: int)
    requires i < |arcs| && fd != arcs[i].dest && fd != arcs[i].source && (Hit(arcs, i, |arcs|) ==> fd != temp)
    ensures Lookup(AfterClose(arcs, i, close, AfterMove(arcs, i, AfterDuplicate(arcs, i, temp, table))), fd)
         == Lookup(table, fd)
  {
  }

  lemma {:induction false} RunSources(orig: seq<InjectionArc>, before: Table, taken: seq<int>, k: nat)
    requires |taken| <= |orig| && k < |orig|
    ensures RunSource(orig, StateAfter(orig, before, taken), k)
  {
    if taken != [] {
      var n := |taken| - 1;
      RunSources(orig, before, taken[..n], k);
      SourceStep(orig, StateAfter(orig, before, taken[..n]), n, taken[n], k);
    }
  }

  lemma {:induction false} RunUndisturbed(orig: seq<InjectionArc>, before: Table, reserved: set<int>,
                                          taken: seq<int>, fd: int)
    requires |taken| <= |orig| && Legal(orig, before, reserved, taken)
    ensures Undisturbed(orig, before, StateAfter(orig, before, taken), fd)
  {
    if taken != [] {
      var n := |taken| - 1;
      RunUndisturbed(orig, before, reserved, taken[..n], fd);
      RunSources(orig, before, taken[..n], n);
      UndisturbedStep(orig, before, StateAfter(orig, before, taken[..n]), n, taken[n], reserved, fd);
    }
  }

  /** Whatever the map, a run leaves alone what the map does not name. */
  lemma RunBystanders(orig: seq<InjectionArc>, before: Table, reserved: set<int>, taken: seq<int>)
    requires |taken| <= |orig| && Legal(orig, before, reserved, taken)
    ensures Bystanders(orig, before, StateAfter(orig, before, taken).table)
    ensures Bystanders(orig, before, Final(orig, before, taken))
  {
    var c := StateAfter(orig, before, taken);
    var temps := Temporaries(c.trace);
    forall fd | fd in before && !Mentioned(orig, fd)
      ensures Lookup(c.table, fd) == Lookup(before, fd) && fd !in Elements(Extras(orig, before, taken))
    {
      RunUndisturbed(orig, before, reserved, taken, fd);
      SetsOfTrace(c.trace, fd);
    }
  }

  // ---------------------------------------------------------------------------------------
  // Runs that keep the invariants
  // ---------------------------------------------------------------------------------------

  /** With all descriptors of the map reserved no temporary is one of them. */
  lemma ReservedStep(orig: seq<InjectionArc>, before: Table, c: Config, i: nat, temp: int, reserved: set<int>)
    requires i < |orig| && Inv(orig, before, i, c.arcs, c.table, c.trace)
    requires AllReserved(orig, reserved) && CanStep(c, i, temp, reserved)
    ensures var d := Next(c, i, temp); Inv(orig, before, i + 1, d.arcs, d.table, d.trace)
  {
    var n, table1 := |c.arcs|, AfterDuplicate(c.arcs, i, temp, c.table);
    if Hit(c.arcs, i, n) {
      NotReserved(orig, reserved, temp);
      BeforeStep(orig, before, i, c.arcs, temp, c.table, c.trace);
    }
    InnerIsPassed(c.arcs, i, temp, n);
    var now := Inner(c.arcs, i, temp, n);
    StepKeepsInv(orig, before, i, c.arcs, temp, now, c.table, table1, Next(c, i, temp).table, c.trace);
  }

  lemma NotReserved(orig: seq<InjectionArc>, reserved: set<int>, temp: int)
    requires AllReserved(orig, reserved) && temp !in reserved
    ensures !Mentioned(orig, temp)
  {
  }

  lemma {:induction false} RunInv(orig: seq<InjectionArc>, before: Table, reserved: set<int>, taken: seq<int>)
    requires |taken| <= |orig| && Legal(orig, before, reserved, taken)
    requires Injective(orig) && AllReserved(orig, reserved)
    ensures var c := StateAfter(orig, before, taken); Inv(orig, before, |taken|, c.arcs, c.table, c.trace)
  {
    if taken == [] {
      InvInit(orig, before);
    } else {
      var n := |taken| - 1;
      RunInv(orig, before, reserved, taken[..n]);
      ReservedStep(orig, before, StateAfter(orig, before, taken[..n]), n, taken[n], reserved);
    }
  }

  lemma ReuseStep(orig: seq<InjectionArc>, before: Table, c: Config, i: nat, temp: int, reserved: set<int>)
    requires i < |orig| && ReuseInv(orig, before, i, c.arcs, c.table, c.trace) && CanStep(c, i, temp, reserved)
    ensures var d := Next(c, i, temp); ReuseInv(orig, before, i + 1, d.arcs, d.table, d.trace)
  {
    var n, table1 := |c.arcs|, AfterDuplicate(c.arcs, i, temp, c.table);
    BeforeReuseStep(orig, before, i, c.arcs, temp, c.table, c.trace);
    InnerIsPassed(c.arcs, i, temp, n);
    var now := Inner(c.arcs, i, temp, n);
    StepKeepsReuseInv(orig, before, i, c.arcs, temp, now, c.table, table1, Next(c, i, temp).table, c.trace);
  }

  lemma {:induction false} RunReuseInv(orig: seq<InjectionArc>, before: Table, reserved: set<int>, taken: seq<int>)
    requires |taken| <= |orig| && Legal(orig, before, reserved, taken)
    requires Injective(orig) && AllSourcesOpen(orig, before)
    ensures var c := StateAfter(orig, before, taken); ReuseInv(orig, before, |taken|, c.arcs, c.table, c.trace)
  {
    if taken == [] {
      ReuseInit(orig, before);
    } else {
      var n := |taken| - 1;
      RunReuseInv(orig, before, reserved, taken[..n]);
      ReuseStep(orig, before, StateAfter(orig, before, taken[..n]), n, taken[n], reserved);
    }
  }

  /** A complete run, all sources being open at its start, has the effect of ReuseSettled. */
  lemma RunSettled(orig: seq<InjectionArc>, before: Table, reserved: set<int>, taken: seq<int>)
    requires Injective(orig) && AllSourcesOpen(orig, before) && Complete(orig, before, reserved, taken)
    ensures ReuseSettled(orig, before, Final(orig, before, taken),
                         CloseAll(StateAfter(orig, before, taken).trace, Extras(orig, before, taken)))
    ensures Temporaries(CloseAll(StateAfter(orig, before, taken).trace, Extras(orig, before, taken)))
         == TempsOf(orig, before, taken)
  {
    var c := StateAfter(orig, before, taken);
    RunReuseInv(orig, before, reserved, taken);
    ReuseAllClosed(orig, before, c.arcs, c.table, c.trace, |Extras(orig, before, taken)|);
    CloseAllTemporaries(c.trace, Extras(orig, before, taken));
  }

  // ---------------------------------------------------------------------------------------
  // Which maps every run delivers
  // ---------------------------------------------------------------------------------------

  /** Duplicate may hand fd out at the start. */
  ghost predicate Takeable(fd: int, before: Table, reserved: set<int>) {
    0 <= fd && fd !in before && fd !in reserved
  }

  /** No arc whose dest could be handed out stands behind one that needs a duplicate. */
  ghost predicate NoDestTakeable(orig: seq<InjectionArc>, before: Table, reserved: set<int>) {
    forall i, k :: 0 <= i < k < |orig| && Overwrites(orig, i) ==> !Takeable(orig[k].dest, before, reserved)
  }

  /** Sources have changed only where their originals were overwritten, and no dest has been handed out. */
  ghost predicate DestsFree(orig: seq<InjectionArc>, i: nat, c: Config)
    requires i <= |orig| == |c.arcs|
  {
    NoneIsDest(orig, TempSet(c.trace)) && SourcesKept(orig, i, c.arcs)
  }

  ghost predicate NoneIsDest(orig: seq<InjectionArc>, temps: set<int>) {
    forall t :: t in temps ==> !IsDest(orig, t)
  }

  ghost predicate SourcesKept(orig: seq<InjectionArc>, i: nat, arcs: seq<InjectionArc>)
    requires i <= |orig| == |arcs|
  {
    forall k :: i <= k < |orig| && arcs[k].source != orig[k].source ==> Redirected(orig, i, k)
  }

  lemma SourcesKeptStep(orig: seq<InjectionArc>, i: nat, arcs: seq<InjectionArc>, temp: int)
    requires Injective(orig) && i < |orig| == |arcs| && SameDests(orig, arcs) && SourcesKept(orig, i, arcs)
    ensures SourcesKept(orig, i + 1, Inner(arcs, i, temp, |arcs|))
  {
    assert !arcs[i].Identity() ==> !orig[i].Identity();
    var now := Inner(arcs, i, temp, |arcs|);
    forall k | i < k < |arcs| && now[k].source != orig[k].source ensures Redirected(orig, i + 1, k) {
      InnerIs(arcs, i, temp, |arcs|, k);
      assert arcs[k].source != orig[k].source ==> Redirected(orig, i, k);
    }
  }

  lemma HitOverwrites(orig: seq<InjectionArc>, i: nat, c: Config)
    requires Injective(orig) && i < |orig| == |c.arcs| && SameDests(orig, c.arcs) && DestsFree(orig, i, c)
    requires forall k :: 0 <= k < |orig| ==> RunSource(orig, c, k)
    requires Hit(c.arcs, i, |c.arcs|)
    ensures Overwrites(orig, i)
  {
    assert !c.arcs[i].Identity() ==> !orig[i].Identity();
    var j :| i < j < |c.arcs| && c.arcs[j].source == c.arcs[i].dest;
    assert RunSource(orig, c, j);
    assert IsDest(orig, c.arcs[i].dest);
  }

  lemma TakenIsNoDest(orig: seq<InjectionArc>, before: Table, c: Config, i: nat, temp: int, reserved: set<int>)
    requires ReuseInv(orig, before, i, c.arcs, c.table, c.trace) && i < |orig|
    requires CanStep(c, i, temp, reserved) && Hit(c.arcs, i, |c.arcs|) && Overwrites(orig, i)
    requires NoDestTakeable(orig, before, reserved) && forall s :: !IdentityCloseClash(orig, s)
    ensures !IsDest(orig, temp)
  {
    BeforeReuseStep(orig, before, i, c.arcs, temp, c.table, c.trace);
    if temp in CloseSet(c.trace) {
      assert DutyKept(orig, i, c.arcs, CloseSet(c.trace), temp);
    } else {
      forall k | 0 <= k < |orig| ensures orig[k].dest != temp {
        if i < k {
          assert !Takeable(orig[k].dest, before, reserved);
        }
      }
    }
  }

  lemma DestsFreeStep(orig: seq<InjectionArc>, before: Table, c: Config, i: nat, temp: int, reserved: set<int>)
    requires ReuseInv(orig, before, i, c.arcs, c.table, c.trace) && i < |orig|
    requires forall k :: 0 <= k < |orig| ==> RunSource(orig, c, k)
    requires CanStep(c, i, temp, reserved) && DestsFree(orig, i, c)
    requires NoDestTakeable(orig, before, reserved) && forall s :: !IdentityCloseClash(orig, s)
    ensures DestsFree(orig, i + 1, Next(c, i, temp))
  {
    ExtendedSets(c.arcs, i, temp, Inner(c.arcs, i, temp, |c.arcs|)[i].close, c.trace);
    SourcesKeptStep(orig, i, c.arcs, temp);
    if Hit(c.arcs, i, |c.arcs|) {
      HitOverwrites(orig, i, c);
      TakenIsNoDest(orig, before, c, i, temp, reserved);
    }
  }

  lemma {:induction false} RunDestsFree(orig: seq<InjectionArc>, before: Table, reserved: set<int>, taken: seq<int>)
    requires |taken| <= |orig| && Legal(orig, before, reserved, taken)
    requires Injective(orig) && AllSourcesOpen(orig, before)
    requires NoDestTakeable(orig, before, reserved) && forall s :: !IdentityCloseClash(orig, s)
    ensures DestsFree(orig, |taken|, StateAfter(orig, before, taken))
  {
    if taken != [] {
      var n := |taken| - 1;
      RunDestsFree(orig, before, reserved, taken[..n]);
      RunReuseInv(orig, before, reserved, taken[..n]);
      forall k | 0 <= k < |orig| ensures RunSource(orig, StateAfter(orig, before, taken[..n]), k) {
        RunSources(orig, before, taken[..n], k);
      }
      DestsFreeStep(orig, before, StateAfter(orig, before, taken[..n]), n, taken[n], reserved);
    }
  }

  /** Without a clash and without a dest to take, every run does all arcs at once. */
  lemma EveryRunDelivers(orig: seq<InjectionArc>, before: Table, reserved: set<int>, taken: seq<int>)
    requires Injective(orig) && AllSourcesOpen(orig, before) && Complete(orig, before, reserved, taken)
    requires NoDestTakeable(orig, before, reserved) && forall s :: !IdentityCloseClash(orig, s)
    ensures Delivers(orig, before, taken)
  {
    var c := StateAfter(orig, before, taken);
    var trace := CloseAll(c.trace, Extras(orig, before, taken));
    RunSettled(orig, before, reserved, taken);
    RunDestsFree(orig, before, reserved, taken);
    forall k | 0 <= k < |Temporaries(trace)| ensures !IsDest(orig, Temporaries(trace)[k]) {
      SetsOfTrace(c.trace, Temporaries(trace)[k]);
    }
    DeliveredUnlessClosed(orig, before, Final(orig, before, taken), trace);
  }

  // ---------------------------------------------------------------------------------------
  // Runs there are
  // ---------------------------------------------------------------------------------------

  lemma FreshExists(s: set<int>)
    ensures exists r :: 0 <= r && r !in s
  {
    if s == {} {
      assert 0 !in s;
    } else {
      var m := MaxOf(s);
      assert (if m < 0 then 0 else m + 1) !in s;
    }
  }

  lemma MaxOf(s: set<int>) returns (m: int)
    requires s != {}
    ensures m in s && forall x :: x in s ==> x <= m
  {
    assert exists x :: x in s by {
      if forall x :: x !in s {
        assert false;
      }
    }
    m :| m in s;
    var rest := s - {m};
    if rest != {} {
      var n := MaxOf(rest);
      if m < n {
        m := n;
      }
    }
    assert forall x :: x in s ==> x == m || x in rest || x <= m;
  }

  /** With all sources open at the start, any descriptor that Duplicate may hand out lets the run go on. */
  lemma AnyFits(orig: seq<InjectionArc>, before: Table, c: Config, i: nat, temp: int, reserved: set<int>)
    requires ReuseInv(orig, before, i, c.arcs, c.table, c.trace) && i < |orig|
    requires 0 <= temp && temp !in c.table && temp !in reserved
    ensures CanStep(c, i, temp, reserved)
  {
    if Hit(c.arcs, i, |c.arcs|) {
      var j :| i < j < |c.arcs| && c.arcs[j].source == c.arcs[i].dest;
      assert Lookup(c.table, c.arcs[j].source) == Lookup(before, orig[j].source);
    }
    SourceIsOpen(orig, before, i, c.arcs, c.table, c.trace);
  }

  /** With all sources open at the start no run gets stuck. */
  lemma OpenNeverStuck(orig: seq<InjectionArc>, before: Table, reserved: set<int>, taken: seq<int>)
    requires Injective(orig) && AllSourcesOpen(orig, before)
    ensures !StuckRun(orig, before, reserved, taken)
  {
    if 0 < |taken| <= |orig| && Legal(orig, before, reserved, taken[..|taken| - 1]) {
      var n := |taken| - 1;
      RunReuseInv(orig, before, reserved, taken[..n]);
      OpenNotStuck(orig, before, StateAfter(orig, before, taken[..n]), n, taken[n]);
    }
  }

  lemma OpenNotStuck(orig: seq<InjectionArc>, before: Table, c: Config, i: nat, temp: int)
    requires ReuseInv(orig, before, i, c.arcs, c.table, c.trace) && i < |orig|
    ensures !Stuck(c, i, temp)
  {
    if Hit(c.arcs, i, |c.arcs|) {
      var j :| i < j < |c.arcs| && c.arcs[j].source == c.arcs[i].dest;
      assert Lookup(c.table, c.arcs[j].source) == Lookup(before, orig[j].source);
    }
    SourceIsOpen(orig, before, i, c.arcs, c.table, c.trace);
  }

  /** With fresh duplicates it is enough that the sources are open that some arc has to move. */
  lemma FreshNeverStuck(orig: seq<InjectionArc>, before: Table, reserved: set<int>, taken: seq<int>)
    requires Injective(orig) && AllReserved(orig, reserved) && SourcesOpen(orig, before, |orig|)
    ensures !StuckRun(orig, before, reserved, taken)
  {
    if 0 < |taken| <= |orig| && Legal(orig, before, reserved, taken[..|taken| - 1]) {
      var n := |taken| - 1;
      RunInv(orig, before, reserved, taken[..n]);
      FreshNotStuck(orig, before, StateAfter(orig, before, taken[..n]), n, taken[n]);
    }
  }

  lemma FreshNotStuck(orig: seq<InjectionArc>, before: Table, c: Config, i: nat, temp: int)
    requires Inv(orig, before, i, c.arcs, c.table, c.trace) && i < |orig| && SourcesOpen(orig, before, |orig|)
    ensures !Stuck(c, i, temp)
  {
    CurrentIdentity(orig, i, c.arcs, TempSet(c.trace));
    if Hit(c.arcs, i, |c.arcs|) {
      var j :| i < j < |c.arcs| && c.arcs[j].source == c.arcs[i].dest;
      assert orig[j].dest != orig[i].dest;
      assert Lookup(c.table, c.arcs[j].source) == Lookup(before, orig[j].source);
    }
    assert Lookup(c.table, c.arcs[i].source) == Lookup(before, orig[i].source);
  }

  /** Such a run can be taken to its end. */
  lemma {:induction false} RunGoesOn(orig: seq<InjectionArc>, before: Table, reserved: set<int>, taken: seq<int>)
    requires Injective(orig) && AllSourcesOpen(orig, before)
    requires |taken| <= |orig| && Legal(orig, before, reserved, taken)
    ensures exists more :: taken <= more && Complete(orig, before, reserved, more)
    decreases |orig| - |taken|
  {
    if |taken| == |orig| {
      assert taken <= taken && Complete(orig, before, reserved, taken);
    } else {
      var c := StateAfter(orig, before, taken);
      RunReuseInv(orig, before, reserved, taken);
      FreshExists(c.table.Keys + reserved);
      var temp :| 0 <= temp && temp !in c.table.Keys + reserved;
      AnyFits(orig, before, c, |taken|, temp, reserved);
      StateSnoc(orig, before, reserved, taken, temp);
      RunGoesOn(orig, before, reserved, taken + [temp]);
      var more :| taken + [temp] <= more && Complete(orig, before, reserved, more);
      assert taken <= more;
    }
  }

  // ---------------------------------------------------------------------------------------
  // A run that closes a clash
  // ---------------------------------------------------------------------------------------

  ghost function Named(orig: seq<InjectionArc>): (fds: set<int>)
    ensures AllReserved(orig, fds)
  {
    (set k | 0 <= k < |orig| :: orig[k].source) + (set k | 0 <= k < |orig| :: orig[k].dest)
  }

  /** A run whose temporaries the map does not name closes the descriptor of a clash. */
  lemma ClashingRun(orig: seq<InjectionArc>, before: Table, reserved: set<int>, s: int)
    requires Injective(orig) && AllSourcesOpen(orig, before) && IdentityCloseClash(orig, s)
    ensures exists taken :: Complete(orig, before, reserved, taken) && !Delivers(orig, before, taken)
  {
    var all := reserved + Named(orig);
    RunGoesOn(orig, before, all, []);
    var taken :| [] <= taken && Complete(orig, before, all, taken);
    var c := StateAfter(orig, before, taken);
    RunInv(orig, before, all, taken);
    ClashGone(orig, before, c.arcs, c.table, c.trace, s);
    assert s !in Final(orig, before, taken);
    NotDeliveredTo(orig, before, Final(orig, before, taken), s);
    LegalWithLess(orig, before, all, reserved, taken);
    assert Complete(orig, before, reserved, taken);
  }

  lemma ClashGone(orig: seq<InjectionArc>, before: Table, arcs: seq<InjectionArc>, table: Table,
                  trace: seq<Action>, s: int)
    requires Inv(orig, before, |orig|, arcs, table, trace) && IdentityCloseClash(orig, s)
    ensures s !in table
  {
    assert Mentioned(orig, s);
    assert DutyKept(orig, |orig|, arcs, CloseSet(trace), s);
  }

  lemma NotDeliveredTo(orig: seq<InjectionArc>, before: Table, after: Table, s: int)
    requires AllSourcesOpen(orig, before) && IsDest(orig, s) && s !in after
    ensures !Delivered(orig, before, after)
  {
    var k :| 0 <= k < |orig| && orig[k].dest == s;
    assert Lookup(after, orig[k].dest) != Lookup(before, orig[k].source);
  }

  // ---------------------------------------------------------------------------------------
  // A run that takes a dest
  // ---------------------------------------------------------------------------------------

  /** Nothing has been handed out and no source has changed. */
  ghost predicate NothingTaken(orig: seq<InjectionArc>, c: Config)
    requires |c.arcs| == |orig|
  {
    Temporaries(c.trace) == [] && forall k :: 0 <= k < |orig| ==> c.arcs[k].source == orig[k].source
  }

  /** Before the first overwriting arc nothing is taken. */
  lemma {:induction false} NothingTakenYet(orig: seq<InjectionArc>, before: Table, reserved: set<int>, taken: seq<int>)
    requires |taken| <= |orig| && forall i :: 0 <= i < |taken| ==> !Overwrites(orig, i)
    ensures NothingTaken(orig, StateAfter(orig, before, taken))
    ensures SameDests(orig, StateAfter(orig, before, taken).arcs)
  {
    if taken != [] {
      var n := |taken| - 1;
      var c := StateAfter(orig, before, taken[..n]);
      NothingTakenYet(orig, before, reserved, taken[..n]);
      assert Hit(c.arcs, n, |c.arcs|) ==> Overwrites(orig, n);
      var now := Inner(c.arcs, n, taken[n], |c.arcs|);
      ExtendedSets(c.arcs, n, taken[n], now[n].close, c.trace);
      forall k | 0 <= k < |orig| ensures now[k].source == orig[k].source && now[k].dest == orig[k].dest {
        InnerIs(c.arcs, n, taken[n], |c.arcs|, k);
      }
    }
  }

  lemma FirstOverwriting(orig: seq<InjectionArc>, i: nat)
    requires i < |orig| && Overwrites(orig, i)
    ensures exists f :: 0 <= f <= i && Overwrites(orig, f) && forall e :: 0 <= e < f ==> !Overwrites(orig, e)
  {
    if e :| 0 <= e < i && Overwrites(orig, e) {
      FirstOverwriting(orig, e);
    }
  }

  lemma {:induction false} FillRun(orig: seq<InjectionArc>, before: Table, reserved: set<int>, n: nat)
    requires Injective(orig) && AllSourcesOpen(orig, before) && n <= |orig|
    ensures exists taken :: |taken| == n && Legal(orig, before, reserved, taken)
  {
    RunGoesOn(orig, before, reserved, []);
    var taken :| [] <= taken && Complete(orig, before, reserved, taken);
    LegalPrefix(orig, before, reserved, taken, n);
    assert |taken[..n]| == n;
  }

  lemma {:induction false} LegalPrefix(orig: seq<InjectionArc>, before: Table, reserved: set<int>,
                                       taken: seq<int>, n: nat)
    requires n <= |taken| <= |orig| && Legal(orig, before, reserved, taken)
    ensures Legal(orig, before, reserved, taken[..n])
  {
    if n == |taken| {
      assert taken[..n] == taken;
    } else {
      var m := |taken| - 1;
      LegalPrefix(orig, before, reserved, taken[..m], n);
      assert taken[..m][..n] == taken[..n];
    }
  }

  /** At the first overwriting arc i the dest of arc k, which is not open yet, can be handed out. */
  lemma TakeDest(orig: seq<InjectionArc>, before: Table, reserved: set<int>, taken: seq<int>, k: nat)
    requires Injective(orig) && AllSourcesOpen(orig, before)
    requires |taken| < k < |orig| && Legal(orig, before, reserved, taken) && Overwrites(orig, |taken|)
    requires forall e :: 0 <= e < |taken| ==> !Overwrites(orig, e)
    requires Takeable(orig[k].dest, before, reserved)
    ensures var more := taken + [orig[k].dest];
            && Legal(orig, before, reserved, more)
            && TempsOf(orig, before, more) == [orig[k].dest]
  {
    var i, temp, c := |taken|, orig[k].dest, StateAfter(orig, before, taken);
    NothingTakenYet(orig, before, reserved, taken);
    RunReuseInv(orig, before, reserved, taken);
    NotOpenYet(orig, before, c, i, k);
    AnyFits(orig, before, c, i, temp, reserved);
    StateSnoc(orig, before, reserved, taken, temp);
    ExtendedSets(c.arcs, i, temp, Inner(c.arcs, i, temp, |c.arcs|)[i].close, c.trace);
    var j :| i < j < |orig| && orig[j].source == orig[i].dest;
    assert c.arcs[j].source == c.arcs[i].dest;
    assert [] + [temp] == [temp];
  }

  lemma NotOpenYet(orig: seq<InjectionArc>, before: Table, c: Config, i: nat, k: nat)
    requires ReuseInv(orig, before, i, c.arcs, c.table, c.trace) && i < k < |orig|
    requires Temporaries(c.trace) == [] && orig[k].dest !in before
    ensures orig[k].dest !in c.table
  {
    var d := orig[k].dest;
    SetsOfTrace(c.trace, d);
    if d !in CloseSet(c.trace) {
      assert !DeliveredTo(orig, i, d);
      assert Lookup(c.table, d) == Lookup(before, d);
    }
  }

  lemma TempsGrow(orig: seq<InjectionArc>, before: Table, taken: seq<int>)
    requires 0 < |taken| <= |orig|
    ensures TempsOf(orig, before, taken[..|taken| - 1]) <= TempsOf(orig, before, taken)
  {
    var m := |taken| - 1;
    var c := StateAfter(orig, before, taken[..m]);
    ExtendedSets(c.arcs, m, taken[m], Inner(c.arcs, m, taken[m], |c.arcs|)[m].close, c.trace);
  }

  /** The first temporary stays the first. */
  lemma {:induction false} FirstStays(orig: seq<InjectionArc>, before: Table, taken: seq<int>, n: nat, temp: int)
    requires n <= |taken| <= |orig|
    requires TempsOf(orig, before, taken[..n]) == [temp]
    ensures 0 < |TempsOf(orig, before, taken)| && TempsOf(orig, before, taken)[0] == temp
  {
    if n == |taken| {
      assert taken[..n] == taken;
    } else {
      var rest := taken[..|taken| - 1];
      assert rest[..n] == taken[..n];
      FirstStays(orig, before, rest, n, temp);
      TempsGrow(orig, before, taken);
    }
  }

  /** A run that takes the dest of a later arc for its first temporary loses that dest. */
  lemma TakingRun(orig: seq<InjectionArc>, before: Table, reserved: set<int>, i: nat, k: nat)
    requires Injective(orig) && AllSourcesOpen(orig, before)
    requires i < k < |orig| && Overwrites(orig, i) && Takeable(orig[k].dest, before, reserved)
    ensures exists taken :: Complete(orig, before, reserved, taken) && !Delivers(orig, before, taken)
  {
    FirstOverwriting(orig, i);
    var f :| 0 <= f <= i && Overwrites(orig, f) && forall e :: 0 <= e < f ==> !Overwrites(orig, e);
    FillRun(orig, before, reserved, f);
    var start :| |start| == f && Legal(orig, before, reserved, start);
    TakeDest(orig, before, reserved, start, k);
    LosesFirst(orig, before, reserved, start + [orig[k].dest], k);
  }

  lemma LosesFirst(orig: seq<InjectionArc>, before: Table, reserved: set<int>, first: seq<int>, k: nat)
    requires Injective(orig) && AllSourcesOpen(orig, before)
    requires |first| <= |orig| && Legal(orig, before, reserved, first)
    requires k < |orig| && TempsOf(orig, before, first) == [orig[k].dest]
    ensures exists taken :: Complete(orig, before, reserved, taken) && !Delivers(orig, before, taken)
  {
    RunGoesOn(orig, before, reserved, first);
    var taken :| first <= taken && Complete(orig, before, reserved, taken);
    assert taken[..|first|] == first;
    FirstStays(orig, before, taken, |first|, orig[k].dest);
    LostRun(orig, before, reserved, taken, k);
  }

  lemma LostRun(orig: seq<InjectionArc>, before: Table, reserved: set<int>, taken: seq<int>, k: nat)
    requires Injective(orig) && AllSourcesOpen(orig, before) && Complete(orig, before, reserved, taken)
    requires k < |orig| && 0 < |TempsOf(orig, before, taken)| && TempsOf(orig, before, taken)[0] == orig[k].dest
    ensures !Delivers(orig, before, taken)
  {
    RunSettled(orig, before, reserved, taken);
    assert IsDest(orig, orig[k].dest);
    RecordedIsLost(orig, before, Final(orig, before, taken),
                   CloseAll(StateAfter(orig, before, taken).trace, Extras(orig, before, taken)), 0);
  }

  /**
   All sources being open, every successful run has the effect of all arcs at once, cycles, chains and fan-out
   included, exactly if there is no clash, and no arc that needs a duplicate stands before an arc whose dest
   could be handed out for it.
   */
  lemma DeliversExactly(orig: seq<InjectionArc>, before: Table, reserved: set<int>)
    requires Injective(orig) && AllSourcesOpen(orig, before)
    ensures (forall taken :: Complete(orig, before, reserved, taken) ==> Delivers(orig, before, taken))
       <==> (forall s :: !IdentityCloseClash(orig, s)) && NoDestTakeable(orig, before, reserved)
  {
    if s :| IdentityCloseClash(orig, s) {
      ClashingRun(orig, before, reserved, s);
    } else if !NoDestTakeable(orig, before, reserved) {
      var i, k :| 0 <= i < k < |orig| && Overwrites(orig, i) && Takeable(orig[k].dest, before, reserved);
      TakingRun(orig, before, reserved, i, k);
    } else {
      forall taken | Complete(orig, before, reserved, taken)
        ensures Delivers(orig, before, taken)
      {
        EveryRunDelivers(orig, before, reserved, taken);
      }
    }
  }
}
