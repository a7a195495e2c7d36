/**
 Shuffles whose Duplicate returns just any descriptor that is not open, as dup does: it may be a source that
 has been closed, or a dest that nothing has been delivered to yet.  Then all sources must be open at the start.
 */
module FileDescriptorReuse {
  import opened Wrappers
  import opened FileDescriptorArcs

  ghost predicate AllSourcesOpen(arcs: seq<InjectionArc>, table: Table) {
    forall k :: 0 <= k < |arcs| ==> arcs[k].source in table
  }

  ghost predicate AllDestsOpen(arcs: seq<InjectionArc>, table: Table) {
    forall k :: 0 <= k < |arcs| ==> arcs[k].dest in table
  }

  // ---------------------------------------------------------------------------------------
  // The invariant of the outer loop
  // ---------------------------------------------------------------------------------------

  /** An arc to come reads its original source or a temporary, and closes no temporary. */
  ghost predicate ReadsWell(orig: seq<InjectionArc>, arcs: seq<InjectionArc>, k: int, temps: set<int>)
    requires 0 <= k < |orig| == |arcs|
  {
    && (arcs[k].source in temps || arcs[k].source == orig[k].source)
    && (arcs[k].source in temps ==> !arcs[k].close)
  }

  ghost predicate AllReadWell(orig: seq<InjectionArc>, i: int, arcs: seq<InjectionArc>, temps: set<int>)
    requires 0 <= i <= |orig| == |arcs|
  {
    forall k {:trigger ReadsWell(orig, arcs, k, temps)} :: i <= k < |arcs| ==> ReadsWell(orig, arcs, k, temps)
  }

  /** Nothing that was closed is a dest or is to be closed again. */
  ghost predicate ClosedForGood(arcs: seq<InjectionArc>, k: int, closes: set<int>)
    requires 0 <= k < |arcs|
  {
    arcs[k].dest !in closes && (arcs[k].close ==> arcs[k].source !in closes)
  }

  ghost predicate Duties(orig: seq<InjectionArc>, i: int, arcs: seq<InjectionArc>, closes: set<int>)
    requires 0 <= i <= |orig| == |arcs|
  {
    && (forall s :: s in closes ==> Mentioned(orig, s))
    && (forall s {:trigger DutyKept(orig, i, arcs, closes, s)} ::
          Mentioned(orig, s) ==> DutyKept(orig, i, arcs, closes, s))
    && (forall k {:trigger ClosedForGood(arcs, k, closes)} :: i <= k < |arcs| ==> ClosedForGood(arcs, k, closes))
  }

  /** Temporaries are open, and were not open before unless they are closed sources. */
  ghost predicate TempsReused(before: Table, table: Table, temps: set<int>, closes: set<int>) {
    forall t :: t in temps ==> t in table && (t in before ==> t in closes)
  }

  ghost predicate EachOnce(trace: seq<Action>) {
    Distinct(Temporaries(trace)) && Distinct(Closes(trace))
  }

  /** What holds of remaining arcs, table and trace when the first i of the original arcs have been carried out. */
  ghost predicate ReuseInv(orig: seq<InjectionArc>, before: Table, i: int, arcs: seq<InjectionArc>,
                           table: Table, trace: seq<Action>)
  {
    var temps, closes := TempSet(trace), CloseSet(trace);
    && Injective(orig) && AllSourcesOpen(orig, before) && SameDests(orig, arcs)
    && 0 <= i <= |orig|
    && AllReadWell(orig, i, arcs, temps)
    && SourcesHold(orig, before, i, arcs, table)
    && Duties(orig, i, arcs, closes)
    && TableSoFar(orig, before, i, table, temps, closes)
    && TempsReused(before, table, temps, closes)
    && EachOnce(trace)
  }

  lemma ReuseInit(orig: seq<InjectionArc>, before: Table)
    requires Injective(orig) && AllSourcesOpen(orig, before)
    ensures ReuseInv(orig, before, 0, orig, before, [])
  {
    forall s | Mentioned(orig, s) ensures DutyKept(orig, 0, orig, {}, s) {
      MustCloseIsDue(orig, s);
    }
  }

  // ---------------------------------------------------------------------------------------
  // One turn of the outer loop
  // ---------------------------------------------------------------------------------------

  /** What is not open is neither read by an arc to come nor a dest that has been delivered to. */
  lemma NotOpen(orig: seq<InjectionArc>, before: Table, i: int, arcs: seq<InjectionArc>, table: Table,
                temps: set<int>, closes: set<int>, temp: int)
    requires 0 <= i <= |orig| == |arcs| && AllSourcesOpen(orig, before)
    requires SourcesHold(orig, before, i, arcs, table) && TableSoFar(orig, before, i, table, temps, closes)
    requires TempsReused(before, table, temps, closes)
    requires temp !in table
    ensures forall k :: i <= k < |arcs| ==> arcs[k].source in table && arcs[k].source != temp
    ensures TempApart(orig, i, temp, closes) && temp !in temps
    ensures temp in before ==> temp in closes
  {
    forall k | i <= k < |arcs| ensures arcs[k].source in table && arcs[k].source != temp {
      assert Lookup(table, arcs[k].source) == Lookup(before, orig[k].source);
    }
    forall k | 0 <= k < i && orig[k].dest !in closes ensures orig[k].dest != temp {
      assert Lookup(table, orig[k].dest) == Lookup(before, orig[k].source);
    }
    if temp !in closes {
      assert !DeliveredTo(orig, i, temp);
      assert Lookup(table, temp) == Lookup(before, temp);
    }
  }

  lemma ReadWellStep(orig: seq<InjectionArc>, i: int, arcs: seq<InjectionArc>, temp: int,
                     now: seq<InjectionArc>, temps: set<int>)
    requires 0 <= i < |orig| == |arcs| && AllReadWell(orig, i, arcs, temps)
    requires PassedUpTo(arcs, i, temp, |arcs|, now)
    requires Hit(arcs, i, |arcs|) ==> forall k :: i <= k < |arcs| ==> arcs[k].source != temp
    ensures AllReadWell(orig, i + 1, now, WithTemp(arcs, i, temps, temp))
  {
    assert ReadsWell(orig, arcs, i, temps);
    forall k | i < k < |arcs| ensures ReadsWell(orig, now, k, WithTemp(arcs, i, temps, temp)) {
      assert ReadsWell(orig, arcs, k, temps);
      assert now[k] == Passed(arcs, i, temp, k);
      if !arcs[i].Identity() && arcs[k].source == arcs[i].dest {
        assert Hit(arcs, i, |arcs|);
      }
    }
  }

  lemma SourcesReuseStep(orig: seq<InjectionArc>, before: Table, i: int, arcs: seq<InjectionArc>,
                         temp: int, now: seq<InjectionArc>, table: Table, table1: Table, table3: Table)
    requires 0 <= i < |orig| == |arcs| && SourcesHold(orig, before, i, arcs, table)
    requires PassedUpTo(arcs, i, temp, |arcs|, now)
    requires if Hit(arcs, i, |arcs|)
             then arcs[i].dest in table && temp !in table && table1 == table[temp := table[arcs[i].dest]]
             else table1 == table
    requires Hit(arcs, i, |arcs|) ==> forall k :: i <= k < |arcs| ==> arcs[k].source != temp
    requires Carried(arcs, i, now, table1, table3)
    ensures SourcesHold(orig, before, i + 1, now, table3)
  {
    forall k | i < k < |arcs| ensures Lookup(table3, now[k].source) == Lookup(before, orig[k].source) {
      assert Lookup(table, arcs[k].source) == Lookup(before, orig[k].source);
      CarriedAt(arcs, i, now, table1, table3, now[k].source);
      assert now[k] == Passed(arcs, i, temp, k);
      assert now[i].close ==> !Claims(arcs, i, k);
      if !arcs[i].Identity() && arcs[k].source == arcs[i].dest {
        assert Hit(arcs, i, |arcs|);
      }
    }
  }

  /** A temporary takes no duty with it: nothing read it before, and its readers close nothing. */
  lemma TempHasNoDuty(orig: seq<InjectionArc>, i: int, arcs: seq<InjectionArc>, temp: int,
                      now: seq<InjectionArc>, closes: set<int>)
    requires 0 <= i < |orig| == |arcs| && PassedUpTo(arcs, i, temp, |arcs|, now)
    requires forall k :: i <= k < |arcs| ==> arcs[k].source != temp
    requires DutyKept(orig, i, arcs, closes, temp)
    ensures DutyKept(orig, i + 1, now, WithClose(arcs, i, now, closes), temp)
  {
    assert !CloseDue(arcs, i, temp);
    forall k | i < k < |arcs| ensures !CloseDueAt(now, temp, k) {
      assert now[k] == Passed(arcs, i, temp, k);
    }
  }

  lemma DutyReuseStep(orig: seq<InjectionArc>, i: int, arcs: seq<InjectionArc>, temp: int,
                      now: seq<InjectionArc>, closes: set<int>, s: int)
    requires Injective(orig) && SameDests(orig, arcs) && 0 <= i < |orig|
    requires PassedUpTo(arcs, i, temp, |arcs|, now)
    requires Hit(arcs, i, |arcs|) ==> forall k :: i <= k < |arcs| ==> arcs[k].source != temp
    requires DutyKept(orig, i, arcs, closes, s)
    requires Hit(arcs, i, |arcs|) ==> arcs[i].dest != temp
    ensures DutyKept(orig, i + 1, now, WithClose(arcs, i, now, closes), s)
  {
    if Hit(arcs, i, |arcs|) && s == temp {
      TempHasNoDuty(orig, i, arcs, temp, now, closes);
    } else if !arcs[i].Identity() && arcs[i].dest == s {
      assert !CloseDue(arcs, i, s);
      forall k | i < k < |arcs| ensures now[k].source != s {
        assert now[k] == Passed(arcs, i, temp, k);
        assert arcs[k].source == s ==> Hit(arcs, i, |arcs|);
      }
    } else {
      DueStep(orig, i, arcs, temp, now, s);
    }
  }

  lemma DutiesStep(orig: seq<InjectionArc>, i: int, arcs: seq<InjectionArc>, temp: int,
                   now: seq<InjectionArc>, temps: set<int>, closes: set<int>)
    requires Injective(orig) && SameDests(orig, arcs) && 0 <= i < |orig|
    requires PassedUpTo(arcs, i, temp, |arcs|, now)
    requires Hit(arcs, i, |arcs|) ==> forall k :: i <= k < |arcs| ==> arcs[k].source != temp
    requires Hit(arcs, i, |arcs|) ==> arcs[i].dest != temp
    requires AllReadWell(orig, i, arcs, temps) && Duties(orig, i, arcs, closes)
    ensures Duties(orig, i + 1, now, WithClose(arcs, i, now, closes))
  {
    var closes' := WithClose(arcs, i, now, closes);
    assert ReadsWell(orig, arcs, i, temps) && ClosedForGood(arcs, i, closes);
    assert now[i].close ==> Mentioned(orig, arcs[i].source);
    forall s | Mentioned(orig, s) ensures DutyKept(orig, i + 1, now, closes', s) {
      DutyReuseStep(orig, i, arcs, temp, now, closes, s);
    }
    forall k | i < k < |arcs| ensures ClosedForGood(now, k, closes') {
      assert ClosedForGood(arcs, k, closes) && now[k] == Passed(arcs, i, temp, k);
      assert now[i].close ==> !Claims(arcs, i, k);
    }
  }

  lemma TempsReuseStep(before: Table, i: int, arcs: seq<InjectionArc>, temp: int, now: seq<InjectionArc>,
                       temps: set<int>, closes: set<int>, table: Table, table1: Table, table3: Table)
    requires 0 <= i < |arcs| == |now| && TempsReused(before, table, temps, closes)
    requires if Hit(arcs, i, |arcs|)
             then arcs[i].dest in table && temp !in table && table1 == table[temp := table[arcs[i].dest]]
                  && temp != arcs[i].source && (temp in before ==> temp in closes)
             else table1 == table
    requires now[i].close ==> arcs[i].source !in temps
    requires Carried(arcs, i, now, table1, table3)
    ensures TempsReused(before, table3, WithTemp(arcs, i, temps, temp), WithClose(arcs, i, now, closes))
  {
    forall t | t in WithTemp(arcs, i, temps, temp) ensures t in table3 {
      CarriedAt(arcs, i, now, table1, table3, t);
    }
  }

  lemma OnceSnoc(trace: seq<Action>, a: Action)
    requires EachOnce(trace)
    requires a.Duplicate? ==> a.result !in TempSet(trace)
    requires a.Close? ==> a.fd !in CloseSet(trace)
    ensures EachOnce(trace + [a])
    ensures TempSet(trace + [a]) == if a.Duplicate? then TempSet(trace) + {a.result} else TempSet(trace)
    ensures CloseSet(trace + [a]) == if a.Close? then CloseSet(trace) + {a.fd} else CloseSet(trace)
    ensures Temporaries(trace + [a]) == if a.Duplicate? then Temporaries(trace) + [a.result] else Temporaries(trace)
  {
    ProjectionsSnoc(trace, a);
    if a.Duplicate? {
      SetsOfTrace(trace, a.result);
      DistinctSnoc(Temporaries(trace), a.result);
    }
    if a.Close? {
      SetsOfTrace(trace, a.fd);
      DistinctSnoc(Closes(trace), a.fd);
    }
  }

  lemma OnceStep(arcs: seq<InjectionArc>, i: int, temp: int, now: seq<InjectionArc>, trace: seq<Action>)
    requires 0 <= i < |arcs| == |now| && EachOnce(trace)
    requires Hit(arcs, i, |arcs|) ==> temp !in TempSet(trace)
    requires now[i].close ==> arcs[i].source !in CloseSet(trace)
    ensures var trace' := Extended(trace, arcs, i, temp, now[i].close);
            && TempSet(trace') == WithTemp(arcs, i, TempSet(trace), temp)
            && CloseSet(trace') == WithClose(arcs, i, now, CloseSet(trace))
            && EachOnce(trace')
            && Temporaries(trace') ==
                 if Hit(arcs, i, |arcs|) then Temporaries(trace) + [temp] else Temporaries(trace)
  {
    var trace1 := trace;
    if Hit(arcs, i, |arcs|) {
      OnceSnoc(trace, Action.Duplicate(arcs[i].dest, temp));
      trace1 := trace + [Action.Duplicate(arcs[i].dest, temp)];
    }
    if !arcs[i].Identity() {
      OnceSnoc(trace1, Action.Move(arcs[i].source, arcs[i].dest));
      if now[i].close {
        OnceSnoc(trace1 + [Action.Move(arcs[i].source, arcs[i].dest)], Action.Close(arcs[i].source));
      }
    }
  }

  /** What arc i and its temporary have to do with each other and with what was before. */
  lemma BeforeReuseStep(orig: seq<InjectionArc>, before: Table, i: int, arcs: seq<InjectionArc>, temp: int,
                        table: Table, trace: seq<Action>)
    requires ReuseInv(orig, before, i, arcs, table, trace) && i < |orig|
    requires Hit(arcs, i, |arcs|) ==> arcs[i].dest in table && temp !in table
    ensures Hit(arcs, i, |arcs|) ==>
              && (forall k :: i <= k < |arcs| ==> arcs[k].source != temp)
              && arcs[i].dest != temp && TempApart(orig, i, temp, CloseSet(trace)) && temp !in TempSet(trace)
              && (temp in before ==> temp in CloseSet(trace))
    ensures arcs[i].dest !in CloseSet(trace)
    ensures arcs[i].close ==> arcs[i].source !in CloseSet(trace) && arcs[i].source !in TempSet(trace)
    ensures Lookup(table, arcs[i].source) == Lookup(before, orig[i].source)
  {
    assert ClosedForGood(arcs, i, CloseSet(trace)) && ReadsWell(orig, arcs, i, TempSet(trace));
    if Hit(arcs, i, |arcs|) {
      NotOpen(orig, before, i, arcs, table, TempSet(trace), CloseSet(trace), temp);
    }
  }

  /** One arc carried out keeps the invariant. */
  lemma StepKeepsReuseInv(orig: seq<InjectionArc>, before: Table, i: int, arcs: seq<InjectionArc>, temp: int,
                          now: seq<InjectionArc>, table: Table, table1: Table, table3: Table, trace: seq<Action>)
    requires ReuseInv(orig, before, i, arcs, table, trace) && i < |orig|
    requires PassedUpTo(arcs, i, temp, |arcs|, now)
    requires if Hit(arcs, i, |arcs|)
             then arcs[i].dest in table && temp !in table && table1 == table[temp := table[arcs[i].dest]]
             else table1 == table
    requires Carried(arcs, i, now, table1, table3)
    ensures ReuseInv(orig, before, i + 1, now, table3, Extended(trace, arcs, i, temp, now[i].close))
    ensures Temporaries(Extended(trace, arcs, i, temp, now[i].close))
         == if Hit(arcs, i, |arcs|) then Temporaries(trace) + [temp] else Temporaries(trace)
  {
    var temps, closes := TempSet(trace), CloseSet(trace);
    BeforeReuseStep(orig, before, i, arcs, temp, table, trace);
    OnceStep(arcs, i, temp, now, trace);
    ReadWellStep(orig, i, arcs, temp, now, temps);
    DutiesStep(orig, i, arcs, temp, now, temps, closes);
    SourcesReuseStep(orig, before, i, arcs, temp, now, table, table1, table3);
    TableStep(orig, before, i, arcs, temp, now, temps, closes, table, table1, table3);
    TempsReuseStep(before, i, arcs, temp, now, temps, closes, table, table1, table3);
    DestsStay(orig, i, arcs, temp, now);
  }

  lemma DestsStay(orig: seq<InjectionArc>, i: int, arcs: seq<InjectionArc>, temp: int, now: seq<InjectionArc>)
    requires SameDests(orig, arcs) && PassedUpTo(arcs, i, temp, |arcs|, now)
    ensures SameDests(orig, now)
  {
    forall k | 0 <= k < |now| ensures now[k].dest == orig[k].dest {
      assert k > i ==> now[k] == Passed(arcs, i, temp, k);
    }
  }

  // ---------------------------------------------------------------------------------------
  // The end
  // ---------------------------------------------------------------------------------------

  lemma SourceIsOpen(orig: seq<InjectionArc>, before: Table, i: int, arcs: seq<InjectionArc>,
                     table: Table, trace: seq<Action>)
    requires ReuseInv(orig, before, i, arcs, table, trace) && i < |orig|
    ensures arcs[i].source in table
  {
    assert Lookup(table, arcs[i].source) == Lookup(before, orig[i].source);
  }

  lemma ReuseTempsOpen(orig: seq<InjectionArc>, before: Table, i: int, arcs: seq<InjectionArc>,
                       table: Table, trace: seq<Action>, k: nat)
    requires ReuseInv(orig, before, i, arcs, table, trace)
    requires k <= |Temporaries(trace)|
    ensures Distinct(Temporaries(trace)[..k])
    ensures forall fd :: fd in Temporaries(trace)[..k] ==> fd in table
  {
    forall fd | fd in Temporaries(trace)[..k] ensures fd in table {
      SetsOfTrace(trace, fd);
    }
  }

  lemma ReuseBystanders(orig: seq<InjectionArc>, before: Table, i: int, arcs: seq<InjectionArc>,
                        table: Table, trace: seq<Action>)
    requires ReuseInv(orig, before, i, arcs, table, trace)
    ensures Bystanders(orig, before, table)
    ensures forall fd :: fd in before && !Mentioned(orig, fd) ==> fd !in TempSet(trace)
  {
    forall fd | fd in before && !Mentioned(orig, fd) ensures Lookup(table, fd) == Lookup(before, fd) {
      forall k | 0 <= k < |orig| ensures orig[k].dest != fd {
        assert Mentioned(orig, orig[k].dest);
      }
      assert !DeliveredTo(orig, i, fd);
    }
  }

  lemma ReuseClosedExactly(orig: seq<InjectionArc>, before: Table, i: int, arcs: seq<InjectionArc>,
                           table: Table, trace: seq<Action>, fd: int)
    requires ReuseInv(orig, before, i, arcs, table, trace) && i == |orig|
    ensures fd in CloseSet(trace) <==> MustClose(orig, fd)
  {
    if MustClose(orig, fd) || fd in CloseSet(trace) {
      assert Mentioned(orig, fd);
      assert DutyKept(orig, i, arcs, CloseSet(trace), fd);
    }
  }

  lemma ReuseOutcomeAt(orig: seq<InjectionArc>, before: Table, i: int, arcs: seq<InjectionArc>,
                       table: Table, trace: seq<Action>, fd: int)
    requires ReuseInv(orig, before, i, arcs, table, trace) && i == |orig|
    ensures fd !in TempSet(trace) ==> Outcome(orig, before, table, fd)
    ensures !MustClose(orig, fd) ==>
              forall k :: 0 <= k < |orig| && orig[k].dest == fd ==> Lookup(table, fd) == Lookup(before, orig[k].source)
    ensures fd in TempSet(trace) && fd in before ==> MustClose(orig, fd)
  {
    assert DeliveredTo(orig, i, fd) <==> IsDest(orig, fd);
    ReuseClosedExactly(orig, before, i, arcs, table, trace, fd);
  }

  /**
   The effect of a successful shuffle whose temporaries may be descriptors of the map, `trace` being the
   actions it took: temporaries that were recorded are closed at the end, whatever they have become meanwhile.
   */
  ghost predicate ReuseSettled(arcs: seq<InjectionArc>, before: Table, after: Table, trace: seq<Action>) {
    var temps := Temporaries(trace);
    && (forall fd :: fd !in temps ==> Outcome(arcs, before, after, fd))
    && Distinct(temps)
    && (forall k :: 0 <= k < |temps| ==> (temps[k] in after <==> MAX_EXTRA_FDS <= k))
    && (forall k :: 0 <= k < |arcs| ==> DeliveredIfLeft(arcs, before, after, k))
    && (forall t :: t in temps && t in before ==> MustClose(arcs, t))
  }

  /** Arc k has delivered, unless its dest was closed. */
  ghost predicate DeliveredIfLeft(arcs: seq<InjectionArc>, before: Table, after: Table, k: int)
    requires 0 <= k < |arcs|
  {
    arcs[k].dest in after && !MustClose(arcs, arcs[k].dest) ==>
      Lookup(after, arcs[k].dest) == Lookup(before, arcs[k].source)
  }

  lemma ReuseAllClosed(orig: seq<InjectionArc>, before: Table, arcs: seq<InjectionArc>, table: Table,
                       trace: seq<Action>, k: nat)
    requires ReuseInv(orig, before, |orig|, arcs, table, trace)
    requires k == Min(|Temporaries(trace)|, MAX_EXTRA_FDS)
    ensures ReuseSettled(orig, before, table - Elements(Temporaries(trace)[..k]),
                         CloseAll(trace, Temporaries(trace)[..k]))
    ensures Bystanders(orig, before, table - Elements(Temporaries(trace)[..k]))
  {
    var temps := Temporaries(trace);
    var after := table - Elements(temps[..k]);
    CloseAllTemporaries(trace, temps[..k]);
    ReuseTempsOpen(orig, before, |orig|, arcs, table, trace, |temps|);
    assert temps[..|temps|] == temps;
    forall fd ensures fd in temps <==> fd in TempSet(trace) {
      SetsOfTrace(trace, fd);
    }
    forall fd ensures fd !in temps ==> Outcome(orig, before, after, fd) {
      ReuseOutcomeAt(orig, before, |orig|, arcs, table, trace, fd);
      assert fd !in temps ==> Lookup(after, fd) == Lookup(table, fd);
    }
    forall j | 0 <= j < |temps| ensures temps[j] in after <==> MAX_EXTRA_FDS <= j {
      LeftInTable(temps, k, j, table);
    }
    forall j | 0 <= j < |orig| ensures DeliveredIfLeft(orig, before, after, j) {
      ReuseOutcomeAt(orig, before, |orig|, arcs, table, trace, orig[j].dest);
    }
    forall t | t in temps && t in before ensures MustClose(orig, t) {
      ReuseOutcomeAt(orig, before, |orig|, arcs, table, trace, t);
    }
    ReuseBystanders(orig, before, |orig|, arcs, table, trace);
  }

  lemma {:induction false} CloseAllTemporaries(trace: seq<Action>, fds: seq<int>)
    ensures Temporaries(CloseAll(trace, fds)) == Temporaries(trace)
  {
    if fds != [] {
      var rest, fd := fds[..|fds| - 1], fds[|fds| - 1];
      CloseAllTemporaries(trace, rest);
      ProjectionsSnoc(CloseAll(trace, rest), Action.Close(fd));
    }
  }

  /** Of different open descriptors the first k are closed. */
  lemma LeftInTable(temps: seq<int>, k: nat, j: nat, table: Table)
    requires Distinct(temps) && k <= |temps| && j < |temps| && temps[j] in table
    ensures temps[j] in table - Elements(temps[..k]) <==> k <= j
  {
    if j < k {
      assert temps[..k][j] == temps[j];
    }
  }

  /** No temporary that was recorded, and so is closed at the end, is a dest. */
  ghost predicate NoDestRecorded(arcs: seq<InjectionArc>, temps: seq<int>) {
    forall k {:trigger temps[k]} :: 0 <= k < |temps| && k < MAX_EXTRA_FDS ==> !IsDest(arcs, temps[k])
  }

  lemma ClashClosed(arcs: seq<InjectionArc>, before: Table, after: Table, trace: seq<Action>, s: int)
    requires Injective(arcs) && ReuseSettled(arcs, before, after, trace)
    requires |Temporaries(trace)| <= MAX_EXTRA_FDS && IdentityCloseClash(arcs, s)
    ensures s !in after
  {
    assert s !in Temporaries(trace) ==> Outcome(arcs, before, after, s);
  }

  lemma DeliveredUnlessClosed(arcs: seq<InjectionArc>, before: Table, after: Table, trace: seq<Action>)
    requires Injective(arcs) && ReuseSettled(arcs, before, after, trace)
    requires NoDestRecorded(arcs, Temporaries(trace)) && forall s :: !IdentityCloseClash(arcs, s)
    ensures Delivered(arcs, before, after)
  {
    var temps := Temporaries(trace);
    forall k | 0 <= k < |arcs| ensures Lookup(after, arcs[k].dest) == Lookup(before, arcs[k].source) {
      var d := arcs[k].dest;
      assert IsDest(arcs, d) && DeliveredIfLeft(arcs, before, after, k);
      if d in temps {
        var j :| 0 <= j < |temps| && temps[j] == d;
      } else {
        assert Outcome(arcs, before, after, d);
      }
    }
  }

  /**
   With a Duplicate that may hand out descriptors of the map, all sources being open, a successful shuffle has
   the effect of all arcs at once if there is no clash and no dest was taken for a recorded temporary; and only
   then, as long as all temporaries are recorded.  A caller whose dests are all open need not think of that.
   */
  lemma DeliveredWithReuse(arcs: seq<InjectionArc>, before: Table, after: Table, trace: seq<Action>)
    requires Injective(arcs) && AllSourcesOpen(arcs, before)
    requires ReuseSettled(arcs, before, after, trace)
    ensures |Temporaries(trace)| <= MAX_EXTRA_FDS ==>
              (Delivered(arcs, before, after) <==>
                 (forall s :: !IdentityCloseClash(arcs, s)) && NoDestRecorded(arcs, Temporaries(trace)))
    ensures (forall s :: !IdentityCloseClash(arcs, s)) && NoDestRecorded(arcs, Temporaries(trace)) ==>
              Delivered(arcs, before, after)
    ensures Delivered(arcs, before, after) ==> NoDestRecorded(arcs, Temporaries(trace))
    ensures AllDestsOpen(arcs, before) && (forall s :: !IdentityCloseClash(arcs, s)) ==> Delivered(arcs, before, after)
  {
    var temps := Temporaries(trace);
    if !NoDestRecorded(arcs, temps) {
      var k :| 0 <= k < |temps| && k < MAX_EXTRA_FDS && IsDest(arcs, temps[k]);
      RecordedIsLost(arcs, before, after, trace, k);
    }
    if s :| |temps| <= MAX_EXTRA_FDS && IdentityCloseClash(arcs, s) {
      ClashIsLost(arcs, before, after, trace, s);
    }
    if forall s :: !IdentityCloseClash(arcs, s) {
      if AllDestsOpen(arcs, before) {
        OpenDestsNotTaken(arcs, before, after, trace);
      }
      if NoDestRecorded(arcs, temps) {
        DeliveredUnlessClosed(arcs, before, after, trace);
      }
    }
  }

  lemma RecordedIsLost(arcs: seq<InjectionArc>, before: Table, after: Table, trace: seq<Action>, k: nat)
    requires AllSourcesOpen(arcs, before) && ReuseSettled(arcs, before, after, trace)
    requires k < |Temporaries(trace)| && k < MAX_EXTRA_FDS && IsDest(arcs, Temporaries(trace)[k])
    ensures !Delivered(arcs, before, after)
  {
    var j :| 0 <= j < |arcs| && arcs[j].dest == Temporaries(trace)[k];
    assert Lookup(after, arcs[j].dest) != Lookup(before, arcs[j].source);
  }

  lemma ClashIsLost(arcs: seq<InjectionArc>, before: Table, after: Table, trace: seq<Action>, s: int)
    requires Injective(arcs) && AllSourcesOpen(arcs, before) && ReuseSettled(arcs, before, after, trace)
    requires |Temporaries(trace)| <= MAX_EXTRA_FDS && IdentityCloseClash(arcs, s)
    ensures !Delivered(arcs, before, after)
  {
    ClashClosed(arcs, before, after, trace, s);
    var i, j :| 0 <= i < j < |arcs| && arcs[i].Identity() && arcs[i].source == s
                && arcs[j].source == s && (arcs[i].close || arcs[j].close);
    assert Lookup(after, arcs[i].dest) != Lookup(before, arcs[i].source);
  }

  lemma OpenDestsNotTaken(arcs: seq<InjectionArc>, before: Table, after: Table, trace: seq<Action>)
    requires ReuseSettled(arcs, before, after, trace)
    requires AllDestsOpen(arcs, before) && forall s :: !IdentityCloseClash(arcs, s)
    ensures NoDestRecorded(arcs, Temporaries(trace))
  {
    var temps := Temporaries(trace);
    forall k | 0 <= k < |temps| ensures !IsDest(arcs, temps[k]) {
      var t := temps[k];
      assert t in before ==> MustClose(arcs, t);
    }
  }

  // ---------------------------------------------------------------------------------------
  // A dest that is taken
  // ---------------------------------------------------------------------------------------

  lemma {:induction false} NoMoreTemporaries(trace: seq<Action>, more: seq<Action>)
    requires forall k :: 0 <= k < |more| ==> !more[k].Duplicate?
    ensures Temporaries(trace + more) == Temporaries(trace)
  {
    if more == [] {
      assert trace + more == trace;
    } else {
      var n := |more| - 1;
      NoMoreTemporaries(trace, more[..n]);
      ProjectionsSnoc(trace + more[..n], more[n]);
      assert trace + more[..n] + [more[n]] == trace + more;
    }
  }

  lemma OneTemporary(fd: int, temp: int, more: seq<Action>)
    requires forall k :: 0 <= k < |more| ==> !more[k].Duplicate?
    ensures Temporaries([Action.Duplicate(fd, temp)] + more) == [temp]
  {
    NoMoreTemporaries([Action.Duplicate(fd, temp)], more);
    ProjectionsSnoc([], Action.Duplicate(fd, temp));
    assert [] + [Action.Duplicate(fd, temp)] == [Action.Duplicate(fd, temp)];
  }

  lemma TakenOutcome(arcs: seq<InjectionArc>, before: Table, after: Table, fd: int)
    requires arcs == [InjectionArc(0, 1, false), InjectionArc(1, 0, false), InjectionArc(5, 3, false)]
    requires 0 in before && 1 in before && 5 in before && 3 !in before
    requires after == map[0 := before[1], 1 := before[0], 5 := before[5]]
    requires before == map[0 := before[0], 1 := before[1], 5 := before[5]]
    ensures !MustClose(arcs, fd)
    ensures fd != 3 ==> Outcome(arcs, before, after, fd)
  {
    assert arcs[0].dest == 1 && arcs[1].dest == 0 && arcs[2].dest == 3;
    assert fd == 0 || fd == 1 ==> IsDest(arcs, fd);
  }

  /** Descriptor 3, not open yet, is taken for the temporary, becomes the dest of the last arc and is closed. */
  lemma DestTaken(a: OpenFile, b: OpenFile, c: OpenFile)
    ensures var arcs := [InjectionArc(0, 1, false), InjectionArc(1, 0, false), InjectionArc(5, 3, false)];
            var before, after := map[0 := a, 1 := b, 5 := c], map[0 := b, 1 := a, 5 := c];
            && AllSourcesOpen(arcs, before) && (forall s :: !IdentityCloseClash(arcs, s))
            && ReuseSettled(arcs, before, after, [Action.Duplicate(1, 3)]
                              + [Action.Move(0, 1), Action.Move(3, 0), Action.Move(5, 3), Action.Close(3)])
            && !Delivered(arcs, before, after)
  {
    var arcs := [InjectionArc(0, 1, false), InjectionArc(1, 0, false), InjectionArc(5, 3, false)];
    var before: Table, after: Table := map[0 := a, 1 := b, 5 := c], map[0 := b, 1 := a, 5 := c];
    OneTemporary(1, 3, [Action.Move(0, 1), Action.Move(3, 0), Action.Move(5, 3), Action.Close(3)]);
    forall fd ensures !MustClose(arcs, fd) && (fd != 3 ==> Outcome(arcs, before, after, fd)) {
      TakenOutcome(arcs, before, after, fd);
    }
    assert Lookup(after, arcs[2].dest) != Lookup(before, arcs[2].source);
  }
}
