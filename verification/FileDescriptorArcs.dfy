/**
 Arcs "source -> dest, maybe close source" that are carried out one after the other, each rewriting those
 still to come: what a shuffle means, and what each turn of its loop keeps.
 */
module FileDescriptorArcs {
  import opened Wrappers

  /** The identity of an open file description. */
  type OpenFile = nat

  type Table = map<int, OpenFile>

  datatype InjectionArc = InjectionArc(source: int, dest: int, close: bool) {
    predicate Identity() {
      source == dest
    }
  }

  datatype Action =
    | Duplicate(fd: int, result: int)
    | Move(src: int, dest: int)
    | Close(fd: int)
  {
    predicate Reads(s: int) {
      (Duplicate? && fd == s) || (Move? && src == s)
    }
  }

  const MAX_EXTRA_FDS := 16

  // ---------------------------------------------------------------------------------------
  // What a shuffle means
  // ---------------------------------------------------------------------------------------

  function Lookup(t: Table, fd: int): Option<OpenFile> {
    if fd in t then Some(t[fd]) else None
  }

  ghost predicate Injective(arcs: seq<InjectionArc>) {
    forall i, j :: 0 <= i < j < |arcs| ==> arcs[i].dest != arcs[j].dest
  }

  ghost predicate Mentioned(arcs: seq<InjectionArc>, fd: int) {
    exists k :: 0 <= k < |arcs| && (arcs[k].source == fd || arcs[k].dest == fd)
  }

  /** Every descriptor of the map is one that Duplicate must not hand out. */
  ghost predicate AllReserved(arcs: seq<InjectionArc>, reserved: set<int>) {
    forall k :: 0 <= k < |arcs| ==> arcs[k].source in reserved && arcs[k].dest in reserved
  }

  ghost predicate IsDest(arcs: seq<InjectionArc>, fd: int) {
    exists k :: 0 <= k < |arcs| && arcs[k].dest == fd
  }

  ghost predicate CloseAsked(arcs: seq<InjectionArc>, s: int) {
    exists k :: 0 <= k < |arcs| && arcs[k].source == s && arcs[k].close
  }

  /** An identity arc on s, a later arc that also reads s, and a close request on one of the two. */
  ghost predicate IdentityCloseClash(arcs: seq<InjectionArc>, s: int) {
    exists i, j :: 0 <= i < j < |arcs| && arcs[i].Identity() && arcs[i].source == s
                   && arcs[j].source == s && (arcs[i].close || arcs[j].close)
  }

  /** All arcs at once: every dest holds what its source held. */
  ghost predicate Delivered(arcs: seq<InjectionArc>, before: Table, after: Table) {
    forall k :: 0 <= k < |arcs| ==> Lookup(after, arcs[k].dest) == Lookup(before, arcs[k].source)
  }

  /** The descriptors a successful shuffle closes, temporaries aside. */
  ghost predicate MustClose(arcs: seq<InjectionArc>, s: int) {
    IdentityCloseClash(arcs, s) || (!IsDest(arcs, s) && CloseAsked(arcs, s))
  }

  /** The first i arcs had something to deliver: only an identity arc may read a closed descriptor. */
  ghost predicate SourcesOpen(arcs: seq<InjectionArc>, before: Table, i: int)
    requires 0 <= i <= |arcs|
  {
    forall k :: 0 <= k < i && !arcs[k].Identity() ==> arcs[k].source in before
  }

  /** The whole table after a successful shuffle, temporaries aside. */
  ghost predicate Outcome(arcs: seq<InjectionArc>, before: Table, after: Table, fd: int) {
    && (MustClose(arcs, fd) ==> fd !in after)
    && (!MustClose(arcs, fd) && !IsDest(arcs, fd) ==> Lookup(after, fd) == Lookup(before, fd))
    && (!MustClose(arcs, fd) ==>
          forall k :: 0 <= k < |arcs| && arcs[k].dest == fd
                      ==> Lookup(after, fd) == Lookup(before, arcs[k].source))
  }

  /** An arc whose dest some later arc still has to read. */
  ghost predicate Overwrites(arcs: seq<InjectionArc>, i: int)
    requires 0 <= i < |arcs|
  {
    !arcs[i].Identity() && exists j :: i < j < |arcs| && arcs[j].source == arcs[i].dest
  }

  ghost function OverwriteCount(arcs: seq<InjectionArc>, n: nat): (c: nat)
    requires n <= |arcs|
  {
    if n == 0 then 0
    else OverwriteCount(arcs, n - 1) + if Overwrites(arcs, n - 1) then 1 else 0
  }

  // Projections of a trace of actions

  function Temporaries(trace: seq<Action>): seq<int> {
    if trace == [] then []
    else
      Temporaries(trace[..|trace| - 1])
      + match trace[|trace| - 1] case Duplicate(_, r) => [r] case _ => []
  }

  function Closes(trace: seq<Action>): seq<int> {
    if trace == [] then []
    else
      Closes(trace[..|trace| - 1])
      + match trace[|trace| - 1] case Close(fd) => [fd] case _ => []
  }

  function TempSet(trace: seq<Action>): set<int> {
    if trace == [] then {}
    else
      TempSet(trace[..|trace| - 1])
      + match trace[|trace| - 1] case Duplicate(_, r) => {r} case _ => {}
  }

  function CloseSet(trace: seq<Action>): set<int> {
    if trace == [] then {}
    else
      CloseSet(trace[..|trace| - 1])
      + match trace[|trace| - 1] case Close(fd) => {fd} case _ => {}
  }

  lemma {:induction false} SetsOfTrace(trace: seq<Action>, fd: int)
    ensures fd in Temporaries(trace) <==> fd in TempSet(trace)
    ensures fd in Closes(trace) <==> fd in CloseSet(trace)
  {
    if trace != [] {
      SetsOfTrace(trace[..|trace| - 1], fd);
    }
  }

  ghost predicate Distinct(s: seq<int>) {
    forall i, j :: 0 <= i < j < |s| ==> s[i] != s[j]
  }

  /** Nothing reads a descriptor that was closed earlier in the trace. */
  ghost predicate NoReadAfterClose(trace: seq<Action>) {
    forall p, q :: 0 <= p < q < |trace| && trace[p].Close? ==> !trace[q].Reads(trace[p].fd)
  }

  /** Temporaries are all different, nothing is closed twice, and nothing is read once closed. */
  ghost predicate Tidy(trace: seq<Action>) {
    Distinct(Temporaries(trace)) && Distinct(Closes(trace)) && NoReadAfterClose(trace)
  }

  lemma ProjectionsSnoc(trace: seq<Action>, a: Action)
    ensures Temporaries(trace + [a]) == if a.Duplicate? then Temporaries(trace) + [a.result] else Temporaries(trace)
    ensures Closes(trace + [a]) == if a.Close? then Closes(trace) + [a.fd] else Closes(trace)
    ensures TempSet(trace + [a]) == if a.Duplicate? then TempSet(trace) + {a.result} else TempSet(trace)
    ensures CloseSet(trace + [a]) == if a.Close? then CloseSet(trace) + {a.fd} else CloseSet(trace)
  {
    assert (trace + [a])[..|trace|] == trace;
  }

  lemma NoReadSnoc(trace: seq<Action>, a: Action)
    requires NoReadAfterClose(trace)
    requires forall fd :: fd in CloseSet(trace) ==> !a.Reads(fd)
    ensures NoReadAfterClose(trace + [a])
  {
    var next := trace + [a];
    forall p, q | 0 <= p < q < |next| && next[p].Close? ensures !next[q].Reads(next[p].fd) {
      assert next[p] == trace[p];
      if q < |trace| {
        assert next[q] == trace[q];
      } else {
        ClosesMember(trace, p);
      }
    }
  }

  lemma TidySnoc(trace: seq<Action>, a: Action)
    requires Tidy(trace)
    requires forall fd :: fd in CloseSet(trace) ==> !a.Reads(fd)
    requires a.Duplicate? ==> a.result !in TempSet(trace)
    requires a.Close? ==> a.fd !in CloseSet(trace)
    ensures Tidy(trace + [a])
    ensures Temporaries(trace + [a]) == if a.Duplicate? then Temporaries(trace) + [a.result] else Temporaries(trace)
    ensures Closes(trace + [a]) == if a.Close? then Closes(trace) + [a.fd] else Closes(trace)
    ensures TempSet(trace + [a]) == if a.Duplicate? then TempSet(trace) + {a.result} else TempSet(trace)
    ensures CloseSet(trace + [a]) == if a.Close? then CloseSet(trace) + {a.fd} else CloseSet(trace)
  {
    ProjectionsSnoc(trace, a);
    NoReadSnoc(trace, a);
    if a.Duplicate? {
      SetsOfTrace(trace, a.result);
      DistinctSnoc(Temporaries(trace), a.result);
    }
    if a.Close? {
      SetsOfTrace(trace, a.fd);
      DistinctSnoc(Closes(trace), a.fd);
    }
  }

  lemma DistinctSnoc(s: seq<int>, x: int)
    requires Distinct(s) && x !in s
    ensures Distinct(s + [x])
  {
  }

  lemma {:induction false} ClosesMember(trace: seq<Action>, p: int)
    requires 0 <= p < |trace| && trace[p].Close?
    ensures trace[p].fd in CloseSet(trace)
  {
    if p < |trace| - 1 {
      ClosesMember(trace[..|trace| - 1], p);
    }
  }

  ghost function Elements(fds: seq<int>): set<int> {
    set fd | fd in fds
  }

  /** The trace once each of `fds` has been closed in turn. */
  ghost function CloseAll(trace: seq<Action>, fds: seq<int>): seq<Action> {
    if fds == [] then trace
    else CloseAll(trace, fds[..|fds| - 1]) + [Action.Close(fds[|fds| - 1])]
  }

  lemma {:induction false} CloseAllAppend(log0: seq<Action>, trace: seq<Action>, fds: seq<int>)
    ensures CloseAll(log0 + trace, fds) == log0 + CloseAll(trace, fds)
  {
    if fds != [] {
      CloseAllAppend(log0, trace, fds[..|fds| - 1]);
    }
  }

  lemma LastApart(fds: seq<int>)
    requires fds != [] && Distinct(fds)
    ensures var rest, fd := fds[..|fds| - 1], fds[|fds| - 1];
            Distinct(rest) && fd !in Elements(rest) && Elements(fds) == Elements(rest) + {fd}
  {
    assert fds == fds[..|fds| - 1] + [fds[|fds| - 1]];
  }

  lemma {:induction false} CloseAllProjections(trace: seq<Action>, fds: seq<int>)
    requires Tidy(trace) && Distinct(fds)
    requires forall fd :: fd in fds ==> fd !in CloseSet(trace)
    ensures Temporaries(CloseAll(trace, fds)) == Temporaries(trace)
    ensures CloseSet(CloseAll(trace, fds)) == CloseSet(trace) + Elements(fds)
    ensures Tidy(CloseAll(trace, fds))
  {
    if fds != [] {
      var rest, fd := fds[..|fds| - 1], fds[|fds| - 1];
      LastApart(fds);
      CloseAllProjections(trace, rest);
      TidySnoc(CloseAll(trace, rest), Action.Close(fd));
    }
  }

  lemma {:induction false} DistinctCount(s: seq<int>)
    requires Distinct(s)
    ensures |Elements(s)| == |s|
  {
    if s != [] {
      LastApart(s);
      DistinctCount(s[..|s| - 1]);
    }
  }

  /** What even a failed shuffle leaves alone. */
  ghost predicate Bystanders(arcs: seq<InjectionArc>, before: Table, after: Table) {
    forall fd :: fd in before && !Mentioned(arcs, fd) ==> Lookup(after, fd) == Lookup(before, fd)
  }

  function Min(a: int, b: int): int {
    if a < b then a else b
  }

  // ---------------------------------------------------------------------------------------
  // The invariant of the outer loop
  // ---------------------------------------------------------------------------------------

  /** Arc k reads a descriptor that one of the first i arcs has overwritten. */
  ghost predicate Redirected(orig: seq<InjectionArc>, i: int, k: int)
    requires 0 <= i <= |orig| && 0 <= k < |orig|
  {
    exists p :: 0 <= p < i && !orig[p].Identity() && orig[p].dest == orig[k].source
  }

  ghost predicate SameDests(orig: seq<InjectionArc>, arcs: seq<InjectionArc>) {
    |orig| == |arcs| && forall k :: 0 <= k < |arcs| ==> arcs[k].dest == orig[k].dest
  }

  /** The rewritten arcs: sources that were overwritten have become temporaries, owing no close. */
  ghost predicate Rewritten(orig: seq<InjectionArc>, i: int, arcs: seq<InjectionArc>, temps: set<int>) {
    && 0 <= i <= |orig| && SameDests(orig, arcs)
    && (forall t :: t in temps ==> !Mentioned(orig, t))
    && (forall k {:trigger Redirected(orig, i, k)} ::
          i <= k < |arcs| && Redirected(orig, i, k) ==> arcs[k].source in temps && !arcs[k].close)
    && (forall k {:trigger Redirected(orig, i, k)} ::
          i <= k < |arcs| && !Redirected(orig, i, k) ==> arcs[k].source == orig[k].source)
  }

  /** Every arc still to come reads the value its original source held at the start. */
  ghost predicate SourcesHold(orig: seq<InjectionArc>, before: Table, i: int,
                              arcs: seq<InjectionArc>, table: Table)
    requires 0 <= i <= |orig| == |arcs|
  {
    forall k :: i <= k < |arcs| ==> Lookup(table, arcs[k].source) == Lookup(before, orig[k].source)
  }

  /** The arcs from i on will close s if they are all carried out. */
  ghost predicate CloseDue(arcs: seq<InjectionArc>, i: int, s: int)
    requires 0 <= i
  {
    && (forall j :: i <= j < |arcs| && arcs[j].dest == s ==> arcs[j].source == s)
    && exists k :: i <= k < |arcs| && CloseDueAt(arcs, s, k)
  }

  ghost predicate CloseDueAt(arcs: seq<InjectionArc>, s: int, k: int)
    requires 0 <= k < |arcs|
  {
    && arcs[k].source == s && arcs[k].close
    && (forall j :: k < j < |arcs| ==> arcs[j].dest != s)
    && (arcs[k].dest == s ==> exists j :: k < j < |arcs| && arcs[j].source == s)
  }

  /** s is to be closed exactly if it has been or the arcs to come will close it. */
  ghost predicate DutyKept(orig: seq<InjectionArc>, i: int, arcs: seq<InjectionArc>,
                           closes: set<int>, s: int)
    requires 0 <= i
  {
    MustClose(orig, s) <==> s in closes || CloseDue(arcs, i, s)
  }

  ghost predicate Untouched(arcs: seq<InjectionArc>, k: int, closes: set<int>)
    requires 0 <= k < |arcs|
  {
    arcs[k].source !in closes && arcs[k].dest !in closes
  }

  ghost predicate ClosesOnTrack(orig: seq<InjectionArc>, i: int, arcs: seq<InjectionArc>,
                                closes: set<int>)
    requires 0 <= i <= |orig| == |arcs|
  {
    && (forall s :: s in closes ==> Mentioned(orig, s))
    && (forall s {:trigger DutyKept(orig, i, arcs, closes, s)} ::
          Mentioned(orig, s) ==> DutyKept(orig, i, arcs, closes, s))
    && (forall k :: i <= k < |arcs| ==> Untouched(arcs, k, closes))
  }

  /** One of the first i arcs has fd as its dest. */
  ghost predicate DeliveredTo(orig: seq<InjectionArc>, i: int, fd: int)
    requires 0 <= i <= |orig|
  {
    exists k :: 0 <= k < i && orig[k].dest == fd
  }

  /** The table so far: what the first i arcs delivered, less what was closed. */
  ghost predicate TableSoFar(orig: seq<InjectionArc>, before: Table, i: int, table: Table,
                             temps: set<int>, closes: set<int>)
    requires 0 <= i <= |orig|
  {
    && (forall fd :: fd in closes && fd !in temps ==> fd !in table)
    && (forall k :: 0 <= k < i && orig[k].dest !in closes
                    ==> Lookup(table, orig[k].dest) == Lookup(before, orig[k].source))
    && (forall fd {:trigger DeliveredTo(orig, i, fd)} ::
          fd !in temps && fd !in closes && !DeliveredTo(orig, i, fd) ==> Lookup(table, fd) == Lookup(before, fd))
  }

  ghost predicate TempsFresh(orig: seq<InjectionArc>, before: Table, table: Table, temps: set<int>) {
    forall t :: t in temps ==> t !in before && t in table
  }

  /** What holds of remaining arcs, table and trace when the first i of the original arcs have been carried out. */
  ghost predicate Inv(orig: seq<InjectionArc>, before: Table, i: int, arcs: seq<InjectionArc>,
                      table: Table, trace: seq<Action>)
  {
    var temps, closes := TempSet(trace), CloseSet(trace);
    && Injective(orig)
    && Rewritten(orig, i, arcs, temps)
    && SourcesHold(orig, before, i, arcs, table)
    && ClosesOnTrack(orig, i, arcs, closes)
    && TableSoFar(orig, before, i, table, temps, closes)
    && TempsFresh(orig, before, table, temps)
    && Tidy(trace)
    && SourcesOpen(orig, before, i)
    && |Temporaries(trace)| == OverwriteCount(orig, i)
  }

  lemma InvInit(orig: seq<InjectionArc>, before: Table)
    requires Injective(orig)
    ensures Inv(orig, before, 0, orig, before, [])
  {
    forall s | Mentioned(orig, s) ensures DutyKept(orig, 0, orig, {}, s) {
      MustCloseIsDue(orig, s);
    }
  }

  lemma MustCloseIsDue(orig: seq<InjectionArc>, s: int)
    requires Injective(orig)
    ensures MustClose(orig, s) <==> CloseDue(orig, 0, s)
  {
    if CloseDue(orig, 0, s) {
      var k :| 0 <= k < |orig| && CloseDueAt(orig, s, k);
      if IsDest(orig, s) {
        var d :| 0 <= d < |orig| && orig[d].dest == s;
        assert orig[d].Identity();
        assert IdentityCloseClash(orig, s);
      }
    }
    if IdentityCloseClash(orig, s) {
      var i, j :| 0 <= i < j < |orig| && orig[i].Identity() && orig[i].source == s
                  && orig[j].source == s && (orig[i].close || orig[j].close);
      assert orig[i].close ==> CloseDueAt(orig, s, i);
      assert orig[j].close ==> CloseDueAt(orig, s, j);
    } else if !IsDest(orig, s) && CloseAsked(orig, s) {
      var k :| 0 <= k < |orig| && orig[k].source == s && orig[k].close;
      assert CloseDueAt(orig, s, k);
    }
  }

  // ---------------------------------------------------------------------------------------
  // One turn of the outer loop
  // ---------------------------------------------------------------------------------------

  /** Arc k stops arc i from closing its source: it overwrites it or still has to read it. */
  ghost predicate Claims(arcs: seq<InjectionArc>, i: int, k: int)
    requires 0 <= i < |arcs| && 0 <= k < |arcs|
  {
    arcs[k].dest == arcs[i].source || arcs[k].source == arcs[i].source
  }

  ghost predicate NoClaim(arcs: seq<InjectionArc>, i: int, upTo: int)
    requires 0 <= i < |arcs| && upTo <= |arcs|
  {
    forall m :: i < m < upTo ==> !Claims(arcs, i, m)
  }

  /** Arc k, k > i, after the inner loop for arc i has passed it. */
  ghost function Passed(arcs: seq<InjectionArc>, i: int, temp: int, k: int): InjectionArc
    requires 0 <= i < k < |arcs|
  {
    if !arcs[i].Identity() && arcs[k].source == arcs[i].dest then
      InjectionArc(temp, arcs[k].dest, false)
    else if arcs[i].close && NoClaim(arcs, i, k)
            && arcs[k].dest != arcs[i].source && arcs[k].source == arcs[i].source then
      arcs[k].(close := true)
    else
      arcs[k]
  }

  /** The inner loop for arc i has passed the arcs before j. */
  ghost predicate PassedUpTo(arcs: seq<InjectionArc>, i: int, temp: int, j: int,
                             now: seq<InjectionArc>)
  {
    && 0 <= i < j <= |arcs| == |now|
    && (forall k :: 0 <= k < i ==> now[k] == arcs[k])
    && now[i] == arcs[i].(close := arcs[i].close && NoClaim(arcs, i, j))
    && (forall k :: i < k < j ==> now[k] == Passed(arcs, i, temp, k))
    && (forall k :: j <= k < |arcs| ==> now[k] == arcs[k])
  }

  /** Some arc from i + 1 up to j reads what arc i overwrites. */
  ghost predicate Hit(arcs: seq<InjectionArc>, i: int, j: int)
    requires 0 <= i < |arcs| && j <= |arcs|
  {
    !arcs[i].Identity() && exists k :: i < k < j && arcs[k].source == arcs[i].dest
  }

  /** The temporary, if arc i needed one, joins the others. */
  ghost function WithTemp(arcs: seq<InjectionArc>, i: int, temps: set<int>, temp: int): set<int>
    requires 0 <= i < |arcs|
  {
    if Hit(arcs, i, |arcs|) then temps + {temp} else temps
  }

  lemma CurrentIdentity(orig: seq<InjectionArc>, i: int, arcs: seq<InjectionArc>, temps: set<int>)
    requires Injective(orig) && Rewritten(orig, i, arcs, temps)
    requires i < |orig|
    ensures !Redirected(orig, i, i) ==> arcs[i].source == orig[i].source
    ensures arcs[i].Identity() <==> orig[i].Identity()
    ensures forall k :: i < k < |orig| ==>
              (arcs[k].source == arcs[i].dest <==> orig[k].source == orig[i].dest)
    ensures Hit(arcs, i, |arcs|) <==> Overwrites(orig, i)
  {
    assert Mentioned(orig, arcs[i].dest);
    forall k | i <= k < |orig|
      ensures arcs[k].source == arcs[i].dest <==> orig[k].source == orig[i].dest
    {
      if Redirected(orig, i, k) {
      } else {
        assert arcs[k].source == orig[k].source;
      }
    }
    assert !Redirected(orig, i, i) ==> arcs[i].source == orig[i].source;
  }

  lemma RewrittenStep(orig: seq<InjectionArc>, i: int, arcs: seq<InjectionArc>, temp: int,
                      now: seq<InjectionArc>, temps: set<int>)
    requires Injective(orig) && Rewritten(orig, i, arcs, temps) && i < |orig|
    requires PassedUpTo(arcs, i, temp, |arcs|, now)
    requires Hit(arcs, i, |arcs|) ==> !Mentioned(orig, temp)
    ensures Rewritten(orig, i + 1, now, WithTemp(arcs, i, temps, temp))
  {
    CurrentIdentity(orig, i, arcs, temps);
    forall k | i < k < |orig|
      ensures Redirected(orig, i + 1, k) ==>
                now[k].source in WithTemp(arcs, i, temps, temp) && !now[k].close
      ensures !Redirected(orig, i + 1, k) ==> now[k].source == orig[k].source
    {
      var hit := !orig[i].Identity() && orig[i].dest == orig[k].source;
      assert Redirected(orig, i + 1, k) <==> Redirected(orig, i, k) || hit;
      if Redirected(orig, i, k) {
        assert !hit;
        if Redirected(orig, i, i) {
          assert !arcs[i].close;
        } else {
          assert Mentioned(orig, arcs[i].source);
        }
      }
    }
  }

  lemma SourcesStep(orig: seq<InjectionArc>, before: Table, i: int, arcs: seq<InjectionArc>,
                    temp: int, now: seq<InjectionArc>, temps: set<int>, closes: set<int>,
                    table: Table, table1: Table, table3: Table)
    requires Injective(orig) && Rewritten(orig, i, arcs, temps) && i < |orig|
    requires TempsFresh(orig, before, table, temps)
    requires SourcesHold(orig, before, i, arcs, table)
    requires PassedUpTo(arcs, i, temp, |arcs|, now)
    requires if Hit(arcs, i, |arcs|)
             then arcs[i].dest in table && temp !in table && !Mentioned(orig, temp)
                  && table1 == table[temp := table[arcs[i].dest]]
             else table1 == table
    requires Carried(arcs, i, now, table1, table3)
    requires ClosesOnTrack(orig, i + 1, now, WithClose(arcs, i, now, closes))
    ensures SourcesHold(orig, before, i + 1, now, table3)
  {
    CurrentIdentity(orig, i, arcs, temps);
    assert Mentioned(orig, arcs[i].dest);
    forall k | i < k < |orig|
      ensures Lookup(table3, now[k].source) == Lookup(before, orig[k].source)
    {
      assert Lookup(table, arcs[k].source) == Lookup(before, orig[k].source);
      CarriedAt(arcs, i, now, table1, table3, now[k].source);
      assert Untouched(now, k, WithClose(arcs, i, now, closes));
      assert now[k] == Passed(arcs, i, temp, k);
      if !arcs[i].Identity() && arcs[k].source == arcs[i].dest {
        assert Hit(arcs, i, |arcs|);
      } else {
        assert Redirected(orig, i, k) || Mentioned(orig, arcs[k].source);
      }
    }
  }

  /** As far as closing s goes, the arcs after i are as they were. */
  ghost predicate SameFor(arcs: seq<InjectionArc>, now: seq<InjectionArc>, i: int, s: int)
    requires 0 <= i < |arcs| == |now|
  {
    forall k :: i < k < |arcs| ==>
      && now[k].dest == arcs[k].dest
      && (now[k].source == s <==> arcs[k].source == s)
  }

  lemma DueTransfer(arcs: seq<InjectionArc>, now: seq<InjectionArc>, i: int, s: int)
    requires 0 <= i < |arcs| == |now|
    requires SameFor(arcs, now, i, s)
    requires forall k :: i < k < |arcs| && arcs[k].source == s ==> now[k].close == arcs[k].close
    ensures CloseDue(arcs, i + 1, s) <==> CloseDue(now, i + 1, s)
  {
    forall k | i < k < |arcs| ensures CloseDueAt(arcs, s, k) <==> CloseDueAt(now, s, k) {
      SameDueAt(arcs, now, i, s, k);
    }
  }

  lemma SameDueAt(arcs: seq<InjectionArc>, now: seq<InjectionArc>, i: int, s: int, k: int)
    requires 0 <= i < k < |arcs| == |now|
    requires SameFor(arcs, now, i, s)
    requires arcs[k].source == s ==> now[k].close == arcs[k].close
    ensures CloseDueAt(arcs, s, k) <==> CloseDueAt(now, s, k)
  {
    if exists j :: k < j < |arcs| && arcs[j].source == s {
      var j :| k < j < |arcs| && arcs[j].source == s;
      assert now[j].source == s;
    }
  }

  lemma DueWithout(arcs: seq<InjectionArc>, i: int, s: int)
    requires 0 <= i < |arcs|
    requires arcs[i].dest == s ==> arcs[i].source == s
    ensures CloseDue(arcs, i, s) <==>
              CloseDue(arcs, i + 1, s)
              || (CloseDueAt(arcs, s, i) && forall j :: i < j < |arcs| ==> arcs[j].dest != s)
  {
  }

  /** Arc i asks for its source to be closed and arc h, the next to read it, takes the duty over. */
  lemma DueHandOff(arcs: seq<InjectionArc>, now: seq<InjectionArc>, i: int, s: int, h: int)
    requires 0 <= i < h < |arcs| == |now|
    requires SameFor(arcs, now, i, s)
    requires arcs[i].source == s && arcs[i].close && NoClaim(arcs, i, h)
    requires arcs[h].source == s && arcs[h].dest != s && now[h].close
    requires arcs[i].dest == s ==> forall j :: i < j < |arcs| ==> arcs[j].dest != s
    requires forall k :: i < k < |arcs| && k != h && arcs[k].source == s ==> now[k].close == arcs[k].close
    ensures CloseDue(arcs, i, s) <==> CloseDue(now, i + 1, s)
  {
    DueWithout(arcs, i, s);
    assert CloseDueAt(arcs, s, i) <==> forall j :: i < j < |arcs| ==> arcs[j].dest != s;
    forall j | i < j < h ensures arcs[j].dest != s && arcs[j].source != s {
      assert !Claims(arcs, i, j);
    }
    forall j | i < j < |arcs| ensures now[j].dest == arcs[j].dest {
    }
    assert (forall j :: h < j < |arcs| ==> now[j].dest != s)
      <==> (forall j :: i < j < |arcs| ==> arcs[j].dest != s) by {
      if forall j :: h < j < |arcs| ==> now[j].dest != s {
        forall j | i < j < |arcs| ensures arcs[j].dest != s {
          assert j > h ==> now[j].dest != s;
        }
      }
    }
    assert CloseDueAt(now, s, h) <==> forall j :: i < j < |arcs| ==> arcs[j].dest != s;
    forall k | i < k < |arcs| && k != h ensures CloseDueAt(arcs, s, k) <==> CloseDueAt(now, s, k) {
      SameDueAt(arcs, now, i, s, k);
    }
    assert CloseDueAt(arcs, s, h) ==> CloseDueAt(now, s, h);
  }

  /** What the inner loop leaves of the duty to close s, when s is not overwritten by arc i. */
  lemma DueStep(orig: seq<InjectionArc>, i: int, arcs: seq<InjectionArc>, temp: int,
                now: seq<InjectionArc>, s: int)
    requires Injective(orig) && SameDests(orig, arcs) && i < |orig|
    requires PassedUpTo(arcs, i, temp, |arcs|, now)
    requires Hit(arcs, i, |arcs|) ==> temp != s
    requires arcs[i].Identity() || arcs[i].dest != s
    ensures CloseDue(arcs, i, s) <==>
              CloseDue(now, i + 1, s) || (s == arcs[i].source && !arcs[i].Identity() && now[i].close)
  {
    DueWithout(arcs, i, s);
    DestOnce(orig, i, arcs);
    SameForStep(i, arcs, temp, now, s);
    if s == arcs[i].source && arcs[i].close && !NoClaim(arcs, i, |arcs|) {
      var h := FirstClaim(arcs, i, i + 1);
      assert now[h] == Passed(arcs, i, temp, h);
      forall k | i < k < |arcs| && k != h && arcs[k].source == s
        ensures now[k].close == arcs[k].close
      {
        assert now[k] == Passed(arcs, i, temp, k);
        assert Claims(arcs, i, k);
      }
      if arcs[h].dest != s {
        DueHandOff(arcs, now, i, s, h);
      } else {
        DueTransfer(arcs, now, i, s);
      }
    } else {
      forall k | i < k < |arcs| && arcs[k].source == s
        ensures now[k].close == arcs[k].close
      {
        assert now[k] == Passed(arcs, i, temp, k);
        assert s == arcs[i].source ==> Claims(arcs, i, k);
      }
      DueTransfer(arcs, now, i, s);
      if s == arcs[i].source && arcs[i].close {
        forall j | i < j < |arcs| ensures arcs[j].dest != s && arcs[j].source != s {
          assert !Claims(arcs, i, j);
        }
        assert CloseDueAt(arcs, s, i) <==> !arcs[i].Identity();
      } else {
        assert !CloseDueAt(arcs, s, i);
      }
    }
  }

  lemma DestOnce(orig: seq<InjectionArc>, i: int, arcs: seq<InjectionArc>)
    requires Injective(orig) && SameDests(orig, arcs) && 0 <= i < |orig|
    ensures forall j :: i < j < |arcs| ==> arcs[j].dest != arcs[i].dest
  {
  }

  lemma SameForStep(i: int, arcs: seq<InjectionArc>, temp: int, now: seq<InjectionArc>, s: int)
    requires PassedUpTo(arcs, i, temp, |arcs|, now)
    requires Hit(arcs, i, |arcs|) ==> temp != s
    requires arcs[i].Identity() || arcs[i].dest != s
    ensures SameFor(arcs, now, i, s)
  {
    forall k | i < k < |arcs|
      ensures now[k].dest == arcs[k].dest && (now[k].source == s <==> arcs[k].source == s)
    {
      assert now[k] == Passed(arcs, i, temp, k);
    }
  }

  lemma FirstClaim(arcs: seq<InjectionArc>, i: int, from: int) returns (h: int)
    requires 0 <= i < from <= |arcs|
    requires NoClaim(arcs, i, from) && !NoClaim(arcs, i, |arcs|)
    ensures i < h < |arcs| && NoClaim(arcs, i, h) && Claims(arcs, i, h)
    decreases |arcs| - from
  {
    if from < |arcs| && Claims(arcs, i, from) {
      h := from;
    } else {
      h := FirstClaim(arcs, i, from + 1);
    }
  }

  ghost function WithClose(arcs: seq<InjectionArc>, i: int, now: seq<InjectionArc>, closes: set<int>): set<int>
    requires 0 <= i < |arcs| == |now|
  {
    if !arcs[i].Identity() && now[i].close then closes + {arcs[i].source} else closes
  }

  lemma ClosesStep(orig: seq<InjectionArc>, i: int, arcs: seq<InjectionArc>, temp: int,
                   now: seq<InjectionArc>, temps: set<int>, closes: set<int>)
    requires Injective(orig) && Rewritten(orig, i, arcs, temps) && i < |orig|
    requires PassedUpTo(arcs, i, temp, |arcs|, now)
    requires Hit(arcs, i, |arcs|) ==> !Mentioned(orig, temp)
    requires ClosesOnTrack(orig, i, arcs, closes)
    ensures ClosesOnTrack(orig, i + 1, now, WithClose(arcs, i, now, closes))
  {
    var closes' := WithClose(arcs, i, now, closes);
    assert Untouched(arcs, i, closes);
    assert now[i].close ==> !Redirected(orig, i, i) && Mentioned(orig, arcs[i].source);
    forall s | Mentioned(orig, s)
      ensures DutyKept(orig, i + 1, now, closes', s)
    {
      assert DutyKept(orig, i, arcs, closes, s);
      if !arcs[i].Identity() && arcs[i].dest == s {
        assert !CloseDue(arcs, i, s);
        assert forall k :: i < k < |arcs| ==> now[k].source != s;
      } else {
        DueStep(orig, i, arcs, temp, now, s);
      }
    }
    forall k | i < k < |arcs|
      ensures Untouched(now, k, closes')
    {
      assert Untouched(arcs, k, closes);
      assert !arcs[i].Identity() && now[i].close ==> !Claims(arcs, i, k);
    }
  }

  /** Arc i's Move and Close, after its Duplicate left the table as `table1`. */
  ghost predicate Carried(arcs: seq<InjectionArc>, i: int, now: seq<InjectionArc>, table1: Table, table3: Table)
    requires 0 <= i < |arcs| == |now|
  {
    && (!arcs[i].Identity() ==> arcs[i].source in table1)
    && table3 == if arcs[i].Identity() then table1
                 else if now[i].close then table1[arcs[i].dest := table1[arcs[i].source]] - {arcs[i].source}
                 else table1[arcs[i].dest := table1[arcs[i].source]]
  }

  /** Where arc i leaves each descriptor. */
  lemma CarriedAt(arcs: seq<InjectionArc>, i: int, now: seq<InjectionArc>, table1: Table, table3: Table, fd: int)
    requires 0 <= i < |arcs| == |now|
    requires Carried(arcs, i, now, table1, table3)
    ensures Lookup(table3, fd) ==
              if !arcs[i].Identity() && now[i].close && fd == arcs[i].source then None
              else if fd == arcs[i].dest then Lookup(table1, arcs[i].source)
              else Lookup(table1, fd)
  {
  }

  /** A descriptor that arc i neither delivers to, closes nor creates is left alone. */
  lemma CarriedElsewhere(arcs: seq<InjectionArc>, i: int, temp: int, now: seq<InjectionArc>,
                         table: Table, table1: Table, table3: Table, fd: int)
    requires 0 <= i < |arcs| == |now|
    requires table1 == table || (arcs[i].dest in table && table1 == table[temp := table[arcs[i].dest]])
    requires Carried(arcs, i, now, table1, table3)
    requires fd == temp ==> table1 == table
    requires fd != arcs[i].dest
    requires !arcs[i].Identity() && now[i].close ==> fd != arcs[i].source
    ensures Lookup(table3, fd) == Lookup(table, fd)
  {
    CarriedAt(arcs, i, now, table1, table3, fd);
  }

  /** The temporary is none of the dests that have been delivered to and stayed open. */
  ghost predicate TempApart(orig: seq<InjectionArc>, i: int, temp: int, closes: set<int>)
    requires 0 <= i <= |orig|
  {
    forall k :: 0 <= k < i && orig[k].dest !in closes ==> orig[k].dest != temp
  }

  lemma TableStep(orig: seq<InjectionArc>, before: Table, i: int, arcs: seq<InjectionArc>, temp: int,
                  now: seq<InjectionArc>, temps: set<int>, closes: set<int>,
                  table: Table, table1: Table, table3: Table)
    requires Injective(orig) && |orig| == |arcs| == |now| && 0 <= i < |orig|
    requires arcs[i].dest == orig[i].dest
    requires Lookup(table, arcs[i].source) == Lookup(before, orig[i].source)
    requires arcs[i].dest !in closes
    requires TableSoFar(orig, before, i, table, temps, closes)
    requires if Hit(arcs, i, |arcs|)
             then arcs[i].dest in table && temp !in table
                  && table1 == table[temp := table[arcs[i].dest]]
             else table1 == table
    requires Hit(arcs, i, |arcs|) ==> temp != arcs[i].source && TempApart(orig, i, temp, closes)
    requires Carried(arcs, i, now, table1, table3)
    ensures TableSoFar(orig, before, i + 1, table3, WithTemp(arcs, i, temps, temp), WithClose(arcs, i, now, closes))
  {
    var closes' := WithClose(arcs, i, now, closes);
    var temps' := WithTemp(arcs, i, temps, temp);
    var closing := !arcs[i].Identity() && now[i].close;
    assert forall fd :: fd in closes' <==> fd in closes || (closing && fd == arcs[i].source);
    assert forall fd :: fd in temps' <==> fd in temps || (Hit(arcs, i, |arcs|) && fd == temp);
    forall fd | fd in closes' && fd !in temps' ensures fd !in table3 {
      if closing && fd == arcs[i].source {
        CarriedAt(arcs, i, now, table1, table3, fd);
      } else {
        CarriedElsewhere(arcs, i, temp, now, table, table1, table3, fd);
      }
    }
    forall k | 0 <= k < i + 1 && orig[k].dest !in closes'
      ensures Lookup(table3, orig[k].dest) == Lookup(before, orig[k].source)
    {
      if k < i {
        CarriedElsewhere(arcs, i, temp, now, table, table1, table3, orig[k].dest);
      } else {
        CarriedAt(arcs, i, now, table1, table3, orig[k].dest);
      }
    }
    forall fd | fd !in temps' && fd !in closes' && !DeliveredTo(orig, i + 1, fd)
      ensures Lookup(table3, fd) == Lookup(before, fd)
    {
      assert orig[i].dest != fd;
      assert !DeliveredTo(orig, i, fd);
      CarriedElsewhere(arcs, i, temp, now, table, table1, table3, fd);
    }
  }

  lemma TempsStep(orig: seq<InjectionArc>, before: Table, i: int, arcs: seq<InjectionArc>, temp: int,
                  now: seq<InjectionArc>, temps: set<int>, closes: set<int>,
                  table: Table, table1: Table, table3: Table)
    requires Injective(orig) && Rewritten(orig, i, arcs, temps) && i < |orig| == |now|
    requires now[i].close ==> Mentioned(orig, arcs[i].source)
    requires TempsFresh(orig, before, table, temps)
    requires forall s :: s in closes ==> Mentioned(orig, s)
    requires TableSoFar(orig, before, i, table, temps, closes)
    requires if Hit(arcs, i, |arcs|)
             then arcs[i].dest in table && temp !in table && !Mentioned(orig, temp)
                  && table1 == table[temp := table[arcs[i].dest]]
             else table1 == table
    requires Carried(arcs, i, now, table1, table3)
    ensures TempsFresh(orig, before, table3, WithTemp(arcs, i, temps, temp))
  {
    if Hit(arcs, i, |arcs|) {
      assert temp !in temps;
      forall k | 0 <= k < i ensures orig[k].dest != temp {
        assert Mentioned(orig, orig[k].dest);
      }
      assert !DeliveredTo(orig, i, temp);
      assert Lookup(table, temp) == Lookup(before, temp);
    }
    forall t | t in WithTemp(arcs, i, temps, temp) ensures t in table3 {
      CarriedAt(arcs, i, now, table1, table3, t);
    }
  }

  /** The trace once arc i has been carried out. */
  ghost function Extended(trace: seq<Action>, arcs: seq<InjectionArc>, i: int, temp: int,
                          close: bool): seq<Action>
    requires 0 <= i < |arcs|
  {
    var trace1 := if Hit(arcs, i, |arcs|) then trace + [Action.Duplicate(arcs[i].dest, temp)] else trace;
    var trace2 := if arcs[i].Identity() then trace1 else trace1 + [Action.Move(arcs[i].source, arcs[i].dest)];
    if !arcs[i].Identity() && close then trace2 + [Action.Close(arcs[i].source)] else trace2
  }

  lemma TraceStep(arcs: seq<InjectionArc>, i: int, temp: int, now: seq<InjectionArc>, trace: seq<Action>)
    requires 0 <= i < |arcs| == |now|
    requires Tidy(trace)
    requires Hit(arcs, i, |arcs|) ==> temp !in TempSet(trace)
    requires arcs[i].source !in CloseSet(trace) && arcs[i].dest !in CloseSet(trace)
    ensures var trace' := Extended(trace, arcs, i, temp, now[i].close);
            && TempSet(trace') == WithTemp(arcs, i, TempSet(trace), temp)
            && CloseSet(trace') == WithClose(arcs, i, now, CloseSet(trace))
            && Tidy(trace')
            && Temporaries(trace') ==
                 if Hit(arcs, i, |arcs|) then Temporaries(trace) + [temp] else Temporaries(trace)
  {
    var trace1 := trace;
    if Hit(arcs, i, |arcs|) {
      TidySnoc(trace, Action.Duplicate(arcs[i].dest, temp));
      trace1 := trace + [Action.Duplicate(arcs[i].dest, temp)];
    }
    if !arcs[i].Identity() {
      TidySnoc(trace1, Action.Move(arcs[i].source, arcs[i].dest));
      TidySnoc(trace1 + [Action.Move(arcs[i].source, arcs[i].dest)], Action.Close(arcs[i].source));
    }
  }

  /** What arc i reads, and what its temporary differs from. */
  lemma BeforeStep(orig: seq<InjectionArc>, before: Table, i: int, arcs: seq<InjectionArc>, temp: int,
                   table: Table, trace: seq<Action>)
    requires Inv(orig, before, i, arcs, table, trace) && i < |orig|
    requires Hit(arcs, i, |arcs|) ==> temp !in table && !Mentioned(orig, temp)
    ensures Untouched(arcs, i, CloseSet(trace))
    ensures arcs[i].close ==> Mentioned(orig, arcs[i].source)
    ensures Lookup(table, arcs[i].source) == Lookup(before, orig[i].source)
    ensures Hit(arcs, i, |arcs|) ==> temp != arcs[i].source && TempApart(orig, i, temp, CloseSet(trace))
  {
    assert !Redirected(orig, i, i) ==> Mentioned(orig, arcs[i].source);
    forall k | 0 <= k < i ensures Mentioned(orig, orig[k].dest) {
    }
  }

  lemma StepKeepsInv(orig: seq<InjectionArc>, before: Table, i: int, arcs: seq<InjectionArc>, temp: int,
                     now: seq<InjectionArc>, table: Table, table1: Table, table3: Table, trace: seq<Action>)
    requires Inv(orig, before, i, arcs, table, trace) && i < |orig|
    requires PassedUpTo(arcs, i, temp, |arcs|, now)
    requires if Hit(arcs, i, |arcs|)
             then arcs[i].dest in table && temp !in table && !Mentioned(orig, temp)
                  && table1 == table[temp := table[arcs[i].dest]]
             else table1 == table
    requires Carried(arcs, i, now, table1, table3)
    ensures Inv(orig, before, i + 1, now, table3,
                Extended(trace, arcs, i, temp, now[i].close))
  {
    var temps, closes := TempSet(trace), CloseSet(trace);
    BeforeStep(orig, before, i, arcs, temp, table, trace);
    CurrentIdentity(orig, i, arcs, temps);
    TraceStep(arcs, i, temp, now, trace);
    RewrittenStep(orig, i, arcs, temp, now, temps);
    ClosesStep(orig, i, arcs, temp, now, temps, closes);
    TableStep(orig, before, i, arcs, temp, now, temps, closes, table, table1, table3);
    TempsStep(orig, before, i, arcs, temp, now, temps, closes, table, table1, table3);
    SourcesStep(orig, before, i, arcs, temp, now, temps, closes, table, table1, table3);
    assert SourcesOpen(orig, before, i + 1);
  }

  /** Arc j, if it reads what arc i overwrites, reads the temporary instead and closes nothing. */
  function Redirect(arcs: seq<InjectionArc>, i: nat, temp: int, j: nat): seq<InjectionArc>
    requires i < j < |arcs|
  {
    if !arcs[i].Identity() && arcs[j].source == arcs[i].dest then arcs[j := InjectionArc(temp, arcs[j].dest, false)]
    else arcs
  }

  /** What HandOffClose makes of the arcs. */
  function HandedOff(arcs: seq<InjectionArc>, i: nat, j: nat): seq<InjectionArc>
    requires i < j < |arcs|
  {
    if !arcs[i].close then arcs
    else if arcs[i].source == arcs[j].dest then arcs[i := arcs[i].(close := false)]
    else if arcs[i].source == arcs[j].source then
      arcs[i := arcs[i].(close := false)][j := arcs[j].(close := true)]
    else arcs
  }

  /** One turn of the inner loop: redirecting arc j if it is hit, then settling the close duty. */
  lemma PassedAdvance(arcs: seq<InjectionArc>, i: int, temp: int, j: int, now: seq<InjectionArc>)
    requires PassedUpTo(arcs, i, temp, j, now) && j < |arcs|
    requires Hit(arcs, i, j + 1) ==> temp != arcs[i].source || !arcs[i].close
    ensures PassedUpTo(arcs, i, temp, j + 1, HandedOff(Redirect(now, i, temp, j), i, j))
  {
    assert now[j] == arcs[j];
    assert NoClaim(arcs, i, j + 1) <==> NoClaim(arcs, i, j) && !Claims(arcs, i, j);
    if !arcs[i].Identity() && arcs[j].source == arcs[i].dest {
      assert Hit(arcs, i, j + 1);
    }
  }
}
