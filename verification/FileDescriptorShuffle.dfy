/**
 The file-descriptor shuffle run between fork and exec: an injective multimap of
 "source -> dest, maybe close source" arcs is carried out one Duplicate, Move or Close at a
 time, rewriting the arcs still to come as it goes.  The main result is that the sequence of
 steps has the effect of performing all the arcs at once.
 */
module FileDescriptorShuffle {
  import opened Wrappers
  import opened FileDescriptorArcs
  import opened FileDescriptorReuse
  import opened FileDescriptorRuns
  import opened FileDescriptorClosing

  // ---------------------------------------------------------------------------------------
  // The delegate
  // ---------------------------------------------------------------------------------------

  /**
   The descriptor table a shuffle works on.  A call fails for a descriptor that is not open, and if `mayFail` for other
   reasons, too; a call that fails changes nothing.  `reserved` are the descriptors Duplicate must not hand out
   although they may be closed; `refused` counts the calls of Duplicate and Move that failed, `failedCloses` those of
   Close.
   */
  class InjectionDelegate {
    var table: Table
    var log: seq<Action>
    var refused: nat
    var failedCloses: nat
    const reserved: set<int>
    const mayFail: bool

    constructor (table: Table, reserved: set<int>, mayFail: bool)
      ensures this.table == table && this.reserved == reserved && this.mayFail == mayFail
      ensures log == [] && refused == 0 && failedCloses == 0
    {
      this.table, this.reserved, this.mayFail, log, refused, failedCloses := table, reserved, mayFail, [], 0, 0;
    }

    method Duplicate(fd: int) returns (ok: bool, result: int)
      modifies this`table, this`log, this`refused
      ensures !ok ==> table == old(table) && log == old(log)
      ensures refused == old(refused) + if ok then 0 else 1
      ensures !ok ==> mayFail || fd !in table
      ensures ok ==> fd in old(table)
      ensures ok ==> 0 <= result && result !in old(table) && result !in reserved
      ensures ok ==> table == old(table)[result := old(table)[fd]]
      ensures ok ==> log == old(log) + [Action.Duplicate(fd, result)]
    {
      if mayFail {
        if * {
          refused := refused + 1;
          return false, -1;
        }
      }
      if fd !in table {
        refused := refused + 1;
        return false, -1;
      }
      FreshExists(table.Keys + reserved);
      result :| 0 <= result && result !in table.Keys + reserved;
      table := table[result := table[fd]];
      log := log + [Action.Duplicate(fd, result)];
      ok := true;
    }

    method Move(src: int, dest: int) returns (ok: bool)
      modifies this`table, this`log, this`refused
      ensures !ok ==> table == old(table) && log == old(log)
      ensures refused == old(refused) + if ok then 0 else 1
      ensures !ok ==> mayFail || src !in table
      ensures ok ==> src in old(table)
      ensures ok ==> table == old(table)[dest := old(table)[src]]
      ensures ok ==> log == old(log) + [Action.Move(src, dest)]
    {
      if mayFail {
        if * {
          refused := refused + 1;
          return false;
        }
      }
      if src !in table {
        refused := refused + 1;
        return false;
      }
      table := table[dest := table[src]];
      log := log + [Action.Move(src, dest)];
      ok := true;
    }

    method Close(fd: int)
      modifies this`table, this`log, this`failedCloses
      ensures table == old(table) - {fd}
      ensures log == old(log) + [Action.Close(fd)]
      ensures failedCloses == old(failedCloses) + if fd in old(table) then 0 else 1
    {
      if fd !in table {
        failedCloses := failedCloses + 1;
      }
      table := table - {fd};
      log := log + [Action.Close(fd)];
    }
  }

  // ---------------------------------------------------------------------------------------
  // The shuffle
  // ---------------------------------------------------------------------------------------

  /** The effect of a shuffle that returned true, `trace` being the actions it took. */
  ghost predicate Settled(arcs: seq<InjectionArc>, before: Table, after: Table, trace: seq<Action>) {
    var temps := Temporaries(trace);
    && (forall fd :: fd !in temps ==> Outcome(arcs, before, after, fd))
    && SourcesOpen(arcs, before, |arcs|)
    && |temps| == OverwriteCount(arcs, |arcs|)
    && Distinct(temps)
    && (forall t :: t in temps ==> t !in before && !Mentioned(arcs, t))
    && (forall k :: 0 <= k < |temps| ==> (temps[k] in after <==> MAX_EXTRA_FDS <= k))
    && Distinct(Closes(trace))
    && (forall fd :: fd !in temps ==> (fd in Closes(trace) <==> MustClose(arcs, fd)))
    && NoReadAfterClose(trace)
  }

  /** Arc i or arc j reads s and asks for it to be closed. */
  predicate ClosesOneOf(arcs: seq<InjectionArc>, i: nat, j: nat, s: int)
    requires i < |arcs| && j < |arcs|
  {
    (arcs[i].source == s && arcs[i].close) || (arcs[j].source == s && arcs[j].close)
  }

  /**
   Arc i keeps the duty to close its source only if arc j neither overwrites nor reads that.  Whether one of the
   two closes it stays the same, unless arc j overwrites it.
   */
  method HandOffClose(m: array<InjectionArc>, i: nat, j: nat)
    requires i < j < m.Length
    modifies m
    ensures m[..] == HandedOff(old(m[..]), i, j)
    ensures m[i].close ==> old(m[i].close) && !Claims(old(m[..]), i, j)
    ensures old(m[j].dest != m[i].source) ==>
              (ClosesOneOf(m[..], i, j, m[i].source) <==> old(ClosesOneOf(m[..], i, j, m[i].source)))
  {
    if m[i].close && m[i].source == m[j].dest {
      m[i] := m[i].(close := false);
    }
    if m[i].close && m[i].source == m[j].source {
      m[i] := m[i].(close := false);
      m[j] := m[j].(close := true);
    }
  }

  /** The duplicate of fd that arc i needs, if it needs one, has been taken; else nothing has happened. */
  ghost predicate DuplicateTaken(fd: int, temp: int, table: Table, log: seq<Action>, delegate: InjectionDelegate)
    reads delegate
  {
    if temp == -1 then delegate.table == table && delegate.log == log
    else
      && fd in table && 0 <= temp && temp !in table && temp !in delegate.reserved
      && delegate.table == table[temp := table[fd]]
      && delegate.log == log + [Action.Duplicate(fd, temp)]
  }

  /** The first reader of fd has it duplicated, the others share the duplicate. */
  method DuplicateOnce(delegate: InjectionDelegate, fd: int, tempFd: int, extraFds: array<int>, nextExtraFd: nat,
                       ghost table: Table, ghost log: seq<Action>)
    returns (ok: bool, tempFd': int, nextExtraFd': nat)
    requires nextExtraFd <= extraFds.Length == MAX_EXTRA_FDS
    requires DuplicateTaken(fd, tempFd, table, log, delegate)
    modifies delegate`table, delegate`log, delegate`refused, extraFds
    ensures !ok ==> delegate.table == table && delegate.log == log && (delegate.mayFail || fd !in table)
    ensures delegate.refused == old(delegate.refused) + if ok then 0 else 1
    ensures ok ==> tempFd' != -1 && DuplicateTaken(fd, tempFd', table, log, delegate)
    ensures tempFd != -1 ==> ok && tempFd' == tempFd && nextExtraFd' == nextExtraFd && extraFds[..] == old(extraFds[..])
    ensures ok && tempFd == -1 ==> nextExtraFd' == if nextExtraFd < MAX_EXTRA_FDS then nextExtraFd + 1 else nextExtraFd
    ensures extraFds[..nextExtraFd] == old(extraFds[..nextExtraFd])
    ensures ok && nextExtraFd < nextExtraFd' ==> extraFds[nextExtraFd] == tempFd'
  {
    ok, tempFd', nextExtraFd' := true, tempFd, nextExtraFd;
    if tempFd == -1 {
      ok, tempFd' := delegate.Duplicate(fd);
      if !ok {
        return;
      }
      if nextExtraFd < MAX_EXTRA_FDS {
        extraFds[nextExtraFd] := tempFd';
        nextExtraFd' := nextExtraFd + 1;
      }
    }
  }

  /** The inner loop for arc i has come to arc j. */
  ghost predicate PassedTo(arcs: seq<InjectionArc>, i: nat, j: nat, temp: int, now: seq<InjectionArc>,
                           table: Table, log: seq<Action>, delegate: InjectionDelegate)
    reads delegate
  {
    && i < j <= |arcs| && now == Inner(arcs, i, temp, j)
    && (Hit(arcs, i, j) <==> temp != -1)
    && DuplicateTaken(arcs[i].dest, temp, table, log, delegate)
  }

  /** One turn of the inner loop. */
  method PassArc(m: array<InjectionArc>, i: nat, j: nat, delegate: InjectionDelegate, tempFd: int,
                 extraFds: array<int>, nextExtraFd: nat,
                 ghost arcs: seq<InjectionArc>, ghost table: Table, ghost log: seq<Action>)
    returns (ok: bool, tempFd': int, nextExtraFd': nat)
    requires i < j < m.Length && nextExtraFd <= extraFds.Length == MAX_EXTRA_FDS
    requires PassedTo(arcs, i, j, tempFd, m[..], table, log, delegate)
    modifies m, delegate`table, delegate`log, delegate`refused, extraFds
    ensures !ok ==> delegate.table == table && delegate.log == log
    ensures !ok ==> Hit(arcs, i, |arcs|) && (delegate.mayFail || arcs[i].dest !in table)
    ensures delegate.refused == old(delegate.refused) + if ok then 0 else 1
    ensures ok ==> PassedTo(arcs, i, j + 1, tempFd', m[..], table, log, delegate)
    ensures tempFd != -1 ==> ok && tempFd' == tempFd && nextExtraFd' == nextExtraFd && extraFds[..] == old(extraFds[..])
    ensures ok && tempFd == -1 ==>
              nextExtraFd' == if tempFd' != -1 && nextExtraFd < MAX_EXTRA_FDS then nextExtraFd + 1 else nextExtraFd
    ensures extraFds[..nextExtraFd] == old(extraFds[..nextExtraFd])
    ensures ok && nextExtraFd < nextExtraFd' ==> extraFds[nextExtraFd] == tempFd'
  {
    InnerIs(arcs, i, tempFd, j, i);
    InnerIs(arcs, i, tempFd, j, j);
    ok, tempFd', nextExtraFd' := true, tempFd, nextExtraFd;
    if m[i].source != m[i].dest && m[i].dest == m[j].source {
      ok, tempFd', nextExtraFd' := DuplicateOnce(delegate, m[i].dest, tempFd, extraFds, nextExtraFd, table, log);
      if !ok {
        return;
      }
      m[j] := m[j].(source := tempFd', close := false);
    }
    if tempFd == -1 {
      InnerSame(arcs, i, tempFd, tempFd', j);
    }
    assert m[..] == Redirect(Inner(arcs, i, tempFd', j), i, tempFd', j);
    HandOffClose(m, i, j);
  }

  /**
   The inner loop for arc i: redirects the later arcs that read arc i's dest to a duplicate of it,
   which is recorded in `extraFds` while there is room, and passes arc i's duty to close its source on.
   */
  method PassLaterArcs(m: array<InjectionArc>, i: nat, delegate: InjectionDelegate,
                       extraFds: array<int>, nextExtraFd: nat)
    returns (ok: bool, tempFd: int, nextExtraFd': nat)
    requires i < m.Length && nextExtraFd <= extraFds.Length == MAX_EXTRA_FDS
    modifies m, delegate`table, delegate`log, delegate`refused, extraFds
    ensures !ok ==> delegate.table == old(delegate.table) && delegate.log == old(delegate.log)
    ensures !ok ==> Hit(old(m[..]), i, m.Length) && (delegate.mayFail || old(m[i].dest) !in old(delegate.table))
    ensures delegate.refused == old(delegate.refused) + if ok then 0 else 1
    ensures ok ==> m[..] == Inner(old(m[..]), i, tempFd, m.Length)
    ensures ok && (old(m[i].close) ==> tempFd != old(m[i].source)) ==>
              PassedUpTo(old(m[..]), i, tempFd, m.Length, m[..])
    ensures ok && Hit(old(m[..]), i, m.Length) ==>
              && old(m[i].dest) in old(delegate.table) && 0 <= tempFd
              && tempFd !in old(delegate.table) && tempFd !in delegate.reserved
              && delegate.table == old(delegate.table)[tempFd := old(delegate.table)[old(m[i].dest)]]
              && delegate.log == old(delegate.log) + [Action.Duplicate(old(m[i].dest), tempFd)]
    ensures ok && !Hit(old(m[..]), i, m.Length) ==>
              delegate.table == old(delegate.table) && delegate.log == old(delegate.log)
    ensures ok ==> nextExtraFd' == if Hit(old(m[..]), i, m.Length) && nextExtraFd < MAX_EXTRA_FDS
                                   then nextExtraFd + 1 else nextExtraFd
    ensures ok ==> extraFds[..nextExtraFd] == old(extraFds[..nextExtraFd])
    ensures ok && nextExtraFd < nextExtraFd' ==> extraFds[nextExtraFd] == tempFd
  {
    ghost var arcs, table, log := m[..], delegate.table, delegate.log;
    ok, tempFd, nextExtraFd' := true, -1, nextExtraFd;
    var j := i + 1;
    while j < m.Length
      invariant ok && i < j <= m.Length && delegate.refused == old(delegate.refused)
      invariant PassedTo(arcs, i, j, tempFd, m[..], table, log, delegate)
      invariant nextExtraFd' == if tempFd != -1 && nextExtraFd < MAX_EXTRA_FDS then nextExtraFd + 1 else nextExtraFd
      invariant extraFds[..nextExtraFd] == old(extraFds[..nextExtraFd])
      invariant nextExtraFd < nextExtraFd' ==> extraFds[nextExtraFd] == tempFd
    {
      ghost var extra, next := extraFds[..], nextExtraFd';
      ok, tempFd, nextExtraFd' := PassArc(m, i, j, delegate, tempFd, extraFds, nextExtraFd', arcs, table, log);
      if !ok {
        return;
      }
      assert extra[..nextExtraFd] == extra[..next][..nextExtraFd];
      assert extraFds[..nextExtraFd] == extraFds[..next][..nextExtraFd];
      j := j + 1;
    }
    if arcs[i].close ==> tempFd != arcs[i].source {
      InnerIsPassed(arcs, i, tempFd, m.Length);
    }
  }

  /** The extra descriptors recorded so far are the first temporaries. */
  ghost predicate Recorded(extra: seq<int>, next: nat, temps: seq<int>) {
    && |extra| == MAX_EXTRA_FDS
    && next == Min(|temps|, MAX_EXTRA_FDS)
    && extra[..next] == temps[..next]
  }

  lemma RecordedStep(extra: seq<int>, next: nat, temps: seq<int>, extra': seq<int>, next': nat,
                     hit: bool, temp: int)
    requires Recorded(extra, next, temps) && |extra'| == |extra|
    requires next' == if hit && next < MAX_EXTRA_FDS then next + 1 else next
    requires extra'[..next] == extra[..next]
    requires next < next' ==> extra'[next] == temp
    ensures Recorded(extra', next', if hit then temps + [temp] else temps)
  {
    if next < next' {
      assert extra'[..next'] == extra'[..next] + [temp];
    }
  }

  /** A call for arc i was refused, the Duplicate at once or the Move after it; nothing else has been done. */
  ghost predicate Stopped(c: Config, i: nat, temp: int, reserved: set<int>, table: Table, log: seq<Action>)
    requires i < |c.arcs|
  {
    || (table == c.table && log == c.trace)
    || (Hit(c.arcs, i, |c.arcs|) && c.arcs[i].dest in c.table
        && 0 <= temp && temp !in c.table && temp !in reserved
        && table == c.table[temp := c.table[c.arcs[i].dest]]
        && log == c.trace + [Action.Duplicate(c.arcs[i].dest, temp)])
  }

  /** Carries out arc i: the inner loop, the Move and the Close. */
  method PerformArc(m: array<InjectionArc>, i: nat, delegate: InjectionDelegate,
                    extraFds: array<int>, nextExtraFd: nat)
    returns (ok: bool, tempFd: int, nextExtraFd': nat)
    requires i < m.Length && nextExtraFd <= extraFds.Length == MAX_EXTRA_FDS
    modifies m, delegate, extraFds
    ensures delegate.failedCloses == old(delegate.failedCloses)
    ensures delegate.refused == old(delegate.refused) + if ok then 0 else 1
    ensures !ok && !delegate.mayFail ==> Stuck(Config(old(m[..]), old(delegate.table), old(delegate.log)), i, tempFd)
    ensures ok ==> CanStep(Config(old(m[..]), old(delegate.table), old(delegate.log)), i, tempFd, delegate.reserved)
    ensures ok ==> Next(Config(old(m[..]), old(delegate.table), old(delegate.log)), i, tempFd)
                   == Config(m[..], delegate.table, delegate.log)
    ensures ok && (old(m[i].close) ==> tempFd != old(m[i].source)) ==>
              PassedUpTo(old(m[..]), i, tempFd, m.Length, m[..])
    ensures !ok ==> Stopped(Config(old(m[..]), old(delegate.table), old(delegate.log)), i, tempFd, delegate.reserved,
                            delegate.table, delegate.log)
    ensures ok ==> nextExtraFd' == if Hit(old(m[..]), i, m.Length) && nextExtraFd < MAX_EXTRA_FDS
                                   then nextExtraFd + 1 else nextExtraFd
    ensures ok ==> extraFds[..nextExtraFd] == old(extraFds[..nextExtraFd])
    ensures ok && nextExtraFd < nextExtraFd' ==> extraFds[nextExtraFd] == tempFd
  {
    ghost var arcs, table := m[..], delegate.table;
    var isIdentity := m[i].source == m[i].dest;
    ok, tempFd, nextExtraFd' := PassLaterArcs(m, i, delegate, extraFds, nextExtraFd);
    if !ok {
      return;
    }
    assert delegate.table == AfterDuplicate(arcs, i, tempFd, table);
    InnerIs(arcs, i, tempFd, m.Length, i);
    if !isIdentity {
      ok := delegate.Move(m[i].source, m[i].dest);
      if !ok {
        return;
      }
    }
    if !isIdentity && m[i].close {
      delegate.Close(m[i].source);
    }
  }

  lemma ExtendedAppend(log0: seq<Action>, trace: seq<Action>, arcs: seq<InjectionArc>, i: int,
                       temp: int, close: bool)
    requires 0 <= i < |arcs|
    ensures Extended(log0 + trace, arcs, i, temp, close) == log0 + Extended(trace, arcs, i, temp, close)
  {
    var duplicate, move := Action.Duplicate(arcs[i].dest, temp), Action.Move(arcs[i].source, arcs[i].dest);
    SnocAppend(log0, trace, duplicate);
    var trace1 := if Hit(arcs, i, |arcs|) then trace + [duplicate] else trace;
    SnocAppend(log0, trace1, move);
    var trace2 := if arcs[i].Identity() then trace1 else trace1 + [move];
    SnocAppend(log0, trace2, Action.Close(arcs[i].source));
  }

  lemma SnocAppend(log0: seq<Action>, trace: seq<Action>, a: Action)
    ensures log0 + trace + [a] == log0 + (trace + [a])
  {
  }

  /** A log that began with something else is the longer by that. */
  lemma NextAppend(log0: seq<Action>, c: Config, i: nat, temp: int, reserved: set<int>)
    requires i < |c.arcs|
    ensures Next(c.(trace := log0 + c.trace), i, temp)
         == Next(c, i, temp).(trace := log0 + Next(c, i, temp).trace)
    ensures CanStep(c.(trace := log0 + c.trace), i, temp, reserved) == CanStep(c, i, temp, reserved)
  {
    ExtendedAppend(log0, c.trace, c.arcs, i, temp, Inner(c.arcs, i, temp, |c.arcs|)[i].close);
  }

  /** The run in which Duplicate has handed out `taken` has led to these arcs, this table and this log. */
  ghost predicate Reached(orig: seq<InjectionArc>, before: Table, reserved: set<int>, taken: seq<int>,
                          arcs: seq<InjectionArc>, table: Table, log0: seq<Action>, log: seq<Action>)
  {
    && |taken| <= |orig| && Legal(orig, before, reserved, taken)
    && var c := StateAfter(orig, before, taken);
       arcs == c.arcs && table == c.table && log == log0 + c.trace
  }

  lemma ReachedNext(orig: seq<InjectionArc>, before: Table, reserved: set<int>, taken: seq<int>,
                    arcs: seq<InjectionArc>, table: Table, log0: seq<Action>, log: seq<Action>, temp: int, d: Config)
    requires Reached(orig, before, reserved, taken, arcs, table, log0, log) && |taken| < |orig|
    requires CanStep(Config(arcs, table, log), |taken|, temp, reserved)
    requires d == Next(Config(arcs, table, log), |taken|, temp)
    ensures Reached(orig, before, reserved, taken + [temp], d.arcs, d.table, log0, d.trace)
    ensures TempsOf(orig, before, taken + [temp]) ==
              if Hit(arcs, |taken|, |arcs|) then TempsOf(orig, before, taken) + [temp] else TempsOf(orig, before, taken)
  {
    var c, i := StateAfter(orig, before, taken), |taken|;
    NextAppend(log0, c, i, temp, reserved);
    StateSnoc(orig, before, reserved, taken, temp);
    ExtendedSets(arcs, i, temp, Inner(arcs, i, temp, |arcs|)[i].close, c.trace);
  }

  /** A run broke off: its last arc, and no other, met a call that was refused. */
  ghost predicate BrokenOff(orig: seq<InjectionArc>, before: Table, reserved: set<int>, taken: seq<int>,
                            table: Table, log0: seq<Action>, log: seq<Action>)
  {
    && 0 < |taken| <= |orig|
    && var n := |taken| - 1;
       && Legal(orig, before, reserved, taken[..n])
       && var c := StateAfter(orig, before, taken[..n]);
          Stopped(c.(trace := log0 + c.trace), n, taken[n], reserved, table, log)
  }

  /** A call that fails after the Duplicate leaves the temporary open, and nothing else changed. */
  lemma BystandersOnFailure(orig: seq<InjectionArc>, before: Table, reserved: set<int>, taken: seq<int>,
                            table: Table, log0: seq<Action>, log: seq<Action>)
    requires BrokenOff(orig, before, reserved, taken, table, log0, log)
    ensures Bystanders(orig, before, table) && log0 <= log
  {
    var n := |taken| - 1;
    var table0 := StateAfter(orig, before, taken[..n]).table;
    RunBystanders(orig, before, reserved, taken[..n]);
    forall b | b in before && !Mentioned(orig, b) ensures Lookup(table, b) == Lookup(before, b) {
      assert Lookup(table0, b) == Lookup(before, b);
    }
  }

  /** One turn of the outer loop, with what has been done so far. */
  method PerformNext(m: array<InjectionArc>, i: nat, delegate: InjectionDelegate,
                     extraFds: array<int>, nextExtraFd: nat,
                     ghost orig: seq<InjectionArc>, ghost before: Table, ghost log0: seq<Action>, ghost taken: seq<int>)
    returns (ok: bool, nextExtraFd': nat, ghost taken': seq<int>)
    requires i == |taken| < m.Length == |orig| && extraFds.Length == MAX_EXTRA_FDS
    requires Reached(orig, before, delegate.reserved, taken, m[..], delegate.table, log0, delegate.log)
    requires Recorded(extraFds[..], nextExtraFd, TempsOf(orig, before, taken))
    modifies m, delegate, extraFds
    ensures old(delegate.log) <= delegate.log && delegate.failedCloses == old(delegate.failedCloses)
    ensures delegate.refused == old(delegate.refused) + if ok then 0 else 1
    ensures !ok && !delegate.mayFail ==> StuckRun(orig, before, delegate.reserved, taken')
    ensures ok ==> |taken'| == i + 1
                   && Reached(orig, before, delegate.reserved, taken', m[..], delegate.table, log0, delegate.log)
    ensures ok ==> Recorded(extraFds[..], nextExtraFd', TempsOf(orig, before, taken'))
    ensures !ok ==> BrokenOff(orig, before, delegate.reserved, taken', delegate.table, log0, delegate.log)
  {
    ghost var arcs, table, log, extra := m[..], delegate.table, delegate.log, extraFds[..];
    var tempFd;
    ok, tempFd, nextExtraFd' := PerformArc(m, i, delegate, extraFds, nextExtraFd);
    taken' := taken + [tempFd];
    if !ok {
      assert taken'[..i] == taken;
      BystandersOnFailure(orig, before, delegate.reserved, taken', delegate.table, log0, delegate.log);
      return;
    }
    ReachedNext(orig, before, delegate.reserved, taken, arcs, table, log0, log, tempFd,
                Config(m[..], delegate.table, delegate.log));
    RecordedStep(extra, nextExtraFd, TempsOf(orig, before, taken), extraFds[..], nextExtraFd',
                 Hit(arcs, i, |arcs|), tempFd);
  }

  /** The outer loop: carries out the arcs in order, recording duplicates in `extraFds`. */
  method PerformArcs(m: array<InjectionArc>, delegate: InjectionDelegate, extraFds: array<int>)
    returns (ok: bool, nextExtraFd: nat, ghost taken: seq<int>)
    requires extraFds.Length == MAX_EXTRA_FDS
    modifies m, delegate, extraFds
    ensures old(delegate.log) <= delegate.log && delegate.failedCloses == old(delegate.failedCloses)
    ensures delegate.refused == old(delegate.refused) + if ok then 0 else 1
    ensures !ok && !delegate.mayFail ==> StuckRun(old(m[..]), old(delegate.table), delegate.reserved, taken)
    ensures ok ==> Complete(old(m[..]), old(delegate.table), delegate.reserved, taken)
    ensures ok ==> Reached(old(m[..]), old(delegate.table), delegate.reserved, taken,
                           m[..], delegate.table, old(delegate.log), delegate.log)
    ensures ok ==> Recorded(extraFds[..], nextExtraFd, TempsOf(old(m[..]), old(delegate.table), taken))
    ensures !ok ==> BrokenOff(old(m[..]), old(delegate.table), delegate.reserved, taken, delegate.table,
                              old(delegate.log), delegate.log)
  {
    ghost var orig, before, log0 := m[..], delegate.table, delegate.log;
    taken, nextExtraFd := [], 0;

    var i := 0;
    while i < m.Length
      invariant i == |taken| <= m.Length
      invariant Reached(orig, before, delegate.reserved, taken, m[..], delegate.table, log0, delegate.log)
      invariant log0 <= delegate.log && delegate.failedCloses == old(delegate.failedCloses)
      invariant delegate.refused == old(delegate.refused)
      invariant Recorded(extraFds[..], nextExtraFd, TempsOf(orig, before, taken))
    {
      ok, nextExtraFd, taken := PerformNext(m, i, delegate, extraFds, nextExtraFd, orig, before, log0, taken);
      if !ok {
        return;
      }
      i := i + 1;
    }
    ok := true;
  }

  /** What a successful shuffle did, `trace` being the actions it took. */
  ghost predicate Run(orig: seq<InjectionArc>, before: Table, reserved: set<int>, taken: seq<int>,
                      after: Table, trace: seq<Action>)
  {
    && Complete(orig, before, reserved, taken)
    && after == Final(orig, before, taken)
    && trace == CloseAll(StateAfter(orig, before, taken).trace, Extras(orig, before, taken))
  }

  method PerformInjectiveMultimapDestructive(m: array<InjectionArc>, delegate: InjectionDelegate)
    returns (ok: bool, ghost taken: seq<int>)
    requires Injective(m[..])
    modifies m, delegate
    ensures old(delegate.log) <= delegate.log
    ensures delegate.refused == old(delegate.refused) + if ok then 0 else 1
    ensures !delegate.mayFail ==>
              (ok || StuckRun(old(m[..]), old(delegate.table), delegate.reserved, taken))
              && (AllSourcesOpen(old(m[..]), old(delegate.table)) ==> ok)
              && (AllReserved(old(m[..]), delegate.reserved) ==>
                    (ok <==> SourcesOpen(old(m[..]), old(delegate.table), m.Length)))
    ensures !ok ==> BrokenOff(old(m[..]), old(delegate.table), delegate.reserved, taken, delegate.table,
                              old(delegate.log), delegate.log)
    ensures ok ==> Run(old(m[..]), old(delegate.table), delegate.reserved, taken,
                       delegate.table, delegate.log[|old(delegate.log)|..])
    ensures ok && AllReserved(old(m[..]), delegate.reserved) ==>
              Settled(old(m[..]), old(delegate.table), delegate.table, delegate.log[|old(delegate.log)|..])
    ensures ok && AllSourcesOpen(old(m[..]), old(delegate.table)) ==>
              ReuseSettled(old(m[..]), old(delegate.table), delegate.table, delegate.log[|old(delegate.log)|..])
    ensures delegate.failedCloses == old(delegate.failedCloses)
       <==> (ok ==> ClosesWell(old(m[..]), old(delegate.table), taken))
    ensures SafeToClose(old(m[..]), old(delegate.table), delegate.reserved) ==>
              delegate.failedCloses == old(delegate.failedCloses)
    ensures Bystanders(old(m[..]), old(delegate.table), delegate.table)
  {
    ghost var orig, before, log0 := m[..], delegate.table, delegate.log;
    var extraFds := new int[MAX_EXTRA_FDS];
    var nextExtraFd;
    ok, nextExtraFd, taken := PerformArcs(m, delegate, extraFds);
    if !ok {
      WhenStuck(orig, before, delegate.reserved, taken);
      BystandersOnFailure(orig, before, delegate.reserved, taken, delegate.table, log0, delegate.log);
      return;
    }
    ghost var extras, trace := Extras(orig, before, taken), StateAfter(orig, before, taken).trace;
    assert extraFds[..nextExtraFd] == extras by {
      assert extraFds[..][..nextExtraFd] == extraFds[..nextExtraFd];
    }
    CloseExtraFds(delegate, extraFds, nextExtraFd);
    CloseAllAppend(log0, trace, extras);
    assert delegate.log[|log0|..] == CloseAll(trace, extras);
    EndOfRun(orig, before, delegate.reserved, taken);
  }

  /** Which maps cannot get stuck. */
  lemma WhenStuck(orig: seq<InjectionArc>, before: Table, reserved: set<int>, taken: seq<int>)
    requires Injective(orig)
    ensures StuckRun(orig, before, reserved, taken) ==>
              !AllSourcesOpen(orig, before) && !(AllReserved(orig, reserved) && SourcesOpen(orig, before, |orig|))
  {
    if AllSourcesOpen(orig, before) {
      OpenNeverStuck(orig, before, reserved, taken);
    } else if AllReserved(orig, reserved) && SourcesOpen(orig, before, |orig|) {
      FreshNeverStuck(orig, before, reserved, taken);
    }
  }

  /** What is known of the end of a run. */
  lemma EndOfRun(orig: seq<InjectionArc>, before: Table, reserved: set<int>, taken: seq<int>)
    requires Injective(orig) && Complete(orig, before, reserved, taken)
    ensures var trace := CloseAll(StateAfter(orig, before, taken).trace, Extras(orig, before, taken));
            var after := Final(orig, before, taken);
            && (AllReserved(orig, reserved) ==> Settled(orig, before, after, trace))
            && (AllSourcesOpen(orig, before) ==> ReuseSettled(orig, before, after, trace))
    ensures SafeToClose(orig, before, reserved) ==> ClosesWell(orig, before, taken)
    ensures Failing(StateAfter(orig, before, taken).table, Extras(orig, before, taken)) == 0
       <==> ClosesWell(orig, before, taken)
    ensures Bystanders(orig, before, Final(orig, before, taken))
  {
    var c := StateAfter(orig, before, taken);
    RunBystanders(orig, before, reserved, taken);
    NoneFails(c.table, Extras(orig, before, taken));
    if SafeToClose(orig, before, reserved) {
      FinalLoopIsSafe(orig, before, reserved, taken);
    }
    if AllReserved(orig, reserved) {
      RunInv(orig, before, reserved, taken);
      AllClosed(orig, before, c.arcs, c.table, c.trace, |Extras(orig, before, taken)|);
    }
    if AllSourcesOpen(orig, before) {
      RunSettled(orig, before, reserved, taken);
    }
  }

  /** Closes the recorded duplicates; a call fails for each that is not open or has been closed before. */
  method CloseExtraFds(delegate: InjectionDelegate, extraFds: array<int>, nextExtraFd: nat)
    requires nextExtraFd <= extraFds.Length
    modifies delegate`table, delegate`log, delegate`failedCloses
    ensures delegate.table == old(delegate.table) - Elements(extraFds[..nextExtraFd])
    ensures delegate.log == CloseAll(old(delegate.log), extraFds[..nextExtraFd])
    ensures delegate.failedCloses ==
              old(delegate.failedCloses) + Failing(old(delegate.table), extraFds[..nextExtraFd])
  {
    for k := 0 to nextExtraFd
      invariant delegate.table == old(delegate.table) - Elements(extraFds[..k])
      invariant delegate.log == CloseAll(old(delegate.log), extraFds[..k])
      invariant delegate.failedCloses == old(delegate.failedCloses) + Failing(old(delegate.table), extraFds[..k])
    {
      delegate.Close(extraFds[k]);
      assert extraFds[..k + 1] == extraFds[..k] + [extraFds[k]];
    }
  }

  lemma AllClosed(orig: seq<InjectionArc>, before: Table, arcs: seq<InjectionArc>, table: Table,
                  trace: seq<Action>, k: nat)
    requires Inv(orig, before, |orig|, arcs, table, trace)
    requires k == Min(|Temporaries(trace)|, MAX_EXTRA_FDS)
    ensures Settled(orig, before, table - Elements(Temporaries(trace)[..k]),
                    CloseAll(trace, Temporaries(trace)[..k]))
    ensures Bystanders(orig, before, table - Elements(Temporaries(trace)[..k]))
  {
    forall fd | fd !in TempSet(trace) ensures Outcome(orig, before, table, fd) {
      OutcomeAt(orig, before, |orig|, arcs, table, trace, fd);
    }
    forall fd ensures fd in CloseSet(trace) <==> MustClose(orig, fd) {
      ClosedExactly(orig, before, |orig|, arcs, table, trace, fd);
    }
    forall fd ensures fd in CloseSet(trace) ==> Mentioned(orig, fd) {
    }
    InvBystanders(orig, before, |orig|, arcs, table, trace);
    ClosingTemps(orig, before, table, table - Elements(Temporaries(trace)[..k]), trace, k);
  }

  lemma ClosingTemps(orig: seq<InjectionArc>, before: Table, table: Table, after: Table,
                     trace: seq<Action>, k: nat)
    requires k == Min(|Temporaries(trace)|, MAX_EXTRA_FDS)
    requires after == table - Elements(Temporaries(trace)[..k])
    requires forall fd :: fd !in TempSet(trace) ==> Outcome(orig, before, table, fd)
    requires forall fd :: fd in CloseSet(trace) <==> MustClose(orig, fd)
    requires forall fd :: fd in CloseSet(trace) ==> Mentioned(orig, fd)
    requires forall fd :: fd in TempSet(trace) ==> !Mentioned(orig, fd)
    requires Tidy(trace)
    requires TempsFresh(orig, before, table, TempSet(trace))
    requires |Temporaries(trace)| == OverwriteCount(orig, |orig|)
    requires Bystanders(orig, before, table)
    requires SourcesOpen(orig, before, |orig|)
    ensures Settled(orig, before, after, CloseAll(trace, Temporaries(trace)[..k]))
    ensures Bystanders(orig, before, after)
  {
    var temps := Temporaries(trace);
    forall fd ensures (fd in temps <==> fd in TempSet(trace)) {
      SetsOfTrace(trace, fd);
    }
    CloseAllProjections(trace, temps[..k]);
    OutcomesAfter(orig, before, table, after, temps, k);
    ClosesAfter(orig, trace, temps, k);
    forall j | 0 <= j < |temps| ensures temps[j] in after <==> MAX_EXTRA_FDS <= j {
      LeftInTable(temps, k, j, table);
    }
  }

  lemma OutcomesAfter(orig: seq<InjectionArc>, before: Table, table: Table, after: Table, temps: seq<int>, k: nat)
    requires k <= |temps| && after == table - Elements(temps[..k])
    requires forall fd :: fd !in temps ==> Outcome(orig, before, table, fd)
    ensures forall fd :: fd !in temps ==> Outcome(orig, before, after, fd)
  {
    forall fd | fd !in temps ensures Outcome(orig, before, after, fd) {
      OutcomeSame(orig, before, table, after, fd);
    }
  }

  lemma ClosesAfter(orig: seq<InjectionArc>, trace: seq<Action>, temps: seq<int>, k: nat)
    requires k <= |temps| && forall fd :: fd in CloseSet(trace) <==> MustClose(orig, fd)
    requires CloseSet(CloseAll(trace, temps[..k])) == CloseSet(trace) + Elements(temps[..k])
    ensures forall fd :: fd !in temps ==> (fd in Closes(CloseAll(trace, temps[..k])) <==> MustClose(orig, fd))
  {
    forall fd | fd !in temps ensures fd in Closes(CloseAll(trace, temps[..k])) <==> MustClose(orig, fd) {
      SetsOfTrace(CloseAll(trace, temps[..k]), fd);
    }
  }

  lemma OutcomeSame(orig: seq<InjectionArc>, before: Table, table: Table, after: Table, fd: int)
    requires Outcome(orig, before, table, fd) && Lookup(after, fd) == Lookup(table, fd)
    ensures Outcome(orig, before, after, fd)
  {
  }

  lemma ClosedExactly(orig: seq<InjectionArc>, before: Table, i: int, arcs: seq<InjectionArc>,
                      table: Table, trace: seq<Action>, fd: int)
    requires Inv(orig, before, i, arcs, table, trace)
    requires i == |orig|
    ensures fd in CloseSet(trace) <==> MustClose(orig, fd)
  {
    if MustClose(orig, fd) || fd in CloseSet(trace) {
      assert Mentioned(orig, fd);
      assert DutyKept(orig, i, arcs, CloseSet(trace), fd);
    }
  }

  lemma OutcomeAt(orig: seq<InjectionArc>, before: Table, i: int, arcs: seq<InjectionArc>,
                  table: Table, trace: seq<Action>, fd: int)
    requires Inv(orig, before, i, arcs, table, trace)
    requires i == |orig|
    requires fd !in TempSet(trace)
    ensures Outcome(orig, before, table, fd)
  {
    assert DeliveredTo(orig, i, fd) <==> IsDest(orig, fd);
    ClosedExactly(orig, before, i, arcs, table, trace, fd);
  }

  lemma InvBystanders(orig: seq<InjectionArc>, before: Table, i: int, arcs: seq<InjectionArc>,
                      table: Table, trace: seq<Action>)
    requires Inv(orig, before, i, arcs, table, trace)
    ensures Bystanders(orig, before, table)
  {
    forall fd | fd in before && !Mentioned(orig, fd) ensures Lookup(table, fd) == Lookup(before, fd) {
      forall k | 0 <= k < |orig| ensures orig[k].dest != fd {
        assert Mentioned(orig, orig[k].dest);
      }
      assert !DeliveredTo(orig, i, fd);
    }
  }

  /** The same on a copy of the map, which stays as the caller gave it. */
  method PerformInjectiveMultimap(mIn: seq<InjectionArc>, delegate: InjectionDelegate)
    returns (ok: bool, ghost taken: seq<int>)
    requires Injective(mIn)
    modifies delegate
    ensures old(delegate.log) <= delegate.log
    ensures delegate.refused == old(delegate.refused) + if ok then 0 else 1
    ensures !delegate.mayFail ==>
              (ok || StuckRun(mIn, old(delegate.table), delegate.reserved, taken))
              && (AllSourcesOpen(mIn, old(delegate.table)) ==> ok)
              && (AllReserved(mIn, delegate.reserved) ==> (ok <==> SourcesOpen(mIn, old(delegate.table), |mIn|)))
    ensures !ok ==> BrokenOff(mIn, old(delegate.table), delegate.reserved, taken, delegate.table,
                              old(delegate.log), delegate.log)
    ensures ok ==> Run(mIn, old(delegate.table), delegate.reserved, taken,
                       delegate.table, delegate.log[|old(delegate.log)|..])
    ensures ok && AllReserved(mIn, delegate.reserved) ==>
              Settled(mIn, old(delegate.table), delegate.table, delegate.log[|old(delegate.log)|..])
    ensures ok && AllSourcesOpen(mIn, old(delegate.table)) ==>
              ReuseSettled(mIn, old(delegate.table), delegate.table, delegate.log[|old(delegate.log)|..])
    ensures delegate.failedCloses == old(delegate.failedCloses)
       <==> (ok ==> ClosesWell(mIn, old(delegate.table), taken))
    ensures SafeToClose(mIn, old(delegate.table), delegate.reserved) ==>
              delegate.failedCloses == old(delegate.failedCloses)
    ensures Bystanders(mIn, old(delegate.table), delegate.table)
  {
    var m := new InjectionArc[|mIn|](i requires 0 <= i < |mIn| => mIn[i]);
    assert m[..] == mIn;
    ok, taken := PerformInjectiveMultimapDestructive(m, delegate);
  }

  /** The shuffle of the process's own table, where Duplicate hands out any descriptor that is not open. */
  method ShuffleFileDescriptors(m: array<InjectionArc>, table: Table, mayFail: bool)
    returns (ok: bool, after: Table, ghost taken: seq<int>)
    requires Injective(m[..])
    modifies m
    ensures !mayFail ==>
              (ok || StuckRun(old(m[..]), table, {}, taken)) && (AllSourcesOpen(old(m[..]), table) ==> ok)
    ensures ok ==> Complete(old(m[..]), table, {}, taken) && after == Final(old(m[..]), table, taken)
    ensures ok && AllSourcesOpen(old(m[..]), table)
            && (forall s :: !IdentityCloseClash(old(m[..]), s)) && NoDestTakeable(old(m[..]), table, {}) ==>
              Delivered(old(m[..]), table, after)
    ensures Bystanders(old(m[..]), table, after)
  {
    ghost var arcs := m[..];
    var delegate := new InjectionDelegate(table, {}, mayFail);
    ok, taken := PerformInjectiveMultimapDestructive(m, delegate);
    after := delegate.table;
    if ok && AllSourcesOpen(arcs, table) {
      DeliversExactly(arcs, table, {});
    }
  }

  // ---------------------------------------------------------------------------------------
  // What a successful shuffle promises
  // ---------------------------------------------------------------------------------------

  /**
   A successful shuffle has the effect of performing every arc at once, cycles, chains and fan-out
   included, exactly when no identity arc's descriptor is also to be closed for a later arc.
   */
  lemma DeliveredUnlessClash(arcs: seq<InjectionArc>, before: Table, after: Table, trace: seq<Action>)
    requires Injective(arcs)
    requires Settled(arcs, before, after, trace)
    ensures Delivered(arcs, before, after) <==> forall s :: !IdentityCloseClash(arcs, s)
  {
    forall k | 0 <= k < |arcs|
      ensures arcs[k].dest !in Temporaries(trace) && IsDest(arcs, arcs[k].dest)
    {
      assert Mentioned(arcs, arcs[k].dest);
    }
    if s :| IdentityCloseClash(arcs, s) {
      var i, j :| 0 <= i < j < |arcs| && arcs[i].Identity() && arcs[i].source == s
                  && arcs[j].source == s && (arcs[i].close || arcs[j].close);
      assert arcs[j].dest != arcs[i].dest;
      assert Outcome(arcs, before, after, s);
      assert Lookup(after, arcs[i].dest) == None;
    } else {
      forall k | 0 <= k < |arcs| ensures Lookup(after, arcs[k].dest) == Lookup(before, arcs[k].source) {
        assert Outcome(arcs, before, after, arcs[k].dest);
      }
    }
  }

  /** Source-only descriptors go exactly when asked; everything not named in the map stays. */
  lemma SourcesClosedAsAsked(arcs: seq<InjectionArc>, before: Table, after: Table, trace: seq<Action>, fd: int)
    requires Injective(arcs)
    requires Settled(arcs, before, after, trace)
    requires !IsDest(arcs, fd) && fd !in Temporaries(trace)
    ensures CloseAsked(arcs, fd) ==> fd !in after && fd in Closes(trace)
    ensures !CloseAsked(arcs, fd) ==> Lookup(after, fd) == Lookup(before, fd) && fd !in Closes(trace)
  {
    assert Outcome(arcs, before, after, fd);
    assert !IdentityCloseClash(arcs, fd);
  }

  /** Only the duplicates beyond the recorded ones stay open, one for each overwriting arc too many. */
  lemma LeakedTemporaries(arcs: seq<InjectionArc>, before: Table, after: Table, trace: seq<Action>)
    requires Settled(arcs, before, after, trace)
    ensures |set t | t in Temporaries(trace) && t in after|
         == if OverwriteCount(arcs, |arcs|) <= 16 then 0 else OverwriteCount(arcs, |arcs|) - 16
  {
    LeftOpen(Temporaries(trace), after);
  }

  lemma LeftOpen(temps: seq<int>, after: Table)
    requires Distinct(temps)
    requires forall k :: 0 <= k < |temps| ==> (temps[k] in after <==> MAX_EXTRA_FDS <= k)
    ensures |set t | t in temps && t in after|
         == if |temps| <= MAX_EXTRA_FDS then 0 else |temps| - MAX_EXTRA_FDS
  {
    var left := set t | t in temps && t in after;
    var k := Min(|temps|, MAX_EXTRA_FDS);
    DistinctCount(temps[k..]);
    forall t ensures t in left <==> t in Elements(temps[k..]) {
      if t in left {
        var j :| 0 <= j < |temps| && temps[j] == t;
        assert temps[k..][j - k] == t;
      }
      if t in temps[k..] {
        var j :| 0 <= j < |temps[k..]| && temps[k..][j] == t;
        assert temps[k + j] == t;
      }
    }
    assert left == Elements(temps[k..]);
  }

  lemma ClashOutcome(arcs: seq<InjectionArc>, v: OpenFile, fd: int)
    requires arcs == [InjectionArc(3, 3, true), InjectionArc(3, 4, false)]
    ensures MustClose(arcs, fd) <==> fd == 3
    ensures Outcome(arcs, map[3 := v], map[4 := v], fd)
  {
    assert arcs[0].Identity() && arcs[0].source == 3 && arcs[1].source == 3 && arcs[1].dest == 4;
    assert IdentityCloseClash(arcs, 3) && IsDest(arcs, 4);
  }

  lemma ClashTrace(empty: seq<Action>, move: Action, close: Action)
    requires empty == [] && move.Move? && close.Close?
    ensures var trace := empty + [move] + [close];
            Temporaries(trace) == [] && Closes(trace) == [close.fd] && NoReadAfterClose(trace)
  {
    TidySnoc(empty, move);
    TidySnoc(empty + [move], close);
  }

  /** A clash: descriptor 3 is to stay and to be copied to 4, but is closed. */
  lemma ClashHappens(v: OpenFile)
    ensures var arcs := [InjectionArc(3, 3, true), InjectionArc(3, 4, false)];
            && Settled(arcs, map[3 := v], map[4 := v], [Action.Move(3, 4), Action.Close(3)])
            && IdentityCloseClash(arcs, 3) && !Delivered(arcs, map[3 := v], map[4 := v])
  {
    var arcs := [InjectionArc(3, 3, true), InjectionArc(3, 4, false)];
    var before: Table, after: Table := map[3 := v], map[4 := v];
    ClashTrace([], Action.Move(3, 4), Action.Close(3));
    assert [] + [Action.Move(3, 4)] + [Action.Close(3)] == [Action.Move(3, 4), Action.Close(3)];
    forall fd ensures Outcome(arcs, before, after, fd) && (MustClose(arcs, fd) <==> fd == 3) {
      ClashOutcome(arcs, v, fd);
    }
    assert arcs[0].Identity() && arcs[0].source == 3 && arcs[1].source == 3;
    assert Lookup(after, arcs[0].dest) != Lookup(before, arcs[0].source);
    assert !Overwrites(arcs, 0) && !Overwrites(arcs, 1);
  }
}
