/**
 The directory enumerator and the file utilities built on it, on paths and against the system calls
 of FileSystem.Disk.
 */
module FileUtil {
  import opened Wrappers
  import opened FilePath
  import opened FileSystem
  import opened FileTraversal

  predicate IsDot(path: string) {
    BaseName(path) == CURRENT_DIRECTORY
  }

  predicate IsDotDot(path: string) {
    BaseName(path) == PARENT_DIRECTORY
  }

  predicate ShouldSkip(path: string) {
    IsDot(path) || IsDotDot(path)
  }

  lemma ShouldSkipAppended(path: string, name: string)
    requires path != "" && IsName(name)
    ensures ShouldSkip(Append(path, name)) <==> name == "." || name == ".."
  {
    BaseNameOfAppend(path, name);
  }

  function Locations(paths: seq<string>): seq<Location> {
    seq(|paths|, i requires 0 <= i < |paths| => Resolve(paths[i]))
  }

  ghost predicate AllNamed(entries: seq<Entry>) {
    forall i {:trigger entries[i]} :: 0 <= i < |entries| ==> IsName(entries[i].name)
  }

  lemma ListedAreNamed(t: Tree, d: Location, entries: seq<Entry>, faulty: bool)
    requires IsTree(t) && d != [] && Lists(t, d, entries, faulty)
    ensures AllNamed(entries)
  {
    forall i | 0 <= i < |entries| ensures IsName(entries[i].name) {
      var l := d + [entries[i].name];
      assert l in t ==> Rooted(t, l);
    }
  }

  /** What one entry of a directory adds to the queue and to the stack. */
  function Wanted(e: Entry, mask: Mask): seq<Entry> {
    if Skipped(e.name) || !Matches(mask, e.node) then [] else [e]
  }

  lemma KeptSnoc(entries: seq<Entry>, i: nat, mask: Mask)
    requires i < |entries|
    ensures Kept(entries[..i + 1], mask) == Kept(entries[..i], mask) + Wanted(entries[i], mask)
  {
    assert entries[..i + 1][..i] == entries[..i];
  }

  function Pushed(recursive: bool, dir: Location, subdirectories: seq<Entry>): seq<Location> {
    if recursive then Under(dir, subdirectories) else []
  }

  lemma PushedSnoc(recursive: bool, dir: Location, entries: seq<Entry>, more: seq<Entry>)
    ensures Pushed(recursive, dir, entries + more) == Pushed(recursive, dir, entries) + Pushed(recursive, dir, more)
  {
    var all, parts := Under(dir, entries + more), Under(dir, entries) + Under(dir, more);
    forall i | 0 <= i < |all| ensures all[i] == parts[i] {
      assert i >= |entries| ==> (entries + more)[i] == more[i - |entries|];
    }
    assert all == parts;
  }

  /** What entry i adds makes the first i entries into the first i + 1. */
  lemma AddedStep(entries: seq<Entry>, i: nat, mask: Mask, recursive: bool, dir: Location,
                  queue: seq<Entry>, locations: seq<Location>)
    requires i < |entries|
    ensures queue + Kept(entries[..i], mask) + Wanted(entries[i], mask) == queue + Kept(entries[..i + 1], mask)
    ensures locations + Pushed(recursive, dir, Kept(entries[..i], SUBDIRECTORIES))
              + Pushed(recursive, dir, Wanted(entries[i], SUBDIRECTORIES))
         == locations + Pushed(recursive, dir, Kept(entries[..i + 1], SUBDIRECTORIES))
  {
    KeptSnoc(entries, i, mask);
    KeptSnoc(entries, i, SUBDIRECTORIES);
    PushedSnoc(recursive, dir, Kept(entries[..i], SUBDIRECTORIES), Wanted(entries[i], SUBDIRECTORIES));
  }

  /** The paths one entry of a directory adds to the stack. */
  function PathsAdded(recursive: bool, fullPath: string, e: Entry): seq<string> {
    if recursive && e.node.Directory? && !Skipped(e.name) then [fullPath] else []
  }

  lemma PushedOne(recursive: bool, dir: Location, pending: seq<string>, fullPath: string, e: Entry)
    requires Resolve(fullPath) == dir + [e.name] || Skipped(e.name)
    ensures Locations(pending + PathsAdded(recursive, fullPath, e))
         == Locations(pending) + Pushed(recursive, dir, Wanted(e, SUBDIRECTORIES))
  {
    if recursive && e.node.Directory? && !Skipped(e.name) {
      LocationsSnoc(pending, fullPath);
      assert Under(dir, [e]) == [dir + [e.name]];
    } else {
      assert Under(dir, []) == [];
      assert pending + [] == pending;
    }
  }

  lemma LocationsSnoc(paths: seq<string>, path: string)
    ensures Locations(paths + [path]) == Locations(paths) + [Resolve(path)]
  {
  }

  class FileEnumerator {
    var rootPath: string
    const recursive: bool
    const fileType: Mask
    var directoryEntries: seq<Entry>
    var currentDirectoryEntry: nat
    var pendingPaths: seq<string>
    /** Where the enumeration started. */
    ghost const start: Location

    /** The walk whose queue begins with entry i of the current directory. */
    ghost function WalkFrom(i: nat): Walk
      reads this
    {
      Walk(Resolve(rootPath), if i <= |directoryEntries| then directoryEntries[i..] else [], Locations(pendingPaths),
           directoryEntries != [], recursive, fileType)
    }

    /** The walk that remains after the entry returned last. */
    ghost function Ahead(): Walk
      reads this
    {
      WalkFrom(currentDirectoryEntry + 1)
    }

    ghost predicate Valid(t: Tree, faulty: bool)
      reads this
    {
      start != [] && Sound(t, Ahead(), start, faulty)
    }

    constructor (rootPath: string, recursive: bool, fileType: Mask)
      ensures start == Resolve(rootPath) && this.recursive == recursive && this.fileType == fileType
      ensures Ahead() == Walk(start, [], [start], false, recursive, fileType)
    {
      this.rootPath, this.recursive, this.fileType := rootPath, recursive, fileType;
      directoryEntries, currentDirectoryEntry := [], 0;
      pendingPaths := [rootPath];
      start := Resolve(rootPath);
      new;
      assert Locations(pendingPaths) == [start];
    }

    /** The path of an entry, and whether it is passed over. */
    method FullPath(e: Entry) returns (fullPath: string, skip: bool)
      requires rootPath != "" && IsName(e.name)
      ensures Resolve(fullPath) == Resolve(rootPath) + [e.name] || Skipped(e.name)
      ensures skip <==> Skipped(e.name)
    {
      fullPath := Append(rootPath, e.name);
      skip := ShouldSkip(fullPath);
      ShouldSkipAppended(rootPath, e.name);
      if !skip {
        ResolveAppend(rootPath, e.name);
      }
    }

    /** One entry that was read: a subdirectory goes onto the stack, a wanted entry into the queue. */
    method AddEntry(e: Entry, fullPath: string, skip: bool)
      requires skip <==> Skipped(e.name)
      modifies this`directoryEntries, this`pendingPaths
      ensures directoryEntries == old(directoryEntries) + Wanted(e, fileType)
      ensures pendingPaths == old(pendingPaths) + PathsAdded(recursive, fullPath, e)
    {
      if !skip {
        if recursive && e.node.Directory? {
          pendingPaths := pendingPaths + [fullPath];
        }
        if (e.node.Directory? && fileType.directories) || (e.node.File? && fileType.files) {
          directoryEntries := directoryEntries + [e];
        }
      }
    }

    method AddEntries(entries: seq<Entry>)
      requires rootPath != "" && AllNamed(entries)
      modifies this`directoryEntries, this`pendingPaths
      ensures directoryEntries == old(directoryEntries) + Kept(entries, fileType)
      ensures Locations(pendingPaths)
           == old(Locations(pendingPaths)) + Pushed(recursive, Resolve(rootPath), Kept(entries, SUBDIRECTORIES))
    {
      ghost var dir, queue, locations := Resolve(rootPath), directoryEntries, Locations(pendingPaths);
      var i := 0;
      assert entries[..0] == [];
      while i < |entries|
        invariant i <= |entries|
        invariant directoryEntries == queue + Kept(entries[..i], fileType)
        invariant Locations(pendingPaths) == locations + Pushed(recursive, dir, Kept(entries[..i], SUBDIRECTORIES))
      {
        var fullPath, skip := FullPath(entries[i]);
        PushedOne(recursive, dir, pendingPaths, fullPath, entries[i]);
        AddedStep(entries, i, fileType, recursive, dir, queue, locations);
        AddEntry(entries[i], fullPath, skip);
        i := i + 1;
      }
      assert entries[..|entries|] == entries;
    }

    method Pop()
      requires pendingPaths != []
      modifies this`rootPath, this`pendingPaths
      ensures Resolve(rootPath) == old(Locations(pendingPaths)[|pendingPaths| - 1])
      ensures Locations(pendingPaths) == old(Locations(pendingPaths)[..|pendingPaths| - 1])
    {
      var top := pendingPaths[|pendingPaths| - 1];
      rootPath := Stripped(top);
      StrippedResolves(top);
      pendingPaths := pendingPaths[..|pendingPaths| - 1];
    }

    /** Make the entries that were read, if any, those of the current directory. */
    method Load(ok: bool, entries: seq<Entry>)
      requires ok ==> rootPath != "" && AllNamed(entries)
      modifies this`directoryEntries, this`pendingPaths, this`currentDirectoryEntry
      ensures !ok ==> unchanged(this)
      ensures ok ==> currentDirectoryEntry == 0 && directoryEntries == Kept(entries, fileType)
      ensures ok ==> Locations(pendingPaths)
                     == old(Locations(pendingPaths))
                        + Pushed(recursive, Resolve(rootPath), Kept(entries, SUBDIRECTORIES))
    {
      if ok {
        directoryEntries := [];
        currentDirectoryEntry := 0;
        AddEntries(entries);
      }
    }

    /** One turn of the loop in Next: read the directory on top of the stack. */
    method ReadNext(disk: Disk) returns (ghost ok: bool, ghost entries: seq<Entry>)
      requires disk.Valid()
      requires currentDirectoryEntry >= |directoryEntries| && pendingPaths != []
      modifies this
      ensures WellRead(disk.nodes, old(WalkFrom(currentDirectoryEntry)), disk.faulty, ok, entries)
      ensures WalkFrom(currentDirectoryEntry) == AfterRead(old(WalkFrom(currentDirectoryEntry)), ok, entries)
    {
      Pop();
      var success, found := ReadNamed(disk, rootPath);
      ok, entries := success, found;
      Load(success, found);
      assert success ==> directoryEntries[0..] == directoryEntries;
    }

    /** `path` is that of the entry returned last. */
    ghost predicate At(t: Tree, path: string, faulty: bool)
      reads this
    {
      var dir := Resolve(rootPath);
      && currentDirectoryEntry < |directoryEntries| && rootPath != ""
      && var e := directoryEntries[currentDirectoryEntry];
         && IsEntryName(e.name) && path == Append(rootPath, e.name) && Resolve(path) == dir + [e.name]
         && Present(t, dir, e, faulty) && Matches(fileType, e.node)
    }

    lemma AtLeads(t: Tree, path: string, faulty: bool)
      requires At(t, path, faulty)
      ensures path != "" && Leads(t, path) && RemovablePath(path)
    {
      LeadsAppended(t, rootPath, directoryEntries[currentDirectoryEntry].name);
    }

    /** What reading the directory recorded of the entry returned last. */
    method GetFindInfo(ghost t: Tree, ghost path: string, ghost faulty: bool) returns (info: Entry)
      requires At(t, path, faulty)
      ensures Matches(fileType, info.node)
      ensures Resolve(path) in t && (info.node == t[Resolve(path)] || (faulty && info.node == File(0)))
    {
      info := directoryEntries[currentDirectoryEntry];
    }

    /**
     The next entry, or "" when there is none.  An enumerator returns the entries of a directory
     together, and only then goes on to directories further in.
     */
    method Next(disk: Disk) returns (path: string)
      requires disk.Valid() && Valid(disk.nodes, disk.faulty)
      modifies this
      ensures Returned(disk.nodes, old(Ahead()), Ahead(), path, start, disk.faulty)
      ensures path != "" ==> At(disk.nodes, path, disk.faulty)
    {
      ghost var t, faulty, before := disk.nodes, disk.faulty, Ahead();
      currentDirectoryEntry := currentDirectoryEntry + 1;
      KeepsItself(t, before, start, faulty);
      while currentDirectoryEntry >= |directoryEntries|
        invariant OnTrack(t, before, WalkFrom(currentDirectoryEntry), start, faulty)
        decreases Unread(t, WalkFrom(currentDirectoryEntry)), |pendingPaths|
      {
        ghost var w := WalkFrom(currentDirectoryEntry);
        if pendingPaths == [] {
          NothingAhead(t, before, w, start, faulty);
          assert Ahead() == w;
          return "";
        }
        ghost var ok, entries := ReadNext(disk);
        StepKeepsTrack(t, before, w, start, faulty, ok, entries);
      }
      path := ReturnEntry(t, before, faulty);
    }

    method ReturnEntry(ghost t: Tree, ghost before: Walk, ghost faulty: bool) returns (path: string)
      requires IsTree(t) && start != [] && currentDirectoryEntry < |directoryEntries|
      requires OnTrack(t, before, WalkFrom(currentDirectoryEntry), start, faulty)
      ensures Returned(t, before, Ahead(), path, start, faulty)
      ensures path != "" && At(t, path, faulty)
    {
      ghost var w := WalkFrom(currentDirectoryEntry);
      assert Ahead() == Tail(w);
      var e := directoryEntries[currentDirectoryEntry];
      assert e == w.queue[0];
      FrontReturned(t, before, w, start, faulty);
      path := Append(rootPath, e.name);
      LeadsAppended(t, rootPath, e.name);
    }
  }

  /** One entry has been taken out of what was left, before anything from a directory further in. */
  ghost predicate Took(t: Tree, before: Walk, after: Walk, l: Location, start: Location, faulty: bool)
    requires l != []
  {
    && after.started && Parent(l) == after.dir && l in t && Below(start, l)
    && l in Remaining(t, before) && Remaining(t, after) <= Remaining(t, before) - {l}
    && Left(t, after) <= Left(t, before) - {l}
    && (!faulty ==> l in Left(t, before) && Left(t, after) == Left(t, before) - {l})
    && NoneOutside(Left(t, after), Parent(l))
    && (before.started && Parent(l) != before.dir ==> NoneIn(Left(t, after), before.dir))
  }

  /** What a call of Next that returned `path` has done to the walk. */
  ghost predicate Returned(t: Tree, before: Walk, after: Walk, path: string, start: Location, faulty: bool) {
    var left := Left(t, before);
    && Sound(t, after, start, faulty)
    && after.recursive == before.recursive && after.mask == before.mask
    && (path == "" ==> Remaining(t, after) == {} && (!faulty ==> left == {}))
    && (path != "" ==> Took(t, before, after, Resolve(path), start, faulty))
  }

  lemma FrontReturned(t: Tree, before: Walk, w: Walk, start: Location, faulty: bool)
    requires IsTree(t) && start != [] && w.queue != []
    requires OnTrack(t, before, w, start, faulty)
    ensures Sound(t, Tail(w), start, faulty)
    ensures Took(t, before, Tail(w), Front(w), start, faulty)
    ensures Present(t, w.dir, w.queue[0], faulty) && Matches(w.mask, w.queue[0].node)
    ensures IsEntryName(w.queue[0].name) && w.dir[0] != ""
  {
    TailSound(t, w, start, faulty);
    assert Front(w)[|Front(w)| - 1] == w.queue[0].name && Parent(Front(w)) == w.dir;
    assert AtOrBelow(start, w.dir) && Present(t, w.dir, w.queue[0], faulty);
    assert |Front(w)| > 1 && Front(w)[0] == w.dir[0];
    assert Rooted(t, Front(w));
    assert IsEntryName(Front(w)[|Front(w)| - 1]);
    forall l | l in Left(t, Tail(w)) ensures l != [] && !Below(Parent(l), w.dir) {
      NoneAround(Tail(w), l);
    }
  }

  /** None of the locations is an entry of a directory around `dir`. */
  ghost predicate NoneOutside(left: set<Location>, dir: Location) {
    forall l :: l in left ==> l != [] && !Below(Parent(l), dir)
  }

  ghost predicate NoneIn(left: set<Location>, dir: Location) {
    forall l :: l in left ==> l != [] && Parent(l) != dir
  }

  /** The walk `w` has come soundly from `before`, with nothing returned, and lost only if calls fail. */
  ghost predicate OnTrack(t: Tree, before: Walk, w: Walk, start: Location, faulty: bool) {
    var left := Left(t, w);
    && Sound(t, w, start, faulty)
    && w.recursive == before.recursive && w.mask == before.mask
    && Remaining(t, w) <= Remaining(t, before)
    && left <= Left(t, before)
    && (!faulty ==> left == Left(t, before))
    && (before.started && w != before ==> NoneIn(left, before.dir))
  }

  lemma KeepsItself(t: Tree, w: Walk, start: Location, faulty: bool)
    requires Sound(t, w, start, faulty)
    ensures OnTrack(t, w, w, start, faulty)
  {
  }

  method ReadNamed(disk: Disk, path: string) returns (ok: bool, entries: seq<Entry>)
    requires disk.Valid()
    ensures ok ==> path != "" && AllNamed(entries)
    ensures WellReadAt(disk.nodes, Resolve(path), disk.faulty, ok, entries)
  {
    ok, entries := disk.ReadDirectory(path);
    if ok {
      ListedAreNamed(disk.nodes, Resolve(path), entries, disk.faulty);
      assert Rooted(disk.nodes, Resolve(path));
    }
  }

  /** The answer of ReadDirectory fits the directory. */
  ghost predicate WellReadAt(t: Tree, dir: Location, faulty: bool, ok: bool, entries: seq<Entry>) {
    var there := IsDirectory(t, dir);
    && (ok ==> there && Lists(t, dir, entries, faulty))
    && (!faulty && there ==> ok)
  }

  ghost predicate WellRead(t: Tree, w: Walk, faulty: bool, ok: bool, entries: seq<Entry>)
    requires w.pending != []
  {
    WellReadAt(t, w.pending[|w.pending| - 1], faulty, ok, entries)
  }

  function AfterRead(w: Walk, ok: bool, entries: seq<Entry>): Walk
    requires w.pending != []
  {
    if ok then Refilled(w, entries) else PassedOver(w)
  }

  lemma StrippedResolves(path: string)
    ensures Resolve(Stripped(path)) == Resolve(path)
  {
    if path != "" {
      ResolveStripped(path);
    }
  }

  /** A turn of the loop loses nothing that is left, and comes nearer to the end. */
  ghost predicate Progress(t: Tree, w: Walk, next: Walk, start: Location, faulty: bool) {
    var unread, left := Unread(t, next), Left(t, next);
    && Sound(t, next, start, faulty)
    && next.recursive == w.recursive && next.mask == w.mask
    && unread <= Unread(t, w)
    && (unread == Unread(t, w) ==> |next.pending| < |w.pending|)
    && Remaining(t, next) <= Remaining(t, w)
    && left <= Left(t, w)
    && (!faulty ==> left == Left(t, w))
  }

  lemma AfterReadProgress(t: Tree, w: Walk, start: Location, faulty: bool, ok: bool, entries: seq<Entry>)
    requires IsTree(t) && start != [] && Sound(t, w, start, faulty) && w.queue == [] && w.pending != []
    requires WellRead(t, w, faulty, ok, entries)
    ensures Progress(t, w, AfterRead(w, ok, entries), start, faulty)
  {
    if ok {
      RefilledProgress(t, w, start, faulty, entries);
    } else {
      PassedOverProgress(t, w, start, faulty);
    }
  }

  lemma StepKeepsTrack(t: Tree, before: Walk, w: Walk, start: Location, faulty: bool, ok: bool, entries: seq<Entry>)
    requires IsTree(t) && start != [] && w.queue == [] && w.pending != []
    requires OnTrack(t, before, w, start, faulty) && WellRead(t, w, faulty, ok, entries)
    ensures OnTrack(t, before, AfterRead(w, ok, entries), start, faulty)
    ensures Unread(t, AfterRead(w, ok, entries)) <= Unread(t, w)
    ensures Unread(t, AfterRead(w, ok, entries)) == Unread(t, w) ==> |AfterRead(w, ok, entries).pending| < |w.pending|
  {
    AfterReadProgress(t, w, start, faulty, ok, entries);
    if w == before && before.started {
      EmptyQueueNoneIn(t, w);
    }
  }

  lemma EmptyQueueNoneIn(t: Tree, w: Walk)
    requires IsTree(t) && w.queue == [] && !AtOrBelowSome(w.pending, w.dir)
    ensures NoneIn(Left(t, w), w.dir)
  {
    forall l | l in Left(t, w) ensures Parent(l) != w.dir {
      NoneAround(w, l);
    }
  }

  lemma NothingAhead(t: Tree, before: Walk, w: Walk, start: Location, faulty: bool)
    requires OnTrack(t, before, w, start, faulty) && w.queue == [] && w.pending == []
    ensures Returned(t, before, w, "", start, faulty)
  {
    assert Remaining(t, w) == {} && Left(t, w) == {};
  }

  lemma RefilledProgress(t: Tree, w: Walk, start: Location, faulty: bool, entries: seq<Entry>)
    requires CanRefill(t, w, start, faulty, entries)
    ensures Progress(t, w, Refilled(w, entries), start, faulty)
  {
    RefilledSound(t, w, start, faulty, entries);
    RefilledLeft(t, w, start, faulty, entries);
    RefilledUnread(t, w, start, faulty, entries);
  }

  lemma PassedOverProgress(t: Tree, w: Walk, start: Location, faulty: bool)
    requires IsTree(t) && start != [] && Sound(t, w, start, faulty) && w.queue == [] && w.pending != []
    requires !faulty ==> !IsDirectory(t, w.pending[|w.pending| - 1])
    ensures Progress(t, w, PassedOver(w), start, faulty)
  {
    PassedOverFewer(t, w);
    PassedOverSound(t, w, start, faulty);
    if !faulty {
      PassedOverKeeps(t, w, start, faulty);
    }
  }
}
