/**
 Recursive deletion: every file is unlinked as the walk returns it, and the directories, stacked up
 in the order of the walk, are removed from the top.
 */
module Delete {
  import opened FilePath
  import opened FileSystem
  import opened FileTraversal
  import opened FileUtil
  import opened Enumeration

  // ---------------------------------------------------------------------------------------
  // What deletion comes to
  // ---------------------------------------------------------------------------------------

  /** The entries a recursive deletion removes; rmdir will not have an anchor or a path that ends in ".". */
  ghost function Doomed(t: Tree, path: string): set<Location> {
    set l | l in t && (Below(Resolve(path), l) || (l == Resolve(path) && RemovablePath(path)))
  }

  ghost function AfterDelete(t: Tree, path: string, recursive: bool): Tree {
    var l := Resolve(path);
    if !Leads(t, path) then t
    else if t[l].File? then t - {l}
    else if recursive then t - Doomed(t, path)
    else if RemovablePath(path) && Children(t, l) == {} then t - {l}
    else t
  }

  /** Nothing has been added, and nothing outside the subtree has changed. */
  ghost predicate Confined(before: Tree, after: Tree, start: Location) {
    && (forall l :: l in after ==> l in before && after[l] == before[l])
    && (forall l :: l in before && !AtOrBelow(start, l) ==> l in after)
  }

  // ---------------------------------------------------------------------------------------
  // Unlinking during the walk
  // ---------------------------------------------------------------------------------------

  /** Unlinking a file that has been returned does not disturb the walk. */
  lemma UnlinkUnnoticed(t: Tree, w: Walk, l: Location, start: Location, faulty: bool)
    requires Sound(t, w, start, faulty) && l !in Remaining(t, w)
    ensures Sound(t - {l}, w, start, faulty)
    ensures Left(t - {l}, w) == Left(t, w) && Remaining(t - {l}, w) == Remaining(t, w)
  {
    if l in t {
      forall i | 0 <= i < |w.queue| ensures Present(t - {l}, w.dir, w.queue[i], faulty) {
        assert Present(t, w.dir, w.queue[i], faulty);
        assert Queued(w, w.dir + [w.queue[i].name]);
      }
    } else {
      assert t - {l} == t;
    }
  }

  /** A directory comes before whatever is in it. */
  ghost predicate Ordered(d: seq<Location>) {
    forall i, j :: 0 <= i < j < |d| ==> d[i] != d[j] && !Below(d[j], d[i])
  }

  ghost predicate Stacked(d: seq<Location>, l: Location) {
    exists i {:trigger d[i]} :: 0 <= i < |d| && d[i] == l
  }

  ghost predicate AllWithin(t: Tree, start: Location, d: seq<Location>) {
    forall i {:trigger d[i]} :: 0 <= i < |d| ==> AtOrBelow(start, d[i]) && IsDirectory(t, d[i])
  }

  ghost predicate NotYet(d: seq<Location>, todo: set<Location>) {
    forall i, x {:trigger d[i], x in todo} :: 0 <= i < |d| && x in todo ==> x != d[i] && !Below(x, d[i])
  }

  /** Between two steps: `todo` are the entries not dealt with, `d` the directories stacked up. */
  ghost predicate Emptying(before: Tree, t: Tree, start: Location, d: seq<Location>, todo: set<Location>) {
    && Confined(before, t, start)
    && (forall l :: l in before && l !in t ==> before[l].File? && Below(start, l))
    && (forall l :: l in todo ==> l in t && Below(start, l))
    && (forall l :: l in t && Below(start, l) && l !in todo ==> Stacked(d, l))
    && AllWithin(t, start, d) && Ordered(d) && NotYet(d, todo)
    && d != [] && d[0] == start
  }

  lemma EmptyingStart(t: Tree, start: Location)
    requires IsDirectory(t, start)
    ensures Emptying(t, t, start, [start], Requested(t, start, true, Mask(true, true)))
  {
  }

  lemma EmptyingFile(before: Tree, t: Tree, start: Location, d: seq<Location>, todo: set<Location>, l: Location)
    requires Emptying(before, t, start, d, todo) && l in todo && t[l].File?
    ensures Emptying(before, t - {l}, start, d, todo - {l})
  {
    forall i | 0 <= i < |d| ensures IsDirectory(t - {l}, d[i]) {
      assert IsDirectory(t, d[i]);
    }
  }

  lemma StackedSnoc(d: seq<Location>, l: Location, x: Location)
    ensures Stacked(d + [l], x) <==> Stacked(d, x) || x == l
  {
    if Stacked(d, x) {
      var i :| 0 <= i < |d| && d[i] == x;
      assert (d + [l])[i] == x;
    }
    assert (d + [l])[|d|] == l;
  }

  lemma EmptyingDirectory(before: Tree, t: Tree, start: Location, d: seq<Location>, todo: set<Location>, l: Location)
    requires Emptying(before, t, start, d, todo) && l in todo && t[l].Directory?
    requires l != [] && NoneOutside(todo - {l}, Parent(l))
    ensures Emptying(before, t, start, d + [l], todo - {l})
  {
    var next := d + [l];
    forall x | x in t && Below(start, x) && x !in todo - {l} ensures Stacked(next, x) {
      StackedSnoc(d, l, x);
    }
    forall i, j | 0 <= i < j < |next| ensures next[i] != next[j] && !Below(next[j], next[i]) {
      if j == |d| {
        assert d[i] != l && !Below(l, d[i]);
      }
    }
    forall i, x | 0 <= i < |next| && x in todo - {l} ensures x != next[i] && !Below(x, next[i]) {
      if i == |d| && Below(x, l) {
        assert !Below(Parent(x), Parent(l));
        BelowParent(x, l);
        BelowParents(x, l);
      }
    }
    forall i | 0 <= i < |next| ensures AtOrBelow(start, next[i]) && IsDirectory(t, next[i]) {
      assert i < |d| ==> AtOrBelow(start, d[i]);
    }
  }

  lemma BelowParents(x: Location, l: Location)
    requires x != [] && Below(x, l)
    ensures Below(Parent(x), Parent(l))
  {
    assert Parent(x) == x[..|x| - 1] == l[..|x|][..|x| - 1] == l[..|x| - 1];
    assert Parent(l)[..|x| - 1] == l[..|x| - 1];
  }

  ghost predicate AllAtOrBelow(start: Location, d: seq<Location>) {
    forall i {:trigger d[i]} :: 0 <= i < |d| ==> AtOrBelow(start, d[i])
  }

  /** The state of the first loop; `todo` is what the walk has still to return. */
  ghost predicate Unlinking(before: Tree, t: Tree, start: Location, faulty: bool, success: bool,
                            d: seq<Location>, todo: set<Location>)
  {
    && Confined(before, t, start) && AllAtOrBelow(start, d)
    && (!faulty ==> success && Emptying(before, t, start, d, todo))
  }

  lemma Smaller<T>(a: set<T>, b: set<T>)
    requires a < b
    ensures |a| < |b|
  {
    assert b == a + (b - a);
    assert b - a != {};
  }

  lemma TookLess(t: Tree, w: Walk, next: Walk, path: string, start: Location, faulty: bool)
    requires Returned(t, w, next, path, start, faulty) && path != ""
    ensures Sound(t, next, start, faulty)
    ensures Resolve(path) in t && Below(start, Resolve(path)) && Resolve(path) !in Remaining(t, next)
    ensures |Remaining(t, next)| < |Remaining(t, w)|
    ensures !faulty ==> Resolve(path) in Left(t, w) && Left(t, next) == Left(t, w) - {Resolve(path)}
    ensures NoneOutside(Left(t, next), Parent(Resolve(path)))
  {
    assert Took(t, w, next, Resolve(path), start, faulty);
    Smaller(Remaining(t, next), Remaining(t, w));
  }

  lemma StackStep(before: Tree, t: Tree, w: Walk, next: Walk, path: string, start: Location, faulty: bool,
                  success: bool, d: seq<Location>)
    requires Unlinking(before, t, start, faulty, success, d, Left(t, w))
    requires Returned(t, w, next, path, start, faulty) && path != ""
    requires !faulty ==> IsDirectory(t, Resolve(path))
    ensures Unlinking(before, t, start, faulty, success, d + [Resolve(path)], Left(t, next))
    ensures Sound(t, next, start, faulty)
    ensures |Remaining(t, next)| < |Remaining(t, w)|
  {
    var l := Resolve(path);
    TookLess(t, w, next, path, start, faulty);
    if !faulty {
      EmptyingDirectory(before, t, start, d, Left(t, w), l);
    }
  }

  lemma UnlinkStep(before: Tree, t: Tree, w: Walk, next: Walk, path: string, start: Location, faulty: bool,
                   ok: bool, d: seq<Location>, after: Tree)
    requires Unlinking(before, t, start, faulty, true, d, Left(t, w))
    requires Returned(t, w, next, path, start, faulty) && path != ""
    requires after == if ok then t - {Resolve(path)} else t
    requires !faulty ==> ok && t[Resolve(path)].File?
    ensures Unlinking(before, after, start, faulty, ok, d, Left(after, next))
    ensures Sound(after, next, start, faulty)
    ensures |Remaining(after, next)| < |Remaining(t, w)|
  {
    var l := Resolve(path);
    TookLess(t, w, next, path, start, faulty);
    UnlinkUnnoticed(t, next, l, start, faulty);
    if faulty {
      assert Confined(before, after, start);
    } else {
      EmptyingFile(before, t, start, d, Left(t, w), l);
    }
  }

  /** rmdir will have every directory on the stack but perhaps the one at the bottom. */
  ghost predicate StackOf(directories: seq<string>, path: string) {
    && directories != [] && directories[0] == path
    && forall i :: 1 <= i < |directories| ==> RemovablePath(directories[i])
  }

  const EVERYTHING := Mask(true, true)

  /** One turn of the first loop: stack a directory, unlink anything else. */
  method Dispose(disk: Disk, traversal: FileEnumerator, current: string, directories: seq<string>, ghost path: string,
                 ghost before: Tree, ghost w: Walk)
    returns (success: bool, stack: seq<string>)
    requires disk.Valid() && StackOf(directories, path) && current != ""
    requires Returned(disk.nodes, w, traversal.Ahead(), current, traversal.start, disk.faulty)
    requires traversal.At(disk.nodes, current, disk.faulty)
    requires Unlinking(before, disk.nodes, traversal.start, disk.faulty, true, Locations(directories),
                           Left(disk.nodes, w))
    modifies disk
    ensures disk.Valid() && StackOf(stack, path)
    ensures Unlinking(before, disk.nodes, traversal.start, disk.faulty, success, Locations(stack),
                          Left(disk.nodes, traversal.Ahead()))
    ensures Sound(disk.nodes, traversal.Ahead(), traversal.start, disk.faulty)
    ensures |Remaining(disk.nodes, traversal.Ahead())| < old(|Remaining(disk.nodes, w)|)
  {
    ghost var t, next, start, faulty, d :=
      disk.nodes, traversal.Ahead(), traversal.start, disk.faulty, Locations(directories);
    traversal.AtLeads(t, current, faulty);
    var info := traversal.GetFindInfo(t, current, faulty);
    success, stack := true, directories;
    if info.node.Directory? {
      StackStep(before, t, w, next, current, start, faulty, success, d);
      stack := PushOnto(directories, path, current);
    } else {
      success := UnlinkOne(disk, current, before, w, next, start, d);
    }
  }

  method PushOnto(directories: seq<string>, ghost path: string, current: string) returns (stack: seq<string>)
    requires StackOf(directories, path) && RemovablePath(current)
    ensures StackOf(stack, path) && Locations(stack) == Locations(directories) + [Resolve(current)]
  {
    LocationsSnoc(directories, current);
    stack := directories + [current];
  }

  method UnlinkOne(disk: Disk, current: string, ghost before: Tree, ghost w: Walk, ghost next: Walk,
                   ghost start: Location, ghost d: seq<Location>)
    returns (ok: bool)
    requires disk.Valid() && current != "" && Leads(disk.nodes, current)
    requires !disk.faulty ==> disk.nodes[Resolve(current)].File?
    requires Returned(disk.nodes, w, next, current, start, disk.faulty)
    requires Unlinking(before, disk.nodes, start, disk.faulty, true, d, Left(disk.nodes, w))
    modifies disk
    ensures disk.Valid()
    ensures Unlinking(before, disk.nodes, start, disk.faulty, ok, d, Left(disk.nodes, next))
    ensures Sound(disk.nodes, next, start, disk.faulty)
    ensures |Remaining(disk.nodes, next)| < old(|Remaining(disk.nodes, w)|)
  {
    ghost var t := disk.nodes;
    ok := disk.Unlink(current);
    UnlinkStep(before, t, w, next, current, start, disk.faulty, ok, d, disk.nodes);
  }

  /** The first loop of Delete. */
  method UnlinkFiles(disk: Disk, path: string) returns (success: bool, directories: seq<string>)
    requires disk.Valid() && IsDirectory(disk.nodes, Resolve(path))
    modifies disk
    ensures disk.Valid()
    ensures StackOf(directories, path)
    ensures Unlinking(old(disk.nodes), disk.nodes, Resolve(path), disk.faulty, success, Locations(directories), {})
  {
    success := true;
    directories := [path];
    var traversal := new FileEnumerator(path, true, EVERYTHING);
    ghost var before, start, faulty, w := disk.nodes, Resolve(path), disk.faulty, traversal.Ahead();
    InitialSound(before, start, true, EVERYTHING, faulty);
    EmptyingStart(before, start);
    assert Locations(directories) == [start];
    var current := traversal.Next(disk);
    while success && current != ""
      invariant disk.Valid() && StackOf(directories, path)
      invariant traversal.start == start && fresh(traversal)
      invariant Returned(disk.nodes, w, traversal.Ahead(), current, start, faulty)
      invariant current != "" ==> traversal.At(disk.nodes, current, faulty)
      invariant Unlinking(before, disk.nodes, start, faulty, success, Locations(directories), Left(disk.nodes, w))
      decreases |Remaining(disk.nodes, w)|
    {
      success, directories := Dispose(disk, traversal, current, directories, path, before, w);
      w := traversal.Ahead();
      current := traversal.Next(disk);
    }
    UnlinkDone(before, disk.nodes, w, traversal.Ahead(), current, start, faulty, success, Locations(directories));
  }

  lemma UnlinkDone(before: Tree, t: Tree, w: Walk, next: Walk, path: string, start: Location, faulty: bool,
                   success: bool, d: seq<Location>)
    requires Unlinking(before, t, start, faulty, success, d, Left(t, w))
    requires Returned(t, w, next, path, start, faulty) && (success ==> path == "")
    ensures Unlinking(before, t, start, faulty, success, d, {})
  {
  }

  // ---------------------------------------------------------------------------------------
  // Removing the directories from the top of the stack
  // ---------------------------------------------------------------------------------------

  /** The stack holds exactly what is left of the subtree. */
  ghost predicate Full(t: Tree, start: Location, d: seq<Location>) {
    && (forall l :: l in t && AtOrBelow(start, l) ==> Stacked(d, l))
    && AllWithin(t, start, d) && Ordered(d)
  }

  lemma TopIsEmpty(t: Tree, start: Location, d: seq<Location>)
    requires Full(t, start, d) && d != []
    ensures Children(t, d[|d| - 1]) == {}
  {
    var top := d[|d| - 1];
    assert AtOrBelow(start, top);
    forall l | l in t && AtOrBelow(start, l) ensures !Below(top, l) {
      var i :| 0 <= i < |d| && d[i] == l;
    }
    forall name ensures name !in Children(t, top) {
      ChildIn(t, top, name);
      assert Below(top, top + [name]);
      BelowTrans(start, top, top + [name]);
    }
  }

  lemma FullWithoutTop(t: Tree, start: Location, d: seq<Location>)
    requires Full(t, start, d) && d != []
    ensures Full(t - {d[|d| - 1]}, start, d[..|d| - 1])
  {
    var n := |d| - 1;
    forall l | l in t && l != d[n] && AtOrBelow(start, l) ensures Stacked(d[..n], l) {
      var i :| 0 <= i < |d| && d[i] == l;
      assert d[..n][i] == l;
    }
    forall i | 0 <= i < n ensures AtOrBelow(start, d[..n][i]) && IsDirectory(t - {d[n]}, d[..n][i]) {
      assert IsDirectory(t, d[i]) && d[i] != d[n];
    }
  }

  /** The state of the second loop when no call fails. */
  ghost predicate Clearing(t: Tree, start: Location, d: seq<Location>, success: bool, removable: bool) {
    if success then Full(t, start, d) && (if d == [] then removable else d[0] == start)
    else !removable && d == [] && start in t && forall l :: l in t && AtOrBelow(start, l) ==> l == start
  }

  ghost predicate Removing(before: Tree, t: Tree, start: Location, faulty: bool, success: bool,
                           d: seq<Location>, removable: bool)
  {
    && Confined(before, t, start) && AllAtOrBelow(start, d)
    && (success ==> if d == [] then removable && Gone(t, start) else d[0] == start)
    && (!faulty ==> Clearing(t, start, d, success, removable))
  }

  /** Nothing is left of the subtree. */
  ghost predicate Gone(t: Tree, start: Location) {
    forall l :: l in t ==> !AtOrBelow(start, l)
  }

  lemma RmdirStep(before: Tree, t: Tree, start: Location, faulty: bool, d: seq<Location>, removable: bool,
                  ok: bool, after: Tree)
    requires Removing(before, t, start, faulty, true, d, removable) && d != []
    requires after == if ok then t - {d[|d| - 1]} else t
    requires IsTree(t) && start != []
    requires ok ==> (|d| > 1 || removable) && Children(t, d[|d| - 1]) == {}
    requires !faulty ==>
               (ok <==> IsDirectory(t, d[|d| - 1]) && (|d| > 1 || removable) && Children(t, d[|d| - 1]) == {})
    ensures Removing(before, after, start, faulty, ok, d[..|d| - 1], removable)
  {
    var n := |d| - 1;
    if ok && n == 0 {
      NothingBelow(t, start);
    }
    assert AtOrBelow(start, d[n]);
    if !faulty {
      TopIsEmpty(t, start, d);
      assert IsDirectory(t, d[n]);
      if ok {
        FullWithoutTop(t, start, d);
      }
    }
  }

  lemma FullAfterUnlinking(before: Tree, t: Tree, start: Location, d: seq<Location>)
    requires Emptying(before, t, start, d, {})
    ensures Full(t, start, d)
  {
    forall l | l in t && AtOrBelow(start, l) ensures Stacked(d, l) {
      assert l == start ==> d[0] == l;
    }
  }

  lemma RemovingStart(before: Tree, t: Tree, start: Location, faulty: bool, d: seq<Location>, removable: bool)
    requires Unlinking(before, t, start, faulty, true, d, {}) && d != [] && d[0] == start
    ensures Removing(before, t, start, faulty, true, d, removable)
  {
    if !faulty {
      FullAfterUnlinking(before, t, start, d);
    }
  }

  /** One turn of the second loop. */
  method RemoveTop(disk: Disk, path: string, directories: seq<string>, ghost before: Tree)
    returns (ok: bool, rest: seq<string>)
    requires disk.Valid() && StackOf(directories, path)
    requires Removing(before, disk.nodes, Resolve(path), disk.faulty, true, Locations(directories),
                          RemovablePath(path))
    modifies disk
    ensures disk.Valid() && |rest| < |directories| && (rest == [] || StackOf(rest, path))
    ensures Removing(before, disk.nodes, Resolve(path), disk.faulty, ok, Locations(rest), RemovablePath(path))
  {
    var n := |directories| - 1;
    ghost var t, d := disk.nodes, Locations(directories);
    rest := directories[..n];
    assert Locations(rest) == d[..n];
    ok := disk.Rmdir(directories[n]);
    RmdirStep(before, t, Resolve(path), disk.faulty, d, RemovablePath(path), ok, disk.nodes);
  }

  /** The second loop of Delete. */
  method RemoveDirectories(disk: Disk, path: string, stack: seq<string>, ghost before: Tree) returns (success: bool)
    requires disk.Valid() && StackOf(stack, path)
    requires Unlinking(before, disk.nodes, Resolve(path), disk.faulty, true, Locations(stack), {})
    modifies disk
    ensures disk.Valid()
    ensures Removing(before, disk.nodes, Resolve(path), disk.faulty, success, [], RemovablePath(path))
  {
    success := true;
    var directories := stack;
    ghost var start, removable := Resolve(path), RemovablePath(path);
    RemovingStart(before, disk.nodes, start, disk.faulty, Locations(stack), removable);
    while success && directories != []
      invariant disk.Valid() && (directories == [] || StackOf(directories, path))
      invariant Removing(before, disk.nodes, start, disk.faulty, success, Locations(directories), removable)
      decreases |directories|
    {
      success, directories := RemoveTop(disk, path, directories, before);
    }
    RemovingStopped(before, disk.nodes, start, disk.faulty, success, Locations(directories), removable);
  }

  lemma RemovingStopped(before: Tree, t: Tree, start: Location, faulty: bool, success: bool,
                        d: seq<Location>, removable: bool)
    requires Removing(before, t, start, faulty, success, d, removable) && (success ==> d == [])
    ensures Removing(before, t, start, faulty, success, [], removable)
  {
  }

  lemma RecursiveResult(before: Tree, t: Tree, path: string, faulty: bool, success: bool)
    requires Leads(before, path) && before[Resolve(path)].Directory?
    requires Removing(before, t, Resolve(path), faulty, success, [], RemovablePath(path))
    ensures Confined(before, t, Resolve(path))
    ensures !faulty || success ==> t == AfterDelete(before, path, true)
    ensures !faulty ==> (success <==> !Leads(t, path))
    ensures success ==> !Leads(t, path)
  {
    var start := Resolve(path);
    if !faulty || success {
      forall l ensures l in t <==> l in before && l !in Doomed(before, path) {
      }
    }
  }

  /**
   Delete leaves exactly what AfterDelete says, and returns true just when the path leads nowhere
   any more.  When calls fail, true still means both, and nothing outside the subtree is touched in any case.
   */
  method Delete(disk: Disk, path: string, recursive: bool) returns (ok: bool)
    requires disk.Valid()
    modifies disk
    ensures disk.Valid()
    ensures Confined(old(disk.nodes), disk.nodes, Resolve(path))
    ensures ok || !disk.faulty ==> disk.nodes == AfterDelete(old(disk.nodes), path, recursive)
    ensures ok ==> !Leads(disk.nodes, path)
    ensures !disk.faulty ==> (ok <==> !Leads(disk.nodes, path))
    ensures !recursive && !ok ==> disk.nodes == old(disk.nodes)
  {
    ghost var before := disk.nodes;
    var info := disk.Stat(path);
    if !info.Found? {
      return info.Missing?;
    }
    if info.node.File? {
      ok := disk.Unlink(path);
      return;
    }
    if !recursive {
      ok := disk.Rmdir(path);
      return;
    }
    var success, directories := UnlinkFiles(disk, path);
    if success {
      success := RemoveDirectories(disk, path, directories, before);
      RecursiveResult(before, disk.nodes, path, disk.faulty, success);
    }
    return success;
  }
}
