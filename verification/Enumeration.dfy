/**
 What a caller's loop over a FileEnumerator sees of a tree that does not change.
 */
module Enumeration {
  import opened FilePath
  import opened FileSystem
  import opened FileTraversal
  import opened FileUtil

  ghost function InitialWalk(start: Location, recursive: bool, mask: Mask): Walk {
    Walk(start, [], [start], false, recursive, mask)
  }

  /** The entries an enumerator that starts at `start` is to return. */
  ghost function Requested(t: Tree, start: Location, recursive: bool, mask: Mask): set<Location> {
    set l | l in t && Covers(recursive, start, l) && Matches(mask, t[l])
  }

  lemma InitialSound(t: Tree, start: Location, recursive: bool, mask: Mask, faulty: bool)
    ensures Sound(t, InitialWalk(start, recursive, mask), start, faulty)
    ensures Left(t, InitialWalk(start, recursive, mask)) == Requested(t, start, recursive, mask)
  {
    var w := InitialWalk(start, recursive, mask);
    forall l | Covers(recursive, start, l) ensures Awaited(w, l) {
      assert w.pending[0] == start;
    }
  }

  // ---------------------------------------------------------------------------------------
  // The order of the results
  // ---------------------------------------------------------------------------------------

  ghost predicate Elements(r: seq<Location>, s: set<Location>) {
    forall l :: l in s <==> exists i {:trigger r[i]} :: 0 <= i < |r| && r[i] == l
  }

  ghost predicate NoneTwice(r: seq<Location>) {
    forall i, j :: 0 <= i < j < |r| ==> r[i] != r[j]
  }

  ghost predicate NonEmpty(r: seq<Location>) {
    forall i :: 0 <= i < |r| ==> r[i] != []
  }

  /** The entries of a directory are returned one after the other. */
  ghost predicate Together(r: seq<Location>)
    requires NonEmpty(r)
  {
    forall i, j, k :: 0 <= i < j < k < |r| && Parent(r[i]) == Parent(r[k]) ==> Parent(r[j]) == Parent(r[i])
  }

  /** They are returned before any entry of a directory further in. */
  ghost predicate OuterFirst(r: seq<Location>)
    requires NonEmpty(r)
  {
    forall i, j :: 0 <= i < j < |r| ==> !Below(Parent(r[j]), Parent(r[i]))
  }

  /** What the results so far say about the entries that are left. */
  ghost predicate LeavesInOrder(r: seq<Location>, left: set<Location>, dir: Location)
    requires NonEmpty(r)
  {
    forall i :: 0 <= i < |r| ==>
      && r[i] !in left
      && NoneOutside(left, Parent(r[i]))
      && (Parent(r[i]) == dir || NoneIn(left, Parent(r[i])))
  }

  ghost predicate InOrder(r: seq<Location>, left: set<Location>, dir: Location) {
    && NonEmpty(r) && NoneTwice(r) && Together(r) && OuterFirst(r)
    && LeavesInOrder(r, left, dir)
    && (r != [] ==> Parent(r[|r| - 1]) == dir)
  }

  lemma InOrderStep(r: seq<Location>, left: set<Location>, dir: Location, l: Location)
    requires InOrder(r, left, dir) && l in left && l != []
    requires NoneOutside(left - {l}, Parent(l))
    requires r != [] && Parent(l) != dir ==> NoneIn(left - {l}, dir)
    ensures InOrder(r + [l], left - {l}, Parent(l))
  {
    var next := r + [l];
    forall i, j, k | 0 <= i < j < k < |next| && Parent(next[i]) == Parent(next[k])
      ensures Parent(next[j]) == Parent(next[i])
    {
      if k == |r| {
        assert Parent(r[i]) == dir;
        assert j < |r| - 1 ==> Parent(r[j]) == Parent(r[i]);
      }
    }
    forall i | 0 <= i < |next|
      ensures next[i] !in left - {l} && NoneOutside(left - {l}, Parent(next[i]))
      ensures Parent(next[i]) == Parent(l) || NoneIn(left - {l}, Parent(next[i]))
    {
      if i < |r| {
        assert NoneOutside(left, Parent(r[i]));
      }
    }
    forall i, j | 0 <= i < j < |next| ensures !Below(Parent(next[j]), Parent(next[i])) {
      if j == |r| {
        assert NoneOutside(left, Parent(r[i]));
      }
    }
  }

  lemma ElementsStep(r: seq<Location>, s: set<Location>, l: Location)
    requires Elements(r, s)
    ensures Elements(r + [l], s + {l})
  {
    var next := r + [l];
    forall x ensures x in s + {l} <==> exists i {:trigger next[i]} :: 0 <= i < |next| && next[i] == x {
      if x == l {
        assert next[|r|] == x;
      } else if x in s {
        var i :| 0 <= i < |r| && r[i] == x;
        assert next[i] == x;
      }
    }
  }

  ghost predicate AllBelow(start: Location, r: seq<Location>) {
    forall i :: 0 <= i < |r| ==> Below(start, r[i])
  }

  /** The results so far, `r`, and what is left of `all` the wanted entries. */
  ghost predicate Gathered(t: Tree, w: Walk, start: Location, faulty: bool, all: set<Location>, r: seq<Location>) {
    var left := Left(t, w);
    && AllBelow(start, r) && NonEmpty(r) && OnceIn(r, t.Keys - Remaining(t, w))
    && (r != [] ==> w.started)
    && (!faulty ==> left <= all && Elements(r, all - left) && InOrder(r, left, w.dir))
  }

  /** All different, and all in s. */
  ghost predicate OnceIn(r: seq<Location>, s: set<Location>) {
    NoneTwice(r) && forall i :: 0 <= i < |r| ==> r[i] in s
  }

  lemma OnceInSnoc(r: seq<Location>, s: set<Location>, next: set<Location>, l: Location)
    requires OnceIn(r, s) && l !in s && s + {l} <= next
    ensures OnceIn(r + [l], next)
  {
  }

  lemma GatherNothing(t: Tree, start: Location, recursive: bool, mask: Mask, faulty: bool)
    ensures Gathered(t, InitialWalk(start, recursive, mask), start, faulty, Requested(t, start, recursive, mask), [])
  {
    InitialSound(t, start, recursive, mask, faulty);
  }

  /** GatherStep, of sets of locations. */
  lemma GatherTaken(r: seq<Location>, left: set<Location>, rest: set<Location>, all: set<Location>,
                    dir: Location, l: Location, faulty: bool, started: bool)
    requires !faulty ==> l in left && rest == left - {l} && l != [] && NoneOutside(rest, Parent(l))
    requires !faulty && started && Parent(l) != dir ==> NoneIn(rest, dir)
    requires !faulty ==> left <= all && Elements(r, all - left) && InOrder(r, left, dir)
    requires r != [] ==> started
    ensures !faulty ==> rest <= all && Elements(r + [l], all - rest) && InOrder(r + [l], rest, Parent(l))
  {
    if !faulty {
      InOrderStep(r, left, dir, l);
      ElementsStep(r, all - left, l);
      assert all - rest == (all - left) + {l};
    }
  }

  lemma ReturnedTook(t: Tree, w: Walk, next: Walk, path: string, start: Location, faulty: bool)
    requires Returned(t, w, next, path, start, faulty) && path != ""
    ensures var l := Resolve(path);
            && l != [] && next.started && next.dir == Parent(l) && Below(start, l)
            && (!faulty ==>
                  l in Left(t, w) && Left(t, next) == Left(t, w) - {l} && NoneOutside(Left(t, next), Parent(l)))
            && (w.started && Parent(l) != w.dir ==> NoneIn(Left(t, next), w.dir))
            && l in t && l in Remaining(t, w) && Remaining(t, next) <= Remaining(t, w) - {l}
  {
    assert Took(t, w, next, Resolve(path), start, faulty);
  }

  lemma BelowSnoc(start: Location, r: seq<Location>, l: Location)
    requires AllBelow(start, r) && NonEmpty(r) && l != [] && Below(start, l)
    ensures AllBelow(start, r + [l]) && NonEmpty(r + [l])
  {
  }

  lemma GatherStep(t: Tree, w: Walk, next: Walk, path: string, start: Location, faulty: bool,
                   all: set<Location>, r: seq<Location>)
    requires Gathered(t, w, start, faulty, all, r) && Returned(t, w, next, path, start, faulty) && path != ""
    ensures Gathered(t, next, start, faulty, all, r + [Resolve(path)])
    ensures Remaining(t, next) < Remaining(t, w)
  {
    var l := Resolve(path);
    ReturnedTook(t, w, next, path, start, faulty);
    BelowSnoc(start, r, l);
    OnceInSnoc(r, t.Keys - Remaining(t, w), t.Keys - Remaining(t, next), l);
    GatherTaken(r, Left(t, w), Left(t, next), all, w.dir, l, faulty, w.started);
  }

  lemma ReturnedSound(t: Tree, w: Walk, next: Walk, path: string, start: Location, faulty: bool)
    requires Returned(t, w, next, path, start, faulty)
    ensures Sound(t, next, start, faulty)
  {
  }

  lemma GatheredAll(t: Tree, w: Walk, next: Walk, start: Location, faulty: bool, all: set<Location>, r: seq<Location>)
    requires Gathered(t, w, start, faulty, all, r) && Returned(t, w, next, "", start, faulty)
    ensures AllBelow(start, r) && OnceIn(r, t.Keys)
    ensures !faulty ==> Elements(r, all) && NonEmpty(r) && Together(r) && OuterFirst(r)
  {
    assert !faulty ==> all - Left(t, w) == all;
  }

  /**
   Calling Next until it returns nothing.  When no call fails, the results are exactly the wanted
   entries, each once, directory by directory and each directory before what is further in; in any case they are
   entries below the root, each once.
   */
  method Enumerate(disk: Disk, rootPath: string, recursive: bool, mask: Mask) returns (paths: seq<string>)
    requires disk.Valid()
    ensures AllBelow(Resolve(rootPath), Locations(paths)) && OnceIn(Locations(paths), disk.nodes.Keys)
    ensures !disk.faulty ==>
              && Elements(Locations(paths), Requested(disk.nodes, Resolve(rootPath), recursive, mask))
              && NonEmpty(Locations(paths))
              && Together(Locations(paths)) && OuterFirst(Locations(paths))
  {
    var traversal := new FileEnumerator(rootPath, recursive, mask);
    ghost var t, start, faulty := disk.nodes, Resolve(rootPath), disk.faulty;
    ghost var all, w := Requested(t, start, recursive, mask), traversal.Ahead();
    InitialSound(t, start, recursive, mask, faulty);
    GatherNothing(t, start, recursive, mask, faulty);
    paths := [];
    assert Locations(paths) == [];
    var current := traversal.Next(disk);
    while current != ""
      invariant traversal.start == start && fresh(traversal)
      invariant Gathered(t, w, start, faulty, all, Locations(paths))
      invariant Returned(t, w, traversal.Ahead(), current, start, faulty)
      decreases Remaining(t, w)
    {
      GatherStep(t, w, traversal.Ahead(), current, start, faulty, all, Locations(paths));
      LocationsSnoc(paths, current);
      paths := paths + [current];
      ReturnedSound(t, w, traversal.Ahead(), current, start, faulty);
      w := traversal.Ahead();
      current := traversal.Next(disk);
    }
    GatheredAll(t, w, traversal.Ahead(), start, faulty, all, Locations(paths));
  }

  // ---------------------------------------------------------------------------------------
  // The size of a directory
  // ---------------------------------------------------------------------------------------

  function SizeAt(t: Tree, l: Location): nat {
    if l in t && t[l].File? then t[l].size else 0
  }

  ghost function TotalSize(t: Tree, s: set<Location>): nat {
    if s == {} then 0
    else
      var l :| l in s;
      SizeAt(t, l) + TotalSize(t, s - {l})
  }

  lemma {:induction false} TotalSizeWithout(t: Tree, s: set<Location>, l: Location)
    requires l in s
    ensures TotalSize(t, s) == SizeAt(t, l) + TotalSize(t, s - {l})
  {
    var x :| x in s && TotalSize(t, s) == SizeAt(t, x) + TotalSize(t, s - {x});
    if x != l {
      TotalSizeWithout(t, s - {x}, l);
      TotalSizeWithout(t, s - {l}, x);
      assert s - {x} - {l} == s - {l} - {x};
    }
  }

  ghost function FilesBelow(t: Tree, dir: Location): set<Location> {
    set l | l in t && Below(dir, l) && t[l].File?
  }

  lemma {:induction false} TotalSizeGrows(t: Tree, a: set<Location>, b: set<Location>)
    requires a <= b
    ensures TotalSize(t, a) <= TotalSize(t, b)
    decreases b
  {
    if a != b {
      var l :| l in b && l !in a;
      TotalSizeWithout(t, b, l);
      TotalSizeGrows(t, a, b - {l});
    }
  }

  /** Directories do not count. */
  lemma {:induction false} OnlyFilesCount(t: Tree, a: set<Location>, b: set<Location>)
    requires a <= b && forall l :: l in b && l !in a ==> SizeAt(t, l) == 0
    ensures TotalSize(t, a) == TotalSize(t, b)
    decreases b
  {
    if a != b {
      var l :| l in b && l !in a;
      TotalSizeWithout(t, b, l);
      OnlyFilesCount(t, a, b - {l});
    }
  }

  const FILES := Mask(true, false)

  lemma SizeStep(t: Tree, w: Walk, next: Walk, path: string, start: Location, faulty: bool)
    requires Returned(t, w, next, path, start, faulty) && path != ""
    ensures Sound(t, next, start, faulty)
    ensures Remaining(t, next) < Remaining(t, w)
    ensures !faulty ==> TotalSize(t, Left(t, w)) == SizeAt(t, Resolve(path)) + TotalSize(t, Left(t, next))
    ensures SizeAt(t, Resolve(path)) + TotalSize(t, Remaining(t, next)) <= TotalSize(t, Remaining(t, w))
  {
    var l := Resolve(path);
    assert Took(t, w, next, l, start, faulty);
    TotalSizeGrows(t, Remaining(t, next), Remaining(t, w) - {l});
    TotalSizeWithout(t, Remaining(t, w), l);
    if !faulty {
      TotalSizeWithout(t, Left(t, w), Resolve(path));
    }
  }

  lemma SizeDone(t: Tree, w: Walk, next: Walk, start: Location, faulty: bool)
    requires Returned(t, w, next, "", start, faulty)
    ensures !faulty ==> TotalSize(t, Left(t, w)) == 0
  {
  }

  lemma SizeAhead(t: Tree, start: Location)
    ensures TotalSize(t, Remaining(t, InitialWalk(start, true, FILES))) == TotalSize(t, FilesBelow(t, start))
    ensures Requested(t, start, true, FILES) == FilesBelow(t, start)
  {
    var w := InitialWalk(start, true, FILES);
    InitialSound(t, start, true, FILES, false);
    forall l | l in FilesBelow(t, start) ensures l in Remaining(t, w) {
      assert l in Left(t, w);
    }
    forall l | l in Remaining(t, w) && t[l].File? ensures l in FilesBelow(t, start) {
      assert l in Left(t, w);
    }
    OnlyFilesCount(t, FilesBelow(t, start), Remaining(t, w));
  }

  /** The size of a directory is that of all files below it together; when calls fail, it is not more. */
  method ComputeDirectorySize(disk: Disk, rootPath: string) returns (runningSize: nat)
    requires disk.Valid()
    ensures !disk.faulty ==> runningSize == TotalSize(disk.nodes, FilesBelow(disk.nodes, Resolve(rootPath)))
    ensures runningSize <= TotalSize(disk.nodes, FilesBelow(disk.nodes, Resolve(rootPath)))
  {
    runningSize := 0;
    var traversal := new FileEnumerator(rootPath, true, FILES);
    ghost var t, start, faulty, w := disk.nodes, Resolve(rootPath), disk.faulty, traversal.Ahead();
    InitialSound(t, start, true, FILES, faulty);
    SizeAhead(t, start);
    var current := traversal.Next(disk);
    while current != ""
      invariant traversal.start == start && traversal.fileType == FILES && fresh(traversal)
      invariant Returned(t, w, traversal.Ahead(), current, start, faulty)
      invariant current != "" ==> traversal.At(t, current, faulty)
      invariant !faulty ==> runningSize + TotalSize(t, Left(t, w)) == TotalSize(t, FilesBelow(t, start))
      invariant runningSize + TotalSize(t, Remaining(t, w)) <= TotalSize(t, FilesBelow(t, start))
      decreases Remaining(t, w)
    {
      SizeStep(t, w, traversal.Ahead(), current, start, faulty);
      var info := traversal.GetFindInfo(t, current, faulty);
      runningSize := runningSize + info.node.size;
      w := traversal.Ahead();
      current := traversal.Next(disk);
    }
    SizeDone(t, w, traversal.Ahead(), start, faulty);
  }
}
