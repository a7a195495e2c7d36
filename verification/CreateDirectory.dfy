/**
 Making a directory together with the directories on the way to it.
 */
module CreateDirectory {
  import opened FilePath
  import opened FileSystem

  // ---------------------------------------------------------------------------------------
  // The tree that is to come out
  // ---------------------------------------------------------------------------------------

  ghost function WithDirectories(t: Tree, l: Location): Tree
    requires l != []
    decreases |l|
  {
    if |l| == 1 then t
    else
      var u := WithDirectories(t, Parent(l));
      if l in u then u else u[l := Directory]
  }

  /** A file lies on the way, or at its end. */
  ghost predicate Blocked(t: Tree, l: Location) {
    exists d :: d in t && t[d].File? && AtOrBelow(d, l)
  }

  /** Exactly the missing entries on the way are added, and as directories. */
  lemma {:induction false} WithDirectoriesAdds(t: Tree, l: Location)
    requires l != []
    ensures forall x :: x in WithDirectories(t, l) <==> x in t || (|x| > 1 && AtOrBelow(x, l))
    ensures forall x :: x in WithDirectories(t, l) ==>
              WithDirectories(t, l)[x] == if x in t then t[x] else Directory
    decreases |l|
  {
    if |l| > 1 {
      WithDirectoriesAdds(t, Parent(l));
      forall x ensures AtOrBelow(x, l) <==> x == l || AtOrBelow(x, Parent(l)) {
        BelowParent(x, l);
      }
    }
  }

  /** Nothing is missing on the way to what is there. */
  lemma {:induction false} NoneMissing(t: Tree, l: Location)
    requires IsTree(t) && l in t && l != []
    ensures WithDirectories(t, l) == t
    decreases |l|
  {
    if |l| > 1 {
      assert Rooted(t, l);
      NoneMissing(t, Parent(l));
    }
  }

  // ---------------------------------------------------------------------------------------
  // The method
  // ---------------------------------------------------------------------------------------

  method DirectoryExists(disk: Disk, path: string) returns (exists': bool)
    ensures exists' ==> IsDirectory(disk.nodes, Resolve(path))
    ensures !disk.faulty ==> (exists' <==> IsDirectory(disk.nodes, Resolve(path)))
  {
    var info := disk.Stat(path);
    exists' := info.Found? && info.node.Directory?;
  }

  lemma EmptyDirName()
    ensures DirName("") == "."
  {
    assert LastSeparator("", 0) == -1;
  }

  ghost predicate Chain(subpaths: seq<string>) {
    && subpaths != []
    && forall i {:trigger Linked(subpaths, i)} :: 0 < i < |subpaths| ==> Linked(subpaths, i)
  }

  predicate Linked(subpaths: seq<string>, i: nat)
    requires 0 < i < |subpaths|
  {
    subpaths[i] == DirName(subpaths[i - 1])
  }

  lemma ChainSnoc(subpaths: seq<string>, path: string)
    requires Chain(subpaths) && path == DirName(subpaths[|subpaths| - 1])
    ensures Chain(subpaths + [path])
  {
    forall i | 0 < i < |subpaths| + 1 ensures Linked(subpaths + [path], i) {
      assert i < |subpaths| ==> Linked(subpaths, i);
    }
  }

  /** The path, its directory, the directory of that, and so on. */
  method CollectParents(fullPath: string) returns (subpaths: seq<string>)
    ensures Chain(subpaths) && subpaths[0] == fullPath
    ensures DirName(subpaths[|subpaths| - 1]) == subpaths[|subpaths| - 1]
  {
    var lastPath := fullPath;
    subpaths := [fullPath];
    var path := DirName(fullPath);
    EmptyDirName();
    while path != lastPath
      invariant Chain(subpaths) && subpaths[0] == fullPath
      invariant lastPath == subpaths[|subpaths| - 1] && path == DirName(lastPath)
      decreases lastPath == "", Steps(lastPath)
    {
      if lastPath != "" {
        DirNameFixedPoints(lastPath);
      }
      ChainSnoc(subpaths, path);
      subpaths := subpaths + [path];
      lastPath := path;
      path := DirName(path);
    }
  }

  /** One turn of the loop over the parents. */
  method EnsureDirectory(disk: Disk, path: string) returns (ok: bool)
    requires disk.Valid() && PARENT_DIRECTORY !in Resolve(path)
    requires |Resolve(path)| > 1 ==>
               IsDirectory(disk.nodes, Parent(Resolve(path))) || IsDirectory(disk.nodes, Resolve(path))
    modifies disk
    ensures disk.Valid() && disk.orphanMkdirs == old(disk.orphanMkdirs)
    ensures ok ==> IsDirectory(disk.nodes, Resolve(path))
    ensures disk.nodes == old(disk.nodes)
         || (Vacant(old(disk.nodes), path) && disk.nodes == old(disk.nodes)[Resolve(path) := Directory])
    ensures !disk.faulty ==>
              (ok <==> IsDirectory(old(disk.nodes), Resolve(path)) || Vacant(old(disk.nodes), path))
  {
    var present := DirectoryExists(disk, path);
    if present {
      return true;
    }
    assert Resolve(path) in disk.nodes ==> Rooted(disk.nodes, Resolve(path));
    var made := disk.Mkdir(path);
    if made {
      return true;
    }
    ok := DirectoryExists(disk, path);
  }

  // ---------------------------------------------------------------------------------------
  // Down the way, one location after the other
  // ---------------------------------------------------------------------------------------

  ghost predicate OnlyAdded(before: Tree, t: Tree, target: Location) {
    && (forall l :: l in before ==> l in t && t[l] == before[l])
    && (forall l :: l in t && l !in before ==> t[l].Directory? && AtOrBelow(l, target))
  }

  /** The way to the target has been made as far as `up`, and nothing else; [] is before the first step. */
  ghost predicate Made(before: Tree, t: Tree, target: Location, up: Location, faulty: bool) {
    && IsTree(before) && IsTree(t) && OnlyAdded(before, t, target)
    && if up == [] then t == before
       else IsDirectory(t, up) && (!faulty ==> t == WithDirectories(before, up))
  }

  /** The step after `up` goes to an anchor, to an entry of the directory `up`, or nowhere. */
  predicate Follows(up: Location, l: Location) {
    if up == [] then l == ["."] || l == ["/"] else l == up || (|l| > 1 && Parent(l) == up)
  }

  lemma StepReady(before: Tree, t: Tree, target: Location, up: Location, l: Location, faulty: bool)
    requires Made(before, t, target, up, faulty) && Follows(up, l)
    ensures |l| > 1 ==> IsDirectory(t, Parent(l)) || IsDirectory(t, l)
    ensures |l| == 1 ==> up == [] || up == l
    ensures up == [] ==> IsDirectory(t, l)
  {
  }

  lemma StepMade(before: Tree, t: Tree, target: Location, up: Location, l: Location, faulty: bool, after: Tree)
    requires Made(before, t, target, up, faulty) && Follows(up, l) && AtOrBelow(l, target)
    requires IsTree(after) && IsDirectory(after, l)
    requires after == t || (l !in t && after == t[l := Directory])
    ensures Made(before, after, target, l, faulty)
  {
  }

  /** When a step fails, it is because of a file on the way, and nothing has been made. */
  lemma StepFailed(before: Tree, t: Tree, target: Location, up: Location, l: Location, faulty: bool)
    requires Made(before, t, target, up, faulty) && Follows(up, l) && AtOrBelow(l, target)
    requires !faulty ==> l in t && !IsDirectory(t, l)
    ensures OnlyAdded(before, t, target)
    ensures !faulty ==> t == before && Blocked(before, target)
  {
    if !faulty {
      assert l in before && before[l] == t[l];
      assert Rooted(before, l);
      NoneMissing(before, l);
      NoneMissing(before, Parent(l));
    }
  }

  /** What a call that returned `ok` has made of the tree. */
  ghost predicate Outcome(before: Tree, t: Tree, path: string, faulty: bool, ok: bool) {
    var target := Resolve(path);
    && OnlyAdded(before, t, target)
    && (ok ==> IsDirectory(t, target))
    && (!faulty ==> (ok <==> path != "" && !Blocked(before, target)))
    && (!faulty ==> t == if ok then WithDirectories(before, target) else before)
  }

  lemma TargetMade(before: Tree, t: Tree, target: Location, faulty: bool)
    requires target != [] && Made(before, t, target, target, faulty)
    ensures OnlyAdded(before, t, target) && IsDirectory(t, target) && !Blocked(before, target)
    ensures !faulty ==> t == WithDirectories(before, target)
  {
    forall d | d in before && AtOrBelow(d, target) ensures before[d].Directory? {
      assert Rooted(before, d);
      if d != target {
        AncestorsInTree(t, d, target);
      }
    }
  }

  /** Short of the anchor there is nothing to make. */
  lemma AnchorMade(before: Tree, t: Tree, up: Location, faulty: bool)
    requires Made(before, t, ["."], up, faulty)
    ensures t == before && !IsDirectory(t, [""])
  {
    assert [""] in t ==> Rooted(t, [""]);
    forall l | l in t ensures l in before {
      assert Rooted(t, l);
    }
  }

  // ---------------------------------------------------------------------------------------
  // The way a path stands for
  // ---------------------------------------------------------------------------------------

  lemma ParentAbove(l: Location)
    requires l != []
    ensures AtOrBelow(Parent(l), l)
  {
  }

  lemma NoParentNames(a: Location, b: Location)
    requires AtOrBelow(a, b) && PARENT_DIRECTORY !in b
    ensures PARENT_DIRECTORY !in a
  {
    assert Below(a, b) ==> a == b[..|a|];
  }

  /** The path leads to the target or to a directory around it. */
  ghost predicate LeadsTowards(path: string, target: Location) {
    path != "" && AtOrBelow(Resolve(path), target)
  }

  lemma DirNameAbove(path: string, target: Location)
    requires LeadsTowards(path, target)
    ensures LeadsTowards(DirName(path), target)
  {
    ResolveDirName(path);
    ParentAbove(Resolve(path));
    BelowTrans(Resolve(DirName(path)), Resolve(path), target);
  }

  lemma {:induction false} ChainLeads(subpaths: seq<string>, top: nat, i: nat, target: Location)
    requires Chain(subpaths) && top <= i < |subpaths| && LeadsTowards(subpaths[top], target)
    ensures LeadsTowards(subpaths[i], target)
  {
    if i > top {
      ChainLeads(subpaths, top, i - 1, target);
      DirNameAbove(subpaths[i - 1], target);
      assert Linked(subpaths, i);
    }
  }

  /** Where the loop has got to when number i has been made. */
  ghost function Reached(subpaths: seq<string>, i: nat): Location
    requires i <= |subpaths|
  {
    if i == |subpaths| then [] else Resolve(subpaths[i])
  }

  lemma ChainFollows(subpaths: seq<string>, i: nat)
    requires Chain(subpaths) && i < |subpaths| && subpaths[i] != ""
    requires DirName(subpaths[|subpaths| - 1]) == subpaths[|subpaths| - 1]
    ensures Follows(Reached(subpaths, i + 1), Resolve(subpaths[i]))
  {
    ResolveDirName(subpaths[i]);
    if i + 1 == |subpaths| {
      AnchorOnly(subpaths[i]);
    } else {
      assert Linked(subpaths, i + 1);
    }
  }

  lemma AnchorOnly(path: string)
    requires path != "" && |Resolve(path)| == 1
    ensures Resolve(path) == ["."] || Resolve(path) == ["/"]
  {
  }

  /** A directory that cannot be made although its parent is there is there already, as a file. */
  lemma NotVacant(t: Tree, path: string)
    requires path != "" && IsDirectory(t, Resolve(DirName(path)))
    requires !IsDirectory(t, Resolve(path)) && !Vacant(t, path)
    ensures Resolve(path) in t
  {
    ResolveDirName(path);
  }

  /** The paths the loop goes through; the empty path is followed by ".". */
  ghost predicate IsChain(subpaths: seq<string>) {
    && Chain(subpaths) && DirName(subpaths[|subpaths| - 1]) == subpaths[|subpaths| - 1]
    && PARENT_DIRECTORY !in Resolve(subpaths[0])
    && (subpaths[0] == "" ==> |subpaths| > 1 && subpaths[1] == ".")
  }

  lemma CollectedIsChain(subpaths: seq<string>)
    requires Chain(subpaths) && DirName(subpaths[|subpaths| - 1]) == subpaths[|subpaths| - 1]
    requires PARENT_DIRECTORY !in Resolve(subpaths[0])
    ensures IsChain(subpaths)
  {
    EmptyDirName();
    assert |subpaths| > 1 ==> Linked(subpaths, 1);
  }

  /** Where the way leads that is made: for the empty path no further than to its parent. */
  ghost function Target(path: string): Location {
    if path == "" then ["."] else Resolve(path)
  }

  lemma ResolveEmpty()
    ensures Resolve("") == [""]
  {
    EmptyPath();
    assert WithoutDots([]) == [];
  }

  lemma OnTheWay(subpaths: seq<string>, i: nat)
    requires IsChain(subpaths) && i < |subpaths|
    ensures PARENT_DIRECTORY !in Resolve(subpaths[i])
    ensures subpaths[i] == "" ==> i == 0 && Resolve(subpaths[i]) == [""] && Reached(subpaths, i + 1) == ["."]
    ensures subpaths[i] != "" ==>
              && Follows(Reached(subpaths, i + 1), Resolve(subpaths[i]))
              && AtOrBelow(Resolve(subpaths[i]), Target(subpaths[0]))
  {
    ResolveEmpty();
    ResolveCurrent();
    if subpaths[0] != "" || i > 0 {
      ChainLeads(subpaths, if subpaths[0] == "" then 1 else 0, i, Target(subpaths[0]));
      NoParentNames(Resolve(subpaths[i]), Target(subpaths[0]));
      ChainFollows(subpaths, i);
    }
  }

  // ---------------------------------------------------------------------------------------
  // The loop
  // ---------------------------------------------------------------------------------------

  /**
   CreateDirectory makes the missing directories on the way and succeeds, unless a file is in the way;
   then it makes nothing.  It never asks for a directory whose parent is missing, even when calls fail.
   */
  method CreateDirectory(disk: Disk, fullPath: string) returns (ok: bool)
    requires disk.Valid() && PARENT_DIRECTORY !in Resolve(fullPath)
    modifies disk
    ensures disk.Valid() && disk.orphanMkdirs == old(disk.orphanMkdirs)
    ensures Outcome(old(disk.nodes), disk.nodes, fullPath, disk.faulty, ok)
  {
    var subpaths := CollectParents(fullPath);
    CollectedIsChain(subpaths);
    ok := MakeEach(disk, subpaths);
  }

  /** Number i of the paths, which is not the empty one, has been made. */
  ghost predicate Underway(before: Tree, t: Tree, target: Location, subpaths: seq<string>, i: nat, faulty: bool) {
    && subpaths != [] && i <= |subpaths| && target == Target(subpaths[0])
    && (i < |subpaths| ==> subpaths[i] != "")
    && Made(before, t, target, Reached(subpaths, i), faulty)
  }

  lemma UnderwayAtStart(t: Tree, subpaths: seq<string>, faulty: bool)
    requires IsTree(t) && subpaths != []
    ensures Underway(t, t, Target(subpaths[0]), subpaths, |subpaths|, faulty)
  {
  }

  /** The loop over the parents, from the last to the path itself. */
  method MakeEach(disk: Disk, subpaths: seq<string>) returns (ok: bool)
    requires disk.Valid() && IsChain(subpaths)
    modifies disk
    ensures disk.Valid() && disk.orphanMkdirs == old(disk.orphanMkdirs)
    ensures Outcome(old(disk.nodes), disk.nodes, subpaths[0], disk.faulty, ok)
  {
    ghost var before, target := disk.nodes, Target(subpaths[0]);
    var i := |subpaths|;
    UnderwayAtStart(before, subpaths, disk.faulty);
    while i > 0
      invariant 0 <= i <= |subpaths| && disk.Valid() && disk.orphanMkdirs == old(disk.orphanMkdirs)
      invariant Underway(before, disk.nodes, target, subpaths, i, disk.faulty)
    {
      i := i - 1;
      ok := MakeOne(disk, subpaths, i, before, target);
      if !ok {
        return;
      }
    }
    ok := true;
    SuccessOutcome(before, disk.nodes, target, subpaths, disk.faulty);
  }

  /** One turn of the loop. */
  method MakeOne(disk: Disk, subpaths: seq<string>, i: nat, ghost before: Tree, ghost target: Location)
    returns (made: bool)
    requires disk.Valid() && IsChain(subpaths) && i < |subpaths|
    requires Underway(before, disk.nodes, target, subpaths, i + 1, disk.faulty)
    modifies disk
    ensures disk.Valid() && disk.orphanMkdirs == old(disk.orphanMkdirs)
    ensures made ==> Underway(before, disk.nodes, target, subpaths, i, disk.faulty)
    ensures !made ==> Outcome(before, disk.nodes, subpaths[0], disk.faulty, false)
  {
    OnTheWay(subpaths, i);
    ghost var t, up, l := disk.nodes, Reached(subpaths, i + 1), Resolve(subpaths[i]);
    if subpaths[i] == "" {
      AnchorMade(before, t, up, disk.faulty);
    } else {
      StepReady(before, t, target, up, l, disk.faulty);
    }
    made := EnsureDirectory(disk, subpaths[i]);
    if made {
      StepMade(before, t, target, up, l, disk.faulty, disk.nodes);
    } else {
      FailureOutcome(before, t, subpaths, i, disk.faulty);
    }
  }

  lemma SuccessOutcome(before: Tree, t: Tree, target: Location, subpaths: seq<string>, faulty: bool)
    requires Underway(before, t, target, subpaths, 0, faulty)
    ensures Outcome(before, t, subpaths[0], faulty, true)
  {
    TargetMade(before, t, target, faulty);
  }

  lemma FailedIsThere(before: Tree, t: Tree, target: Location, subpaths: seq<string>, i: nat)
    requires Chain(subpaths) && i < |subpaths| && subpaths[i] != ""
    requires Made(before, t, target, Reached(subpaths, i + 1), false)
    requires Follows(Reached(subpaths, i + 1), Resolve(subpaths[i]))
    requires !IsDirectory(t, Resolve(subpaths[i])) && !Vacant(t, subpaths[i])
    ensures Resolve(subpaths[i]) in t
  {
    StepReady(before, t, target, Reached(subpaths, i + 1), Resolve(subpaths[i]), false);
    assert Linked(subpaths, i + 1);
    NotVacant(t, subpaths[i]);
  }

  lemma FailureOutcome(before: Tree, t: Tree, subpaths: seq<string>, i: nat, faulty: bool)
    requires IsChain(subpaths) && i < |subpaths|
    requires Made(before, t, Target(subpaths[0]), Reached(subpaths, i + 1), faulty)
    requires !faulty ==> !IsDirectory(t, Resolve(subpaths[i])) && !Vacant(t, subpaths[i])
    ensures Outcome(before, t, subpaths[0], faulty, false)
  {
    var up, l, target := Reached(subpaths, i + 1), Resolve(subpaths[i]), Target(subpaths[0]);
    OnTheWay(subpaths, i);
    if subpaths[0] == "" {
      AnchorMade(before, t, up, faulty);
    } else {
      if !faulty {
        FailedIsThere(before, t, target, subpaths, i);
      }
      StepFailed(before, t, target, up, l, faulty);
    }
  }
}
