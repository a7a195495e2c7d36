/**
 An abstract file system: a finite tree of directories and files, and the system calls the file
 utilities make on it.  Paths are the strings the utilities pass; a call sees the entry a path
 resolves to.  There are no links, and ".." is not resolved.
 */
module FileSystem {
  import opened Wrappers
  import opened FilePath

  /** An anchor, "/" or ".", followed by the names on the way to the entry. */
  type Location = seq<string>

  datatype Node = Directory | File(size: nat)

  datatype Entry = Entry(name: string, node: Node)

  datatype StatResult = Found(node: Node) | Missing | Failed

  // ---------------------------------------------------------------------------------------
  // Resolving paths
  // ---------------------------------------------------------------------------------------

  function WithoutDots(names: seq<string>): seq<string> {
    if names == [] then []
    else
      WithoutDots(names[..|names| - 1])
      + if names[|names| - 1] == CURRENT_DIRECTORY then [] else [names[|names| - 1]]
  }

  /** The empty path resolves to nothing: its anchor belongs to no tree. */
  function Anchor(path: string): string {
    if path == "" then "" else if RootOf(path) == "" then "." else "/"
  }

  /** Where a path leads: names that are "." and repeated separators make no difference. */
  function Resolve(path: string): (l: Location)
    ensures l != []
  {
    [Anchor(path)] + WithoutDots(Names(path))
  }

  function Parent(l: Location): Location
    requires l != []
  {
    l[..|l| - 1]
  }

  lemma WithoutDotsSnoc(names: seq<string>, c: string)
    ensures WithoutDots(names + [c]) == WithoutDots(names) + if c == CURRENT_DIRECTORY then [] else [c]
  {
    assert (names + [c])[..|names|] == names;
  }

  lemma ResolveAppend(path: string, c: string)
    requires path != "" && IsName(c) && c != CURRENT_DIRECTORY
    ensures Append(path, c) != "" && Resolve(Append(path, c)) == Resolve(path) + [c]
  {
    Appended(path, c);
    var before := if path == CURRENT_DIRECTORY then [] else Names(path);
    WithoutDotsSnoc(before, c);
    if path == CURRENT_DIRECTORY {
      LastComponents();
      WithoutDotsSnoc([], CURRENT_DIRECTORY);
      assert [] + [CURRENT_DIRECTORY] == [CURRENT_DIRECTORY];
    }
    EmptyPath();
  }

  lemma ResolveStripped(path: string)
    requires path != ""
    ensures Stripped(path) != "" && Resolve(Stripped(path)) == Resolve(path)
  {
    StrippedAlike(path);
  }

  lemma BaseNameOfAppend(path: string, c: string)
    requires path != "" && IsName(c)
    ensures BaseName(Append(path, c)) == c
  {
    Appended(path, c);
    var r := Append(path, c);
    if path == CURRENT_DIRECTORY {
      LastSeparatorOf("", c);
      assert "" + c == c;
    } else {
      StrippedEnds(path);
      var s := Stripped(path);
      var head := if IsSeparator(s[|s| - 1]) then s else s + "/";
      assert r == head + c;
      LastSeparatorOf(head, c);
      assert r[|head|..] == c;
    }
  }

  lemma StrippedEnds(path: string)
    requires path != ""
    ensures Stripped(path) != ""
  {
  }

  lemma ResolveSnoc(path: string, dir: string, c: string)
    requires dir != "" && path != "" && RootOf(dir) == RootOf(path) && Names(path) == Names(dir) + [c]
    ensures Resolve(path) == Resolve(dir) + if c == CURRENT_DIRECTORY then [] else [c]
  {
    WithoutDotsSnoc(Names(dir), c);
  }

  lemma ResolveOneName(path: string, c: string)
    requires path != "" && RootOf(path) == "" && Names(path) == [c]
    ensures Resolve(path) == ["."] + if c == CURRENT_DIRECTORY then [] else [c]
  {
    WithoutDotsSnoc([], c);
    assert [] + [c] == [c];
    assert WithoutDots([]) == [];
  }

  lemma ResolveCurrent()
    ensures Resolve(".") == ["."]
  {
    LastComponents();
    ResolveOneName(".", ".");
  }

  /** DirName goes to the parent, or stays where it is at a "." or at the anchor. */
  lemma ResolveDirName(path: string)
    requires path != ""
    ensures DirName(path) != ""
    ensures || Resolve(DirName(path)) == Resolve(path)
            || (|Resolve(path)| > 1 && Resolve(DirName(path)) == Parent(Resolve(path)))
    ensures DirName(path) == path ==> |Resolve(path)| == 1
    ensures BaseName(path) == CURRENT_DIRECTORY ==> Resolve(DirName(path)) == Resolve(path)
  {
    if AreAllSeparators(path) {
      AllSeparatorsDir(path);
      ResolveSeparators(path);
      ResolveSeparators(DirName(path));
    } else {
      DirNameNotEmpty(path);
      ResolveNamed(path);
      ResolveCurrent();
    }
  }

  lemma ResolveSeparators(path: string)
    requires path != "" && AreAllSeparators(path)
    ensures Resolve(path) == ["/"]
  {
    RootOfAllSeparators(path);
    assert WithoutDots([]) == [];
  }

  lemma DirNameNotEmpty(path: string)
    requires path != "" && !AreAllSeparators(path)
    ensures DirName(path) != "" && (DirName(path) == path ==> path == ".")
  {
    DirNameFixedPoints(path);
    assert IsFixedPoint(path) ==> path == ".";
  }

  lemma ResolveNamed(path: string)
    requires path != "" && !AreAllSeparators(path) && DirName(path) != ""
    ensures || Resolve(DirName(path)) == Resolve(path)
            || (|Resolve(path)| > 1 && Resolve(DirName(path)) == Parent(Resolve(path)))
    ensures BaseName(path) == CURRENT_DIRECTORY ==> Resolve(DirName(path)) == Resolve(path)
  {
    DirNameParts(path);
    if Names(path) == Names(DirName(path)) + [BaseName(path)] {
      ResolveSnoc(path, DirName(path), BaseName(path));
    } else {
      ResolveCurrent();
      ResolveOneName(path, BaseName(path));
    }
  }

  // ---------------------------------------------------------------------------------------
  // Prefixes of locations
  // ---------------------------------------------------------------------------------------

  /** l is strictly inside the directory p, at any depth. */
  predicate Below(p: Location, l: Location) {
    |p| < |l| && l[..|p|] == p
  }

  predicate AtOrBelow(p: Location, l: Location) {
    p == l || Below(p, l)
  }

  lemma BelowTrans(a: Location, b: Location, c: Location)
    requires AtOrBelow(a, b) && AtOrBelow(b, c)
    ensures AtOrBelow(a, c)
    ensures a != b || b != c ==> Below(a, c)
  {
    if Below(a, b) && Below(b, c) {
      assert c[..|a|] == c[..|b|][..|a|];
    }
  }

  lemma BelowParent(p: Location, l: Location)
    requires l != []
    ensures Below(p, l) <==> AtOrBelow(p, Parent(l))
  {
    if Below(p, l) {
      assert Parent(l)[..|p|] == l[..|p|];
    }
    if |p| < |l| {
      assert l[..|p|] == Parent(l)[..|p|];
    }
  }

  // ---------------------------------------------------------------------------------------
  // The tree
  // ---------------------------------------------------------------------------------------

  type Tree = map<Location, Node>

  predicate IsEntryName(s: string) {
    IsName(s) && s != CURRENT_DIRECTORY && s != PARENT_DIRECTORY
  }

  predicate IsDirectory(t: Tree, l: Location) {
    l in t && t[l].Directory?
  }

  ghost predicate IsTree(t: Tree) {
    && IsDirectory(t, ["."]) && IsDirectory(t, ["/"])
    && (forall l {:trigger Rooted(t, l)} :: l in t ==> Rooted(t, l))
  }

  /** An entry hangs below an anchor, under a proper name, in a directory of the tree. */
  predicate Rooted(t: Tree, l: Location) {
    && l != [] && l[0] != ""
    && (|l| > 1 ==> IsEntryName(l[|l| - 1]) && IsDirectory(t, Parent(l)))
  }

  /** The smallest tree: two empty anchors. */
  lemma BareTree()
    ensures IsTree(map[["."] := Directory, ["/"] := Directory])
  {
    var t: Tree := map[["."] := Directory, ["/"] := Directory];
    forall l | l in t ensures Rooted(t, l) {
      assert l == ["."] || l == ["/"];
    }
  }

  function Children(t: Tree, d: Location): set<string> {
    set l | l in t && Below(d, l) && |l| == |d| + 1 :: l[|l| - 1]
  }

  lemma ChildIn(t: Tree, d: Location, name: string)
    ensures name in Children(t, d) <==> d + [name] in t
  {
    if name in Children(t, d) {
      var l :| l in t && Below(d, l) && |l| == |d| + 1 && l[|l| - 1] == name;
      assert l == d + [name];
    } else if d + [name] in t {
      assert Below(d, d + [name]);
    }
  }

  /** Every directory on the way to an entry of the tree is in the tree. */
  lemma {:induction false} AncestorsInTree(t: Tree, d: Location, l: Location)
    requires IsTree(t) && l in t && Below(d, l) && d != []
    ensures IsDirectory(t, d)
    decreases |l|
  {
    assert Rooted(t, l);
    BelowParent(d, l);
    if Parent(l) != d {
      AncestorsInTree(t, d, Parent(l));
    }
  }

  // ---------------------------------------------------------------------------------------
  // System calls
  // ---------------------------------------------------------------------------------------

  /** A path that ends in a separator or in "." can only lead to a directory. */
  predicate MustBeDirectory(path: string) {
    path != "" && (IsSeparator(path[|path| - 1]) || BaseName(path) == CURRENT_DIRECTORY)
  }

  predicate Leads(t: Tree, path: string) {
    Resolve(path) in t && (t[Resolve(path)].Directory? || !MustBeDirectory(path))
  }

  predicate LeadsToFile(t: Tree, path: string) {
    Leads(t, path) && t[Resolve(path)].File?
  }

  /** What was appended to a directory's path leads to the directory's entry of that name. */
  lemma LeadsAppended(t: Tree, path: string, c: string)
    requires path != "" && IsEntryName(c)
    ensures Resolve(Append(path, c)) == Resolve(path) + [c] && Append(path, c) != ""
    ensures Leads(t, Append(path, c)) <==> Resolve(path) + [c] in t
    ensures RemovablePath(Append(path, c))
  {
    ResolveAppend(path, c);
    AppendedNeedNotBeDirectory(path, c);
  }

  lemma AppendedNeedNotBeDirectory(path: string, c: string)
    requires path != "" && IsName(c) && c != CURRENT_DIRECTORY
    ensures !MustBeDirectory(Append(path, c)) && BaseName(Append(path, c)) == c
  {
    BaseNameOfAppend(path, c);
    AppendEnds(path, c);
  }

  lemma AppendEnds(path: string, c: string)
    requires IsName(c)
    ensures Append(path, c) != "" && !IsSeparator(Append(path, c)[|Append(path, c)| - 1])
  {
    var r := Append(path, c);
    assert r[|r| - 1] == c[|c| - 1];
  }

  /** rmdir refuses the anchors and a path that ends in ".". */
  predicate RemovablePath(path: string) {
    |Resolve(path)| > 1 && BaseName(path) != CURRENT_DIRECTORY
  }

  /** Where mkdir can put a directory: nothing is there yet, but its parent is. */
  predicate Vacant(t: Tree, path: string) {
    && |Resolve(path)| > 1 && BaseName(path) != CURRENT_DIRECTORY
    && IsDirectory(t, Parent(Resolve(path))) && Resolve(path) !in t
  }

  /** What readdir and stat report of directory d, in any order; a failed stat reads as an empty file. */
  ghost predicate Lists(t: Tree, d: Location, entries: seq<Entry>, faulty: bool) {
    && (forall i, j :: 0 <= i < j < |entries| ==> entries[i].name != entries[j].name)
    && (forall i :: 0 <= i < |entries| ==>
          entries[i].name == "." || entries[i].name == ".." || d + [entries[i].name] in t)
    && (forall i :: 0 <= i < |entries| ==> Reported(t, d, entries[i], faulty))
    && (forall name :: d + [name] in t ==> exists i :: 0 <= i < |entries| && entries[i].name == name)
  }

  /**
   The kernel's side.  When `faulty`, calls may also fail for reasons that are not modelled; when `shared`, another
   process may make the directory that this one is about to make.
   */
  class Disk {
    var nodes: Tree
    const faulty: bool
    const shared: bool
    /** How often mkdir has been asked to make a directory whose parent is not one. */
    ghost var orphanMkdirs: nat

    ghost predicate Valid()
      reads this
    {
      IsTree(nodes)
    }

    constructor (nodes: Tree, faulty: bool, shared: bool)
      requires IsTree(nodes)
      ensures this.nodes == nodes && this.faulty == faulty && this.shared == shared && Valid() && orphanMkdirs == 0
    {
      this.nodes, this.faulty, this.shared, orphanMkdirs := nodes, faulty, shared, 0;
    }

    method Stat(path: string) returns (r: StatResult)
      ensures r.Found? ==> Leads(nodes, path) && r.node == nodes[Resolve(path)]
      ensures r.Missing? ==> !Leads(nodes, path)
      ensures !faulty ==> !r.Failed?
    {
      if faulty {
        if * {
          return Failed;
        }
      }
      r := if Leads(nodes, path) then Found(nodes[Resolve(path)]) else Missing;
    }

    method Unlink(path: string) returns (ok: bool)
      requires Valid()
      modifies this
      ensures Valid() && orphanMkdirs == old(orphanMkdirs)
      ensures ok ==> LeadsToFile(old(nodes), path)
      ensures nodes == if ok then old(nodes) - {Resolve(path)} else old(nodes)
      ensures !faulty ==> (ok <==> LeadsToFile(old(nodes), path))
    {
      if faulty {
        if * {
          return false;
        }
      }
      var l := Resolve(path);
      ok := LeadsToFile(nodes, path);
      if ok {
        RemoveLeaf(nodes, l);
        nodes := nodes - {l};
      }
    }

    method Rmdir(path: string) returns (ok: bool)
      requires Valid()
      modifies this
      ensures Valid() && orphanMkdirs == old(orphanMkdirs)
      ensures ok ==> IsDirectory(old(nodes), Resolve(path)) && RemovablePath(path)
      ensures ok ==> Children(old(nodes), Resolve(path)) == {}
      ensures nodes == if ok then old(nodes) - {Resolve(path)} else old(nodes)
      ensures !faulty ==> (ok <==> IsDirectory(old(nodes), Resolve(path)) && RemovablePath(path)
                                   && Children(old(nodes), Resolve(path)) == {})
    {
      if faulty {
        if * {
          return false;
        }
      }
      var l := Resolve(path);
      ok := IsDirectory(nodes, l) && RemovablePath(path) && Children(nodes, l) == {};
      if ok {
        NothingBelow(nodes, l);
        RemoveLeaf(nodes, l);
        nodes := nodes - {l};
      }
    }

    method Mkdir(path: string) returns (ok: bool)
      requires Valid()
      requires PARENT_DIRECTORY !in Resolve(path)
      modifies this
      ensures Valid()
      ensures nodes == old(nodes)
           || (Vacant(old(nodes), path) && nodes == old(nodes)[Resolve(path) := Directory])
      ensures ok ==> nodes != old(nodes)
      ensures !ok && nodes != old(nodes) ==> shared
      ensures !faulty ==> (nodes != old(nodes) <==> Vacant(old(nodes), path))
      ensures orphanMkdirs == old(orphanMkdirs)
                              + if |Resolve(path)| > 1 && !IsDirectory(old(nodes), Parent(Resolve(path))) then 1 else 0
    {
      var l := Resolve(path);
      if |l| > 1 && !IsDirectory(nodes, Parent(l)) {
        orphanMkdirs := orphanMkdirs + 1;
      }
      if faulty {
        if * {
          return false;
        }
      }
      ok := Vacant(nodes, path);
      if ok {
        ResolvedNames(path);
        AddLeaf(nodes, l);
        nodes := nodes[l := Directory];
        assert l in nodes;
        if shared {
          if * {
            ok := false;
          }
        }
      }
    }

    /** opendir, readdir and a stat of each entry. */
    method ReadDirectory(path: string) returns (ok: bool, entries: seq<Entry>)
      requires Valid()
      ensures ok ==> IsDirectory(nodes, Resolve(path)) && Lists(nodes, Resolve(path), entries, faulty)
      ensures !faulty ==> (ok <==> IsDirectory(nodes, Resolve(path)))
    {
      entries := [];
      var d := Resolve(path);
      if faulty {
        if * {
          return false, [];
        }
      }
      if !IsDirectory(nodes, d) {
        return false, [];
      }
      ok := true;
      entries := ListChildren(d);
    }

    method ListChildren(d: Location) returns (entries: seq<Entry>)
      requires Valid()
      ensures Lists(nodes, d, entries, faulty)
    {
      var left := Children(nodes, d) + {".", ".."};
      ghost var names := left;
      entries := [];
      while left != {}
        invariant Listing(nodes, d, entries, names, left, faulty)
        decreases left
      {
        var name :| name in left;
        var node := if d + [name] in nodes then nodes[d + [name]] else Directory;
        if faulty {
          if * {
            node := File(0);
          }
        }
        ListingStep(nodes, d, entries, names, left, faulty, Entry(name, node));
        entries := entries + [Entry(name, node)];
        left := left - {name};
      }
      ListingDone(nodes, d, entries, names, faulty);
    }
  }

  predicate Reported(t: Tree, d: Location, e: Entry, faulty: bool) {
    d + [e.name] in t ==> e.node == t[d + [e.name]] || (faulty && e.node == File(0))
  }

  /** The entries read so far are those of `names` without the ones that are `left`. */
  ghost predicate Listing(t: Tree, d: Location, entries: seq<Entry>, names: set<string>, left: set<string>,
                          faulty: bool)
  {
    && left <= names
    && (forall i, j :: 0 <= i < j < |entries| ==> entries[i].name != entries[j].name)
    && (forall i {:trigger entries[i]} :: 0 <= i < |entries| ==>
          entries[i].name in names && entries[i].name !in left && Reported(t, d, entries[i], faulty))
    && (forall name :: name in names && name !in left ==> exists i :: 0 <= i < |entries| && entries[i].name == name)
  }

  lemma ListingStep(t: Tree, d: Location, entries: seq<Entry>, names: set<string>, left: set<string>,
                    faulty: bool, e: Entry)
    requires Listing(t, d, entries, names, left, faulty)
    requires e.name in left && Reported(t, d, e, faulty)
    ensures Listing(t, d, entries + [e], names, left - {e.name}, faulty)
  {
    var next := entries + [e];
    forall name | name in names && name !in left - {e.name}
      ensures exists i :: 0 <= i < |next| && next[i].name == name
    {
      if name == e.name {
        assert next[|entries|].name == name;
      } else {
        var i :| 0 <= i < |entries| && entries[i].name == name;
        assert next[i].name == name;
      }
    }
  }

  lemma ListingDone(t: Tree, d: Location, entries: seq<Entry>, names: set<string>, faulty: bool)
    requires names == Children(t, d) + {".", ".."}
    requires Listing(t, d, entries, names, {}, faulty)
    ensures Lists(t, d, entries, faulty)
  {
    forall i | 0 <= i < |entries|
      ensures entries[i].name == "." || entries[i].name == ".." || d + [entries[i].name] in t
    {
      ChildIn(t, d, entries[i].name);
    }
    forall i | 0 <= i < |entries| ensures Reported(t, d, entries[i], faulty) {
    }
    forall name | d + [name] in t ensures exists i :: 0 <= i < |entries| && entries[i].name == name {
      ChildIn(t, d, name);
    }
  }

  lemma RemoveLeaf(t: Tree, l: Location)
    requires IsTree(t) && l in t && (|l| > 1 || t[l].File?)
    requires t[l].File? || forall x :: x in t ==> !Below(l, x)
    ensures IsTree(t - {l})
  {
    var next := t - {l};
    forall x | x in next ensures Rooted(next, x) {
      assert Rooted(t, x) && Rooted(t, l);
      if |x| > 1 && Parent(x) == l {
        BelowParent(l, x);
      }
    }
  }

  lemma AddLeaf(t: Tree, l: Location)
    requires IsTree(t) && |l| > 1 && l !in t && IsDirectory(t, Parent(l))
    requires IsEntryName(l[|l| - 1]) && l[0] != ""
    ensures IsTree(t[l := Directory])
  {
    var next := t[l := Directory];
    forall x | x in next ensures Rooted(next, x) {
      assert x in t ==> Rooted(t, x);
    }
  }

  /** A directory without entries has nothing below it. */
  lemma NothingBelow(t: Tree, d: Location)
    requires IsTree(t) && d != [] && Children(t, d) == {}
    ensures forall l :: l in t ==> !Below(d, l)
  {
    forall l | l in t && Below(d, l) ensures false {
      var c := l[..|d| + 1];
      if c != l {
        assert c[..|d|] == l[..|d|];
        AncestorsInTree(t, c, l);
      }
      assert c[..|d|] == d;
      assert c == d + [c[|d|]];
      ChildIn(t, d, c[|d|]);
    }
  }

  lemma {:induction false} WithoutDotsNames(names: seq<string>)
    requires AllNames(names)
    ensures forall i :: 0 <= i < |WithoutDots(names)| ==>
              IsName(WithoutDots(names)[i]) && WithoutDots(names)[i] != CURRENT_DIRECTORY
  {
    if names != [] {
      WithoutDotsNames(names[..|names| - 1]);
    }
  }

  lemma ResolvedNames(path: string)
    requires PARENT_DIRECTORY !in Resolve(path)
    requires |Resolve(path)| > 1
    ensures Resolve(path)[0] != "" && IsEntryName(Resolve(path)[|Resolve(path)| - 1])
  {
    NamesAreNames(path, |path|);
    WithoutDotsNames(Names(path));
    EmptyPath();
    assert Resolve(path)[|Resolve(path)| - 1] in Resolve(path);
  }
}
