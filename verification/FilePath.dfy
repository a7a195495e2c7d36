/**
 FilePath in the POSIX configuration: '/' is the only separator and there are no drive letters,
 so "npos + 1" is 0 throughout.  The main result is that peeling a path with DirName and BaseName
 yields the same components as one pass over its characters.
 */
module FilePath {
  import opened Wrappers

  const CURRENT_DIRECTORY := "."
  const PARENT_DIRECTORY := ".."

  predicate IsSeparator(c: char) {
    c == '/'
  }

  predicate AreAllSeparators(s: string) {
    forall i :: 0 <= i < |s| ==> IsSeparator(s[i])
  }

  predicate IsAbsolute(path: string) {
    |path| > 0 && IsSeparator(path[0])
  }

  /** A path component: not empty, and free of separators. */
  predicate IsName(s: string) {
    s != "" && forall i :: 0 <= i < |s| ==> !IsSeparator(s[i])
  }

  // ---------------------------------------------------------------------------------------
  // Stripping
  // ---------------------------------------------------------------------------------------

  /** The length of the first n characters without trailing separators. */
  function TrimmedLength(path: string, n: nat): (k: nat)
    requires n <= |path|
    ensures k <= n
  {
    if n > 0 && IsSeparator(path[n - 1]) then TrimmedLength(path, n - 1) else n
  }

  function WithoutTrailing(path: string): string {
    path[..TrimmedLength(path, |path|)]
  }

  /** The leading separator stays, as do exactly two leading separators with nothing after them. */
  function Stripped(path: string): string {
    if TrimmedLength(path, |path|) > 0 then WithoutTrailing(path)
    else if |path| <= 2 then path
    else "/"
  }

  lemma {:induction false} TrimmedUnique(path: string, n: nat, k: nat)
    requires k <= n <= |path|
    requires forall i :: k <= i < n ==> IsSeparator(path[i])
    requires k > 0 ==> !IsSeparator(path[k - 1])
    ensures TrimmedLength(path, n) == k
  {
    if n > k {
      TrimmedUnique(path, n - 1, k);
    }
  }

  lemma {:induction false} TrimmedSpec(path: string, n: nat)
    requires n <= |path|
    ensures forall i :: TrimmedLength(path, n) <= i < n ==> IsSeparator(path[i])
    ensures TrimmedLength(path, n) > 0 ==> !IsSeparator(path[TrimmedLength(path, n) - 1])
  {
    if n > 0 && IsSeparator(path[n - 1]) {
      TrimmedSpec(path, n - 1);
    }
  }

  lemma NotAllSeparators(path: string)
    ensures AreAllSeparators(path) <==> TrimmedLength(path, |path|) == 0
  {
    TrimmedSpec(path, |path|);
    if AreAllSeparators(path) {
      TrimmedUnique(path, |path|, 0);
    }
  }

  lemma StrippedRoots()
    ensures Stripped("") == "" && Stripped("/") == "/" && Stripped("//") == "//" && Stripped(".") == "."
  {
    TrimmedUnique("/", 1, 0);
    TrimmedUnique("//", 2, 0);
    TrimmedUnique(".", 1, 1);
  }

  method StripTrailingSeparatorsInternal(path: string) returns (r: string)
    ensures r == Stripped(path)
  {
    var start := 1;
    var lastStripped: Option<nat> := None;
    r := path;
    var pos := |path|;
    while pos > start && IsSeparator(r[pos - 1])
      invariant 0 <= pos <= |path| && r <= path && (pos == 0 ==> path == "")
      invariant forall i :: pos <= i < |path| ==> IsSeparator(path[i])
      invariant |r| == pos || (pos == start && r == path && |path| == 2 && IsSeparator(path[0]))
      invariant pos == start && |path| == 2 && IsSeparator(path[0]) ==> r == path
      invariant lastStripped == if |r| == |path| then None else Some(|r| + 1)
    {
      if pos != start + 1 || lastStripped == Some(start + 2) || !IsSeparator(r[start - 1]) {
        r := r[..pos - 1];
        lastStripped := Some(pos);
      }
      pos := pos - 1;
    }
    if pos == 0 || !IsSeparator(r[pos - 1]) {
      TrimmedUnique(path, |path|, pos);
    } else {
      assert pos == 1 && IsSeparator(path[0]);
      TrimmedUnique(path, |path|, 0);
      assert |r| == 1 ==> r == "/";
      assert |path| == 1 ==> r == path;
    }
  }

  // ---------------------------------------------------------------------------------------
  // DirName and BaseName
  // ---------------------------------------------------------------------------------------

  /** The last separator among the first n characters, or -1. */
  function LastSeparator(s: string, n: nat): (k: int)
    requires n <= |s|
    ensures -1 <= k < n
  {
    if n == 0 then -1
    else if IsSeparator(s[n - 1]) then n - 1
    else LastSeparator(s, n - 1)
  }

  lemma {:induction false} LastSeparatorSpec(s: string, n: nat)
    requires n <= |s|
    ensures LastSeparator(s, n) >= 0 ==> IsSeparator(s[LastSeparator(s, n)])
    ensures forall i :: LastSeparator(s, n) < i < n ==> !IsSeparator(s[i])
  {
    if n > 0 && !IsSeparator(s[n - 1]) {
      LastSeparatorSpec(s, n - 1);
    }
  }

  function DirName(path: string): string {
    var dir := Stripped(DirPart(Stripped(path)));
    if dir == "" then CURRENT_DIRECTORY else dir
  }

  /** A stripped path less its last name. */
  function DirPart(s: string): string {
    var k := LastSeparator(s, |s|);
    if k == -1 then ""                               // in the current directory
    else if k == 0 then s[..1]                       // in the root directory
    else if k == 1 && IsSeparator(s[0]) then s[..2]  // in the alternate root "//"
    else s[..k]
  }

  function BaseName(path: string): string {
    var s := Stripped(path);
    var k := LastSeparator(s, |s|);
    if k != -1 && k < |s| - 1 then s[k + 1..] else s
  }

  /** The directory, from what leads up to the last name. */
  function HeadDir(head: string): string {
    if head == "" then CURRENT_DIRECTORY
    else if !AreAllSeparators(head) then WithoutTrailing(head)
    else if |head| == 2 || |head| == 3 then "//"
    else "/"
  }

  lemma {:induction false} LastSeparatorUnique(s: string, n: nat, k: int)
    requires -1 <= k < n <= |s| || (k == -1 && n == 0)
    requires k >= 0 ==> IsSeparator(s[k])
    requires forall i :: k < i < n ==> !IsSeparator(s[i])
    ensures LastSeparator(s, n) == k
  {
    if n > 0 && !IsSeparator(s[n - 1]) {
      LastSeparatorUnique(s, n - 1, k);
    }
  }

  lemma LastSeparatorOf(head: string, base: string)
    requires IsName(base)
    requires head == "" || IsSeparator(head[|head| - 1])
    ensures LastSeparator(head + base, |head + base|) == |head| - 1
  {
    var s := head + base;
    assert forall i :: |head| <= i < |s| ==> s[i] == base[i - |head|];
    LastSeparatorUnique(s, |s|, |head| - 1);
  }

  lemma AllSeparatorsHead(s: string, head: string)
    requires head != "" && AreAllSeparators(head) && head <= s
    requires LastSeparator(s, |s|) == |head| - 1
    ensures Stripped(DirPart(s)) == HeadDir(head)
  {
    var k := |head| - 1;
    StrippedRoots();
    assert s[0] == head[0];
    if k == 0 {
      assert s[..1] == "/";
    } else if k <= 2 {
      assert s[1] == head[1];
      assert s[..2] == "//";
    } else {
      forall i | 0 <= i < k ensures IsSeparator(s[..k][i]) {
        assert s[..k][i] == head[i];
      }
      TrimmedUnique(s[..k], k, 0);
    }
  }

  lemma NamedDirPart(s: string, head: string)
    requires head != "" && !AreAllSeparators(head) && head <= s
    requires IsSeparator(head[|head| - 1]) && LastSeparator(s, |s|) == |head| - 1
    ensures DirPart(s) == head[..|head| - 1]
  {
    assert s[0] == head[0];
  }

  lemma StrippedHead(head: string)
    requires head != "" && !AreAllSeparators(head) && IsSeparator(head[|head| - 1])
    ensures Stripped(head[..|head| - 1]) == WithoutTrailing(head) != ""
  {
    NotAllSeparators(head);
    TrimmedSpec(head, |head|);
    var k, t := |head| - 1, TrimmedLength(head, |head|);
    assert 0 < t <= k;
    TrimmedUnique(head[..k], k, t);
    assert head[..k][..t] == head[..t];
  }

  lemma NamedHead(s: string, head: string)
    requires head != "" && !AreAllSeparators(head) && head <= s
    requires IsSeparator(head[|head| - 1])
    requires LastSeparator(s, |s|) == |head| - 1
    ensures Stripped(DirPart(s)) == HeadDir(head) != ""
  {
    NamedDirPart(s, head);
    StrippedHead(head);
  }

  lemma HeadDirIsDirPart(head: string, base: string)
    requires IsName(base)
    requires head == "" || IsSeparator(head[|head| - 1])
    ensures HeadDir(head) ==
              if Stripped(DirPart(head + base)) == "" then CURRENT_DIRECTORY else Stripped(DirPart(head + base))
  {
    LastSeparatorOf(head, base);
    if head == "" {
      StrippedRoots();
    } else if AreAllSeparators(head) {
      AllSeparatorsHead(head + base, head);
    } else {
      NamedHead(head + base, head);
    }
  }

  /**
   A path that is not all separators splits into what leads up to its last name, that name, and
   trailing separators.
   */
  lemma SplitLast(path: string) returns (head: string, base: string, tail: string)
    requires !AreAllSeparators(path)
    ensures path == head + base + tail && AreAllSeparators(tail)
    ensures IsName(base) && BaseName(path) == base
    ensures Stripped(path) == WithoutTrailing(path) == head + base
    ensures head == "" || IsSeparator(head[|head| - 1])
    ensures DirName(path) == HeadDir(head)
  {
    NotAllSeparators(path);
    head, base, tail := SplitStripped(path);
    LastSeparatorOf(head, base);
    HeadDirIsDirPart(head, base);
    assert (head + base)[|head|..] == base;
  }

  lemma SplitStripped(path: string) returns (head: string, base: string, tail: string)
    requires TrimmedLength(path, |path|) > 0
    ensures path == head + base + tail && AreAllSeparators(tail)
    ensures IsName(base) && WithoutTrailing(path) == head + base
    ensures head == "" || IsSeparator(head[|head| - 1])
  {
    TrimmedSpec(path, |path|);
    var t := TrimmedLength(path, |path|);
    var s := path[..t];
    LastSeparatorSpec(s, t);
    var k := LastSeparator(s, t);
    head, base, tail := s[..k + 1], s[k + 1..], path[t..];
    assert s == head + base;
    assert path == s + tail;
  }

  lemma AllSeparatorsDir(path: string)
    requires AreAllSeparators(path) && path != ""
    ensures DirName(path) == BaseName(path) == Stripped(path) == if |path| == 2 then "//" else "/"
  {
    NotAllSeparators(path);
    StrippedRoots();
    assert |path| == 1 ==> path == "/";
    assert |path| == 2 ==> path == "//";
    assert "/"[..1] == "/" && "//"[..2] == "//";
  }

  /** DirName keeps two of three leading separators, although stripping three leaves one. */
  lemma ThreeLeading()
    ensures DirName("///a") == "//" && Stripped("///") == "/"
  {
    assert TrimmedLength("///a", 4) == 4;
    assert LastSeparator("///a", 4) == 2;
    assert "///a"[..4] == "///a" && "///a"[..2] == "//";
    StrippedRoots();
    TrimmedUnique("///", 3, 0);
  }

  predicate IsFixedPoint(path: string) {
    path == "." || path == "/" || path == "//"
  }

  /** The length DirName works down: each step shortens the path or reaches ".". */
  function Steps(path: string): nat {
    if path == CURRENT_DIRECTORY then 0 else |path|
  }

  lemma HeadDirShorter(path: string, head: string, base: string, tail: string)
    requires IsName(base) && path == head + base + tail
    requires head == "" || IsSeparator(head[|head| - 1])
    ensures HeadDir(head) != ""
    ensures HeadDir(head) == path <==> IsFixedPoint(path)
    ensures HeadDir(head) != path ==> Steps(HeadDir(head)) < Steps(path)
  {
    assert path[|head|] == base[0];
    assert path != "/" && path != "//";
    if head != "" {
      assert path[0] == head[0] && |path| > |head|;
      if !AreAllSeparators(head) {
        NotAllSeparators(head);
      }
    }
  }

  lemma SeparatorsFixedPoints(path: string)
    requires path != "" && AreAllSeparators(path)
    ensures DirName(path) == path <==> IsFixedPoint(path)
    ensures DirName(path) != path ==> Steps(DirName(path)) < Steps(path)
    ensures DirName(path) != ""
  {
    AllSeparatorsDir(path);
    assert path[0] == '/';
    assert |path| == 1 ==> path == "/";
    assert |path| == 2 ==> path == "//";
  }

  lemma DirNameFixedPoints(path: string)
    requires path != ""
    ensures DirName(path) == path <==> IsFixedPoint(path)
    ensures DirName(path) != path ==> Steps(DirName(path)) < Steps(path)
    ensures DirName(path) != ""
  {
    if AreAllSeparators(path) {
      SeparatorsFixedPoints(path);
    } else {
      var head, base, tail := SplitLast(path);
      HeadDirShorter(path, head, base, tail);
    }
  }

  // ---------------------------------------------------------------------------------------
  // One pass over the characters
  // ---------------------------------------------------------------------------------------

  /** The names among the first n characters, reading from the left. */
  function NamesUpTo(path: string, n: nat): (names: seq<string>)
    requires n <= |path|
    ensures n > 0 && !IsSeparator(path[n - 1]) ==> names != []
  {
    if n == 0 then []
    else
      var names := NamesUpTo(path, n - 1);
      var c := path[n - 1];
      if IsSeparator(c) then names
      else if n == 1 || IsSeparator(path[n - 2]) then names + [[c]]
      else names[|names| - 1 := names[|names| - 1] + [c]]
  }

  /** The names in the path, in order: its maximal runs of characters other than separators. */
  function Names(path: string): seq<string> {
    NamesUpTo(path, |path|)
  }

  /** The number of leading separators, given that there are i at least. */
  function LeadingSeparators(path: string, i: nat): (n: nat)
    requires i <= |path|
    ensures i <= n <= |path|
    decreases |path| - i
  {
    if i < |path| && IsSeparator(path[i]) then LeadingSeparators(path, i + 1) else i
  }

  /** Two leading separators name the alternate root; DirName keeps two of three as well. */
  function Root(path: string): string
    requires IsAbsolute(path)
  {
    var n := LeadingSeparators(path, 0);
    if path == "//" || (2 <= n <= 3 && n < |path|) then "//" else "/"
  }

  function RootOf(path: string): string {
    if IsAbsolute(path) then Root(path) else ""
  }

  /** All but the first, built from the right as the names are. */
  function Rest(names: seq<string>): seq<string> {
    if |names| <= 1 then [] else Rest(names[..|names| - 1]) + [names[|names| - 1]]
  }

  lemma {:induction false} RestIsTail(names: seq<string>)
    requires names != []
    ensures Rest(names) == names[1..]
  {
    if |names| > 1 {
      RestIsTail(names[..|names| - 1]);
      assert names[1..] == names[..|names| - 1][1..] + [names[|names| - 1]];
    }
  }

  lemma RestOfTwo(names: seq<string>, c: string)
    requires |names| == 1
    ensures Rest(names + [c]) == [c]
  {
    assert (names + [c])[..1] == names;
  }

  /** A leading "." is dropped if it is the whole path or if more names follow. */
  function Assemble(root: string, names: seq<string>, isDot: bool): seq<string> {
    if root != "" then [root] + names
    else if names != [] && names[0] == CURRENT_DIRECTORY && (isDot || |names| > 1) then Rest(names)
    else names
  }

  function Components(path: string): seq<string> {
    Assemble(RootOf(path), Names(path), path == CURRENT_DIRECTORY)
  }

  predicate AllNames(names: seq<string>) {
    forall i :: 0 <= i < |names| ==> IsName(names[i])
  }

  lemma {:induction false} NamesAreNames(path: string, n: nat)
    requires n <= |path|
    ensures AllNames(NamesUpTo(path, n))
  {
    if n > 0 {
      NamesAreNames(path, n - 1);
    }
  }

  lemma {:induction false} NamesOfPrefix(p: string, q: string, n: nat)
    requires n <= |p| && n <= |q|
    requires forall i :: 0 <= i < n ==> p[i] == q[i]
    ensures NamesUpTo(p, n) == NamesUpTo(q, n)
  {
    if n > 0 {
      NamesOfPrefix(p, q, n - 1);
    }
  }

  lemma {:induction false} NamesOfSeparators(path: string, n: nat)
    requires n <= |path| && forall i :: 0 <= i < n ==> IsSeparator(path[i])
    ensures NamesUpTo(path, n) == []
  {
    if n > 0 {
      NamesOfSeparators(path, n - 1);
    }
  }

  lemma {:induction false} NamesNonEmpty(path: string, n: nat, i: nat)
    requires i < n <= |path| && !IsSeparator(path[i])
    ensures NamesUpTo(path, n) != []
  {
    if i < n - 1 {
      NamesNonEmpty(path, n - 1, i);
    }
  }

  lemma {:induction false} NamesOfName(name: string, n: nat)
    requires IsName(name) && 0 < n <= |name|
    ensures NamesUpTo(name, n) == [name[..n]]
  {
    if n > 1 {
      NamesOfName(name, n - 1);
      assert name[..n] == name[..n - 1] + [name[n - 1]];
    } else {
      assert NamesUpTo(name, 0) == [];
      assert name[..n] == [name[0]];
    }
  }

  lemma SingleName(name: string)
    requires IsName(name)
    ensures Names(name) == [name]
  {
    NamesOfName(name, |name|);
    assert name[..|name|] == name;
  }

  lemma {:induction false} NamesConcatUpTo(a: string, b: string, k: nat)
    requires a == "" || b == "" || IsSeparator(a[|a| - 1]) || IsSeparator(b[0])
    requires k <= |b|
    ensures NamesUpTo(a + b, |a| + k) == Names(a) + NamesUpTo(b, k)
  {
    if k == 0 {
      NamesOfPrefix(a + b, a, |a|);
    } else {
      NamesConcatUpTo(a, b, k - 1);
      NextChar(a, b, k);
    }
  }

  /** Reading the k-th character of b after a does to the names what reading it in b alone does. */
  lemma NextChar(a: string, b: string, k: nat)
    requires a == "" || b == "" || IsSeparator(a[|a| - 1]) || IsSeparator(b[0])
    requires 0 < k <= |b|
    requires NamesUpTo(a + b, |a| + k - 1) == Names(a) + NamesUpTo(b, k - 1)
    ensures NamesUpTo(a + b, |a| + k) == Names(a) + NamesUpTo(b, k)
  {
    var ab := a + b;
    var c := b[k - 1];
    assert ab[|a| + k - 1] == c;
    if !IsSeparator(c) {
      if k == 1 {
        assert a != "" ==> ab[|a| - 1] == a[|a| - 1];
      } else {
        assert ab[|a| + k - 2] == b[k - 2];
      }
    }
  }

  /** Where a separator parts two pieces of a path, their names are read separately. */
  lemma NamesConcat(a: string, b: string)
    requires a == "" || b == "" || IsSeparator(a[|a| - 1]) || IsSeparator(b[0])
    ensures Names(a + b) == Names(a) + Names(b)
  {
    NamesConcatUpTo(a, b, |b|);
  }

  lemma NamesWithoutTrailing(path: string)
    ensures Names(WithoutTrailing(path)) == Names(path)
  {
    TrimmedSpec(path, |path|);
    var t := TrimmedLength(path, |path|);
    assert path == path[..t] + path[t..];
    NamesOfSeparators(path[t..], |path[t..]|);
    NamesConcat(path[..t], path[t..]);
  }

  lemma {:induction false} LeadingUnique(path: string, i: nat, n: nat)
    requires i <= n <= |path|
    requires forall j :: i <= j < n ==> IsSeparator(path[j])
    requires n < |path| ==> !IsSeparator(path[n])
    ensures LeadingSeparators(path, i) == n
    decreases n - i
  {
    if i < n {
      LeadingUnique(path, i + 1, n);
    }
  }

  lemma {:induction false} LeadingOfPrefix(a: string, b: string, i: nat, j: nat)
    requires i <= j < |a| && !IsSeparator(a[j])
    ensures LeadingSeparators(a + b, i) == LeadingSeparators(a, i) < |a|
    decreases j - i
  {
    assert (a + b)[i] == a[i];
    if IsSeparator(a[i]) {
      LeadingOfPrefix(a, b, i + 1, j);
    }
  }

  lemma RootOfAllSeparators(path: string)
    requires AreAllSeparators(path) && path != ""
    ensures RootOf(path) == if |path| == 2 then "//" else "/"
    ensures Names(path) == []
  {
    LeadingUnique(path, 0, |path|);
    assert |path| == 2 ==> path == "//";
    NamesOfSeparators(path, |path|);
  }

  lemma RootOfPrefix(a: string, b: string, j: nat)
    requires j < |a| && !IsSeparator(a[j])
    ensures RootOf(a + b) == RootOf(a)
  {
    LeadingOfPrefix(a, b, 0, j);
    assert (a + b)[0] == a[0] && (a + b)[j] == a[j];
    assert a != "//" && a + b != "//";
  }

  lemma RootOfLeading(a: string, b: string)
    requires AreAllSeparators(a) && a != ""
    requires b != "" && !IsSeparator(b[0])
    ensures RootOf(a + b) == if |a| == 2 || |a| == 3 then "//" else "/"
  {
    assert (a + b)[|a|] == b[0];
    LeadingUnique(a + b, 0, |a|);
    assert (a + b)[0] == a[0];
  }

  /** The root and the names of a path in terms of its directory's. */
  lemma DirNameParts(path: string)
    requires !AreAllSeparators(path)
    ensures RootOf(DirName(path)) == RootOf(path)
    ensures IsName(BaseName(path))
    ensures || (DirName(path) == CURRENT_DIRECTORY && Names(path) == [BaseName(path)] && RootOf(path) == "")
            || Names(path) == Names(DirName(path)) + [BaseName(path)]
  {
    var head, base, tail := SplitLast(path);
    NamesWithoutTrailing(path);
    NamesConcat(head, base);
    SingleName(base);
    HeadDirParts(head, base, tail);
  }

  lemma HeadDirParts(head: string, base: string, tail: string)
    requires IsName(base)
    requires head == "" || IsSeparator(head[|head| - 1])
    ensures RootOf(HeadDir(head)) == RootOf(head + base + tail)
    ensures if head == "" then RootOf(head + base + tail) == "" else Names(HeadDir(head)) == Names(head)
  {
    assert head + base + tail == head + (base + tail);
    if head == "" {
      assert (head + base + tail)[0] == base[0];
    } else if AreAllSeparators(head) {
      RootOfLeading(head, base + tail);
      RootOfAllSeparators(head);
      RootOfAllSeparators(HeadDir(head));
    } else {
      var j :| 0 <= j < |head| && !IsSeparator(head[j]);
      RootOfPrefix(head, base + tail, j);
      RootOfTrimmed(head, j);
      NamesWithoutTrailing(head);
    }
  }

  lemma RootOfTrimmed(path: string, j: nat)
    requires j < |path| && !IsSeparator(path[j])
    ensures RootOf(WithoutTrailing(path)) == RootOf(path)
  {
    TrimmedSpec(path, |path|);
    var t := TrimmedLength(path, |path|);
    assert path == path[..t] + path[t..];
    RootOfPrefix(path[..t], path[t..], j);
  }

  lemma RelativeHasNames(path: string)
    requires path != "" && RootOf(path) == ""
    ensures Names(path) != []
  {
    NamesNonEmpty(path, |path|, 0);
  }

  /** The first separator at or after i. */
  function NameEnd(path: string, i: nat): (n: nat)
    requires i <= |path|
    ensures i <= n <= |path|
    ensures n < |path| ==> IsSeparator(path[n])
    ensures forall j :: i <= j < n ==> !IsSeparator(path[j])
    decreases |path| - i
  {
    if i < |path| && !IsSeparator(path[i]) then NameEnd(path, i + 1) else i
  }

  /** Only "." itself, followed by separators, has the single name ".". */
  lemma OnlyDot(path: string)
    requires RootOf(path) == "" && Names(path) == [CURRENT_DIRECTORY]
    ensures Stripped(path) == CURRENT_DIRECTORY
  {
    assert path != "";
    var n := NameEnd(path, 0);
    var name, rest := path[..n], path[n..];
    assert path == name + rest;
    SingleName(name);
    NamesConcat(name, rest);
    assert Names(path)[0] == name;
    forall i | n <= i < |path| ensures IsSeparator(path[i]) {
      if !IsSeparator(path[i]) {
        NamesNonEmpty(rest, |rest|, i - n);
        assert false;
      }
    }
    TrimmedUnique(path, |path|, n);
  }

  lemma DirNameIsStripped(path: string)
    requires !AreAllSeparators(path)
    ensures Stripped(DirName(path)) == DirName(path) != ""
  {
    var head, base, tail := SplitLast(path);
    StrippedRoots();
    if head != "" && !AreAllSeparators(head) {
      NotAllSeparators(head);
      StrippedTwice(head);
    }
  }

  lemma StrippedTwice(path: string)
    requires TrimmedLength(path, |path|) > 0
    ensures Stripped(WithoutTrailing(path)) == WithoutTrailing(path)
  {
    TrimmedSpec(path, |path|);
    var w := WithoutTrailing(path);
    TrimmedUnique(w, |w|, |w|);
  }

  /** A path with one name more than its directory has one component more. */
  lemma ComponentsSnoc(dir: string, path: string, base: string)
    requires RootOf(path) == RootOf(dir) && Names(path) == Names(dir) + [base]
    requires path != CURRENT_DIRECTORY
    requires RootOf(dir) == "" ==> dir != "" && (Names(dir) == [CURRENT_DIRECTORY] ==> dir == CURRENT_DIRECTORY)
    ensures Components(path) == Components(dir) + [base]
  {
    if RootOf(dir) == "" {
      RelativeHasNames(dir);
    }
    assert (Names(dir) + [base])[..|Names(dir)|] == Names(dir);
  }

  /** One turn of the component loop. */
  lemma ComponentsStep(path: string)
    requires path != "" && DirName(path) != path
    ensures || (AreAllSeparators(BaseName(path)) && Components(path) == Components(DirName(path)))
            || (!AreAllSeparators(BaseName(path))
                && Components(path) == Components(DirName(path)) + [BaseName(path)])
  {
    if AreAllSeparators(path) {
      AllSeparatorsDir(path);
      RootOfAllSeparators(path);
      RootOfAllSeparators("/");
      assert |path| == 2 ==> path == "//";
      assert |path| == 1 ==> path == "/";
    } else {
      NameStep(path, DirName(path), BaseName(path));
    }
  }

  lemma NameStep(path: string, dir: string, base: string)
    requires !AreAllSeparators(path) && dir == DirName(path) != path && base == BaseName(path)
    ensures !AreAllSeparators(base)
    ensures Components(path) == Components(dir) + [base]
  {
    DirNameParts(path);
    DirNameIsStripped(path);
    DirNameFixedPoints(path);
    assert !IsSeparator(base[0]);
    if Names(path) == [base] && dir == CURRENT_DIRECTORY && RootOf(path) == "" {
      LastComponents();
    } else {
      if RootOf(dir) == "" && Names(dir) == [CURRENT_DIRECTORY] {
        OnlyDot(dir);
      }
      ComponentsSnoc(dir, path, base);
    }
  }

  function Reverse<T>(s: seq<T>): (r: seq<T>)
    ensures |r| == |s|
  {
    if s == [] then [] else [s[|s| - 1]] + Reverse(s[..|s| - 1])
  }

  lemma ReverseSnoc<T>(s: seq<T>, x: T)
    ensures Reverse(s + [x]) == [x] + Reverse(s)
  {
    assert (s + [x])[..|s|] == s;
  }

  /** What has been peeled off so far, last component first, completes the current path's components. */
  ghost predicate Peeled(path: string, current: string, retVal: seq<string>) {
    Components(path) == Components(current) + Reverse(retVal)
  }

  lemma PeelSeq(all: seq<string>, now: seq<string>, next: seq<string>, retVal: seq<string>, base: string)
    requires all == now + Reverse(retVal)
    ensures now == next + [base] ==> all == next + Reverse(retVal + [base])
  {
    ReverseSnoc(retVal, base);
  }

  lemma PeelStep(path: string, current: string, retVal: seq<string>)
    requires current != "" && Peeled(path, current, retVal) && current != DirName(current)
    ensures Peeled(path, DirName(current),
                   if AreAllSeparators(BaseName(current)) then retVal else retVal + [BaseName(current)])
  {
    ComponentsStep(current);
    PeelSeq(Components(path), Components(current), Components(DirName(current)), retVal, BaseName(current));
  }

  lemma FixedPointComponents(current: string)
    requires current != "" && current == DirName(current)
    ensures BaseName(current) != ""
    ensures Components(current) == if BaseName(current) != CURRENT_DIRECTORY then [BaseName(current)] else []
  {
    DirNameFixedPoints(current);
    LastComponents();
  }

  lemma PeelSeqLast(all: seq<string>, now: seq<string>, retVal: seq<string>, base: string)
    requires all == now + Reverse(retVal)
    ensures now == [base] ==> all == Reverse(retVal + [base])
    ensures now == [] ==> all == Reverse(retVal)
  {
    ReverseSnoc(retVal, base);
  }

  lemma PeelLast(path: string, current: string, retVal: seq<string>)
    requires current != "" && Peeled(path, current, retVal) && current == DirName(current)
    ensures Components(path) ==
              Reverse(if BaseName(current) != "" && BaseName(current) != CURRENT_DIRECTORY
                      then retVal + [BaseName(current)] else retVal)
  {
    FixedPointComponents(current);
    PeelSeqLast(Components(path), Components(current), retVal, BaseName(current));
  }

  /** The iterated DirName/BaseName split is the one-pass split, in at most one step per character. */
  method GetComponents(path: string) returns (components: seq<string>, ghost steps: nat)
    ensures components == Components(path)
    ensures steps <= |path|
    ensures |components| <= steps + 1
  {
    steps := 0;
    if path == "" {
      EmptyPath();
      return [], 0;
    }
    var retVal: seq<string> := [];
    var current := path;
    assert Peeled(path, current, retVal);
    while current != DirName(current)
      invariant current != ""
      invariant Peeled(path, current, retVal)
      invariant steps + Steps(current) <= |path| && |retVal| <= steps
      decreases Steps(current)
    {
      DirNameFixedPoints(current);
      PeelStep(path, current, retVal);
      var base := BaseName(current);
      if !AreAllSeparators(base) {
        retVal := retVal + [base];
      }
      current := DirName(current);
      steps := steps + 1;
    }
    PeelLast(path, current, retVal);
    var base := BaseName(current);
    if base != "" && base != CURRENT_DIRECTORY {
      retVal := retVal + [base];
    }
    components := Reverse(retVal);
  }

  lemma LastComponents()
    ensures Names(".") == ["."] && Names("/") == [] && Names("//") == []
    ensures RootOf(".") == "" && RootOf("/") == "/" && RootOf("//") == "//"
    ensures Components(".") == [] && BaseName(".") == "."
    ensures Components("/") == ["/"] && BaseName("/") == "/"
    ensures Components("//") == ["//"] && BaseName("//") == "//"
  {
    SingleName(".");
    AllSeparatorsDir("/");
    AllSeparatorsDir("//");
    RootOfAllSeparators("/");
    RootOfAllSeparators("//");
    StrippedRoots();
  }

  // ---------------------------------------------------------------------------------------
  // Append, AppendRelativePath, IsParent
  // ---------------------------------------------------------------------------------------

  function Append(path: string, component: string): string
    requires !IsAbsolute(component)
  {
    if path == CURRENT_DIRECTORY then component
    else
      var s := Stripped(path);
      if component != "" && s != "" && !IsSeparator(s[|s| - 1]) then s + "/" + component
      else s + component
  }

  /** "./" and its like: stripping leaves ".", which a further component then hides. */
  predicate DotWithSeparators(path: string) {
    path != CURRENT_DIRECTORY && Stripped(path) == CURRENT_DIRECTORY
  }

  /** Stripping changes neither the names nor the root. */
  lemma StrippedAlike(path: string)
    ensures Names(Stripped(path)) == Names(path)
    ensures RootOf(Stripped(path)) == RootOf(path)
    ensures Stripped(Stripped(path)) == Stripped(path)
  {
    NotAllSeparators(path);
    StrippedRoots();
    if path == "" {
    } else if AreAllSeparators(path) {
      AllSeparatorsDir(path);
      RootOfAllSeparators(path);
      RootOfAllSeparators(Stripped(path));
    } else {
      var j :| 0 <= j < |path| && !IsSeparator(path[j]);
      NamesWithoutTrailing(path);
      RootOfTrimmed(path, j);
      StrippedTwice(path);
    }
  }

  lemma EndsInName(r: string)
    requires r != "" && !IsSeparator(r[|r| - 1])
    ensures Stripped(r) == r
  {
    TrimmedUnique(r, |r|, |r|);
  }

  /** The appended path: its names, its root, and that it needs no stripping. */
  lemma Appended(path: string, c: string)
    requires IsName(c)
    ensures Names(Append(path, c)) == (if path == CURRENT_DIRECTORY then [] else Names(path)) + [c]
    ensures RootOf(Append(path, c)) == RootOf(path)
    ensures Stripped(Append(path, c)) == Append(path, c)
    ensures Append(path, c) == CURRENT_DIRECTORY ==> c == CURRENT_DIRECTORY && (path == "" || path == ".")
  {
    var r := Append(path, c);
    SingleName(c);
    assert r[|r| - 1] == c[|c| - 1];
    EndsInName(r);
    if path != CURRENT_DIRECTORY {
      StrippedAlike(path);
      var s := Stripped(path);
      if s == "" {
        assert s + c == c;
      } else if IsSeparator(s[|s| - 1]) {
        AppendedToRoot(s, c);
      } else {
        AppendedToName(s, c);
      }
    }
  }

  lemma AppendedToRoot(s: string, c: string)
    requires IsName(c) && s != "" && IsSeparator(s[|s| - 1]) && Stripped(s) == s
    ensures Names(s + c) == Names(s) + [c] && RootOf(s + c) == RootOf(s)
  {
    SingleName(c);
    NamesConcat(s, c);
    NotAllSeparators(s);
    TrimmedSpec(s, |s|);
    RootOfLeading(s, c);
    RootOfAllSeparators(s);
  }

  lemma AppendedToName(s: string, c: string)
    requires IsName(c) && s != "" && !IsSeparator(s[|s| - 1])
    ensures Names(s + "/" + c) == Names(s) + [c] && RootOf(s + "/" + c) == RootOf(s)
  {
    SingleName(c);
    NamesOfSeparators("/", 1);
    NamesConcat(s, "/");
    NamesConcat(s + "/", c);
    RootOfPrefix(s, "/" + c, |s| - 1);
    assert s + "/" + c == s + ("/" + c);
  }

  lemma EmptyPath()
    ensures Components("") == [] && Names("") == [] && RootOf("") == ""
  {
  }

  /** The appended path letter by letter: the stripped path, at most one separator more, and the component. */
  lemma AppendedString(path: string, c: string)
    requires c == "" || !IsSeparator(c[0])
    ensures var r := Append(path, c);
            if path == "." || path == "" then r == c
            else if c == "" then r == Stripped(path)
            else
              var n := |r| - |c|;
              && 0 < n && r[n..] == c && IsSeparator(r[n - 1])
              && r[..n] == if IsSeparator(Stripped(path)[|Stripped(path)| - 1]) then Stripped(path)
                           else Stripped(path) + "/"
  {
    StrippedRoots();
    if path != "" {
      StrippedNotEmpty(path);
      var s := Stripped(path);
      var head := if IsSeparator(s[|s| - 1]) then s else s + "/";
      if path != "." && c != "" {
        assert Append(path, c) == head + c;
      } else {
        assert s + "" == s;
      }
    } else {
      assert "" + c == c;
    }
  }

  lemma StrippedNotEmpty(path: string)
    requires path != ""
    ensures Stripped(path) != ""
  {
  }

  /** Appending a name adds it as the last component, unless a "." gets in the way. */
  lemma AppendAddsComponent(path: string, c: string)
    requires IsName(c)
    ensures Components(Append(path, c)) == Components(path) + [c]
      <==> !DotWithSeparators(path) && !(c == CURRENT_DIRECTORY && (path == "" || path == "."))
  {
    Appended(path, c);
    if path == "" || path == "." {
      LastComponents();
      EmptyPath();
      assert Append(path, c) == c by { StrippedRoots(); assert "" + c == c; }
    } else if DotWithSeparators(path) {
      DotAppend(path, c);
    } else {
      if RootOf(path) == "" && Names(path) == [CURRENT_DIRECTORY] {
        OnlyDot(path);
      }
      ComponentsSnoc(path, Append(path, c), c);
    }
  }

  /** "./" is one component; "./c" is one component too. */
  lemma DotAppend(path: string, c: string)
    requires DotWithSeparators(path) && IsName(c)
    ensures Components(path) == [CURRENT_DIRECTORY]
    ensures Components(Append(path, c)) == [c]
  {
    Appended(path, c);
    StrippedAlike(path);
    LastComponents();
    RestOfTwo(Names(path), c);
  }

  /** The components of "./" and "a" are not those of "./a". */
  lemma DotSlash()
    ensures Append("./", "a") == "./a" && Components("./") == ["."] && Components("./a") == ["a"]
  {
    assert TrimmedLength("./", 2) == 1;
    assert "./"[..1] == ".";
    assert Stripped("./") == ".";
    assert "." + "/" + "a" == "./a";
    DotAppend("./", "a");
  }

  /** The parent's components are a non-empty strict prefix of the child's. */
  predicate IsParentOf(parent: string, child: string) {
    Components(parent) != [] && Components(parent) < Components(child)
  }

  /** Components past the first are names. */
  lemma LaterComponentsAreNames(path: string)
    ensures forall i :: 0 < i < |Components(path)| ==> IsName(Components(path)[i])
  {
    NamesAreNames(path, |path|);
    if Names(path) != [] {
      RestIsTail(Names(path));
    }
  }

  function AppendAll(path: string, names: seq<string>): string
    requires AllNames(names)
  {
    if names == [] then path
    else
      assert IsName(names[|names| - 1]);
      Append(AppendAll(path, names[..|names| - 1]), names[|names| - 1])
  }

  /** What the child has beyond the parent. */
  function Beyond(parent: string, child: string): (names: seq<string>)
    requires IsParentOf(parent, child)
    ensures AllNames(names)
  {
    LaterComponentsAreNames(child);
    Components(child)[|Components(parent)|..]
  }

  /** Walks both component lists in step, as far as the shorter goes. */
  method MatchComponents(parent: seq<string>, child: seq<string>) returns (ok: bool)
    requires |parent| <= |child|
    ensures ok <==> parent <= child
  {
    var i := 0;
    while i < |parent|
      invariant 0 <= i <= |parent|
      invariant forall j :: 0 <= j < i ==> parent[j] == child[j]
    {
      if parent[i] != child[i] {
        return false;
      }
      i := i + 1;
    }
    ok := true;
  }

  method AppendEach(path: string, names: seq<string>) returns (r: string)
    requires AllNames(names)
    ensures r == AppendAll(path, names)
  {
    r := path;
    var i := 0;
    while i < |names|
      invariant 0 <= i <= |names|
      invariant r == AppendAll(path, names[..i])
    {
      assert names[..i + 1][..i] == names[..i];
      r := Append(r, names[i]);
      i := i + 1;
    }
    assert names[..i] == names;
  }

  method AppendRelativePath(parent: string, child: string, path: Option<string>)
    returns (ok: bool, path': Option<string>)
    ensures ok <==> IsParentOf(parent, child)
    ensures !ok ==> path' == path
    ensures ok ==> path' == match path case None => None
                                       case Some(p) => Some(AppendAll(p, Beyond(parent, child)))
  {
    path' := path;
    var parentComponents, _ := GetComponents(parent);
    var childComponents, _ := GetComponents(child);
    if parentComponents == [] || |parentComponents| >= |childComponents| {
      return false, path;
    }
    ok := MatchComponents(parentComponents, childComponents);
    if ok && path.Some? {
      LaterComponentsAreNames(child);
      var p := AppendEach(path.value, childComponents[|parentComponents|..]);
      path' := Some(p);
    }
  }

  /** IsParent is AppendRelativePath with nowhere to put the rest. */
  method IsParent(parent: string, child: string) returns (r: bool)
    ensures r <==> IsParentOf(parent, child)
  {
    var ok, _ := AppendRelativePath(parent, child, None);
    r := ok;
  }

  lemma IsParentStrictOrder(a: string, b: string, c: string)
    ensures !IsParentOf(a, a)
    ensures IsParentOf(a, b) ==> !IsParentOf(b, a)
    ensures IsParentOf(a, b) && IsParentOf(b, c) ==> IsParentOf(a, c)
  {
  }

  lemma AppendOne(path: string, c: string)
    requires IsName(c) && !DotWithSeparators(path) && Components(path) != []
    ensures Components(Append(path, c)) == Components(path) + [c]
    ensures !DotWithSeparators(Append(path, c))
  {
    LastComponents();
    EmptyPath();
    AppendAddsComponent(path, c);
    Appended(path, c);
  }

  /** What holds of the path and is kept by each Append holds of the path with all names appended. */
  lemma {:induction false} AppendAllKeeps(path: string, names: seq<string>, p: (string, seq<string>) -> bool)
    requires AllNames(names)
    requires p(path, [])
    requires forall q, ns, c :: p(q, ns) && IsName(c) ==> p(Append(q, c), ns + [c])
    ensures p(AppendAll(path, names), names)
  {
    if names != [] {
      var rest, c := names[..|names| - 1], names[|names| - 1];
      AppendAllKeeps(path, rest, p);
      assert names == rest + [c];
    }
  }

  lemma AppendOneTo(q: string, c: string, start: seq<string>, ns: seq<string>)
    requires IsName(c) && !DotWithSeparators(q) && Components(q) == start + ns && start != []
    ensures Components(Append(q, c)) == start + (ns + [c]) && !DotWithSeparators(Append(q, c))
  {
    StartNotEmpty(start, ns);
    AppendOne(q, c);
    SnocTo(Components(q), Components(Append(q, c)), start, ns, c);
  }

  lemma StartNotEmpty(start: seq<string>, ns: seq<string>)
    requires start != []
    ensures start + ns != []
  {
  }

  lemma SnocTo(before: seq<string>, after: seq<string>, start: seq<string>, ns: seq<string>, c: string)
    requires before == start + ns && after == before + [c]
    ensures after == start + (ns + [c])
  {
  }

  lemma AppendAllComponentsTo(path: string, names: seq<string>, start: seq<string>)
    requires AllNames(names)
    requires !DotWithSeparators(path) && start == Components(path) != []
    ensures Components(AppendAll(path, names)) == start + names
  {
    var p := (q, ns) => !DotWithSeparators(q) && Components(q) == start + ns;
    forall q, ns, c | p(q, ns) && IsName(c) ensures p(Append(q, c), ns + [c]) {
      AppendOneTo(q, c, start, ns);
    }
    AppendAllKeeps(path, names, p);
  }

  /** No path but "" and "." is without components. */
  lemma WithoutComponents(path: string)
    ensures Components(path) == [] <==> path == "" || path == "."
  {
    LastComponents();
    EmptyPath();
    if Components(path) == [] {
      if path != "" && RootOf(path) == "" {
        RelativeHasNames(path);
      }
      if Names(path) != [] {
        RestIsTail(Names(path));
      }
    }
  }

  /** Appending a name makes at most one component more. */
  lemma AtMostOneMore(path: string, c: string)
    requires IsName(c)
    ensures |Components(Append(path, c))| <= |Components(path)| + 1
  {
    AppendAddsComponent(path, c);
    if DotWithSeparators(path) {
      DotAppend(path, c);
    } else if c == CURRENT_DIRECTORY && (path == "" || path == ".") {
      AppendedToNothing(path, c);
      LastComponents();
    }
  }

  lemma AppendedToNothing(path: string, c: string)
    requires IsName(c) && (path == "" || path == ".")
    ensures Append(path, c) == c
  {
    StrippedRoots();
    assert "" + c == c;
  }

  /** From a path without components a "." as the first name is lost, and other names are all there is. */
  lemma AppendAllToNothing(path: string, names: seq<string>)
    requires AllNames(names) && names != [] && (path == "" || path == ".")
    ensures Components(AppendAll(path, names)) == names <==> names[0] != CURRENT_DIRECTORY
  {
    var p := (q, ns) =>
      if ns == [] then q == path
      else if ns[0] == CURRENT_DIRECTORY then |Components(q)| < |ns|
      else !DotWithSeparators(q) && Components(q) == ns;
    forall q, ns, c | p(q, ns) && IsName(c) ensures p(Append(q, c), ns + [c]) {
      if ns == [] {
        FirstToNothing(path, c);
        assert ns + [c] == [c];
      } else if ns[0] == CURRENT_DIRECTORY {
        AtMostOneMore(q, c);
      } else {
        AppendOne(q, c);
      }
    }
    AppendAllKeeps(path, names, p);
  }

  lemma FirstToNothing(path: string, c: string)
    requires IsName(c) && (path == "" || path == ".")
    ensures if c == CURRENT_DIRECTORY then Components(Append(path, c)) == []
            else !DotWithSeparators(Append(path, c)) && Components(Append(path, c)) == [c]
  {
    AppendedToNothing(path, c);
    LastComponents();
    EmptyPath();
    AppendAddsComponent(path, c);
    Appended(path, c);
  }

  /**
   Appending names one after the other adds them all, exactly if the start is not "." with separators and a
   first name "." does not meet a start without components.
   */
  lemma AppendAllComponents(path: string, names: seq<string>)
    requires AllNames(names)
    ensures Components(AppendAll(path, names)) == Components(path) + names
      <==> names == []
           || (!DotWithSeparators(path) && !(names[0] == CURRENT_DIRECTORY && (path == "" || path == ".")))
  {
    WithoutComponents(path);
    if names == [] {
      assert Components(path) + [] == Components(path);
    } else if DotWithSeparators(path) {
      DotSwallowed(path, names);
      DotAppend(path, names[0]);
    } else if path == "" || path == "." {
      AppendAllToNothing(path, names);
      assert [] + names == names;
    } else {
      AppendAllComponentsTo(path, names, Components(path));
    }
  }

  /** Appending the rest of the child to the parent itself gives the child back, "./" aside. */
  lemma AppendRelativeRoundTrip(parent: string, child: string)
    requires IsParentOf(parent, child)
    ensures Components(AppendAll(parent, Beyond(parent, child))) == Components(child)
      <==> !DotWithSeparators(parent)
  {
    assert Components(child) == Components(parent) + Beyond(parent, child);
    WithoutComponents(parent);
    AppendAllComponents(parent, Beyond(parent, child));
  }

  /** From "./" the first name appended takes the place of the ".". */
  lemma DotSwallowed(path: string, names: seq<string>)
    requires AllNames(names) && DotWithSeparators(path)
    ensures names != [] ==> Components(AppendAll(path, names)) == names
  {
    var p := (q, ns) => if ns == [] then q == path else !DotWithSeparators(q) && Components(q) == ns;
    forall q, ns, c | p(q, ns) && IsName(c) ensures p(Append(q, c), ns + [c]) {
      if ns == [] {
        DotAppend(q, c);
        Appended(q, c);
      } else {
        AppendOne(q, c);
      }
    }
    AppendAllKeeps(path, names, p);
  }

  // ---------------------------------------------------------------------------------------
  // The component loop of VerifyPathControlledByUser
  // ---------------------------------------------------------------------------------------

  /** The CHECKs on the base's components: none of them fails exactly if they begin the path's. */
  method CheckComponents(base: seq<string>, path: seq<string>) returns (passed: bool, next: nat)
    ensures passed <==> base <= path
    ensures passed ==> next == |base|
  {
    next := 0;
    while next < |base|
      invariant 0 <= next <= |base| && next <= |path| && base[..next] == path[..next]
    {
      if next == |path| || path[next] != base[next] {
        return false, next;
      }
      next := next + 1;
    }
    passed := true;
  }

  /** Checks base and every path from it down to the last of `names`, stopping at the first failure. */
  method VerifyEach(base: string, names: seq<string>, controlled: string -> bool) returns (ok: bool)
    requires AllNames(names)
    ensures ok <==> forall k :: 0 <= k <= |names| ==> controlled(AppendAll(base, names[..k]))
  {
    var current := base;
    var i := 0;
    ok := controlled(current);
    assert names[..0] == [];
    while ok && i < |names|
      invariant 0 <= i <= |names|
      invariant current == AppendAll(base, names[..i]) && ok == controlled(current)
      invariant forall k :: 0 <= k < i ==> controlled(AppendAll(base, names[..k]))
    {
      assert names[..i + 1][..i] == names[..i];
      current := Append(current, names[i]);
      ok := controlled(current);
      i := i + 1;
    }
  }

  lemma NothingBeyond(base: string, names: seq<string>, controlled: string -> bool)
    requires names == []
    ensures AllNames(names)
    ensures (forall k :: 0 <= k <= |names| ==> controlled(AppendAll(base, names[..k]))) <==> controlled(base)
  {
    assert names[..0] == [];
    if controlled(base) {
      forall k | 0 <= k <= |names| ensures controlled(AppendAll(base, names[..k])) {
        assert names[..k] == [];
      }
    }
  }

  /** The paths checked are base and what comes of appending to it, one after the other, what path has beyond it. */
  method VerifyPathControlledByUser(base: string, path: string, controlled: string -> bool) returns (ok: bool)
    ensures base == path ==> ok == controlled(base)
    ensures base != path && !IsParentOf(base, path) ==> !ok
    ensures base != path && IsParentOf(base, path) ==>
              var names := Beyond(base, path);
              (ok <==> forall k :: 0 <= k <= |names| ==> controlled(AppendAll(base, names[..k])))
  {
    var isParent := IsParent(base, path);
    if base != path && !isParent {
      return false;
    }
    var baseComponents, _ := GetComponents(base);
    var pathComponents, _ := GetComponents(path);
    var passed, next := CheckComponents(baseComponents, pathComponents);
    assert passed;
    var names := pathComponents[next..];
    assert AllNames(names) by {
      LaterComponentsAreNames(path);
    }
    ok := VerifyEach(base, names, controlled);
    if base == path {
      NothingBeyond(base, names, controlled);
    } else {
      assert names == Beyond(base, path);
    }
  }
}
