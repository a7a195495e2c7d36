/**
 The extension of a file name.  Extension looks at the base name and RemoveExtension at the whole path;
 the main result is exactly when the two fit together.
 */
module FileExtension {
  import opened FilePath

  const NPOS := -1

  /** The last "." among the first n characters. */
  function LastDot(s: string, n: nat): (k: int)
    requires n <= |s|
    ensures NPOS <= k < n
  {
    if n == 0 then NPOS else if s[n - 1] == '.' then n - 1 else LastDot(s, n - 1)
  }

  function ToLower(c: char): char {
    if 'A' <= c <= 'Z' then c - 'A' + 'a' else c
  }

  predicate LowerCaseEquals(s: string, t: string) {
    |s| == |t| && forall i :: 0 <= i < |s| ==> ToLower(s[i]) == t[i]
  }

  predicate IsCommonDoubleExtension(extension: string) {
    LowerCaseEquals(extension, "gz") || LowerCaseEquals(extension, "z") || LowerCaseEquals(extension, "bz2")
  }

  /** A second extension of up to four characters counts when the last is a common double extension. */
  predicate IsDouble(s: string, lastDot: nat)
    requires lastDot < |s|
  {
    var penultimateDot := LastDot(s, lastDot);
    && IsCommonDoubleExtension(s[lastDot + 1..])
    && penultimateDot != NPOS && penultimateDot > LastSeparator(s, lastDot)
    && 1 < lastDot - penultimateDot <= 5
  }

  function ExtensionSeparatorPosition(s: string): (k: int)
    ensures NPOS <= k < |s|
  {
    if IsDots(s) then NPOS else DotPosition(s)
  }

  predicate IsDots(s: string) {
    s == CURRENT_DIRECTORY || s == PARENT_DIRECTORY
  }

  function DotPosition(s: string): (k: int)
    ensures NPOS <= k < |s|
  {
    var lastDot := LastDot(s, |s|);
    if lastDot > 0 && IsDouble(s, lastDot) then LastDot(s, lastDot) else lastDot
  }

  function ExtensionOf(base: string): string {
    var dot := ExtensionSeparatorPosition(base);
    if dot == NPOS then "" else base[dot..]
  }

  function Extension(path: string): string {
    ExtensionOf(BaseName(path))
  }

  function RemoveExtension(path: string): string {
    var dot := ExtensionSeparatorPosition(path);
    if Extension(path) == "" || dot == NPOS then path else path[..dot]
  }

  lemma {:induction false} LastDotBehind(head: string, base: string, n: nat)
    requires n <= |base|
    ensures LastDot(head + base, |head| + n)
         == if LastDot(base, n) != NPOS then |head| + LastDot(base, n) else LastDot(head + base, |head|)
  {
    if n > 0 && base[n - 1] != '.' {
      LastDotBehind(head, base, n - 1);
    }
  }

  lemma SeparatorBehind(head: string, base: string, n: nat)
    requires IsName(base) && n <= |base| && (head == "" || IsSeparator(head[|head| - 1]))
    ensures LastSeparator(head + base, |head| + n) == |head| - 1
    ensures LastSeparator(base, n) == -1
  {
    var s := head + base;
    forall i | |head| <= i < |head| + n ensures !IsSeparator(s[i]) {
      assert s[i] == base[i - |head|];
    }
    LastSeparatorUnique(s, |head| + n, |head| - 1);
    LastSeparatorUnique(base, n, -1);
  }

  /** The last dot of the name decides alike in the name and in the path. */
  lemma DoubleBehind(head: string, base: string, lastDot: nat)
    requires IsName(base) && lastDot < |base| && (head == "" || IsSeparator(head[|head| - 1]))
    ensures IsDouble(head + base, |head| + lastDot) <==> IsDouble(base, lastDot)
    ensures IsDouble(base, lastDot) ==> LastDot(head + base, |head| + lastDot) == |head| + LastDot(base, lastDot)
  {
    SeparatorBehind(head, base, lastDot);
    LastDotBehind(head, base, lastDot);
    assert (head + base)[|head| + lastDot + 1..] == base[lastDot + 1..];
  }

  /** The last dot counts, or the one before it. */
  lemma DotPositionIs(s: string, lastDot: nat, isDouble: bool)
    requires lastDot < |s| && LastDot(s, |s|) == lastDot
    requires isDouble <==> lastDot > 0 && IsDouble(s, lastDot)
    ensures DotPosition(s) == if isDouble then LastDot(s, lastDot) else lastDot
  {
  }

  lemma DotPositionBehind(head: string, base: string)
    requires IsName(base) && (head == "" || IsSeparator(head[|head| - 1]))
    requires DotPosition(base) != NPOS
    ensures DotPosition(head + base) == |head| + DotPosition(base)
  {
    var lastDot := LastDot(base, |base|);
    LastDotBehind(head, base, |base|);
    DoubleBehind(head, base, lastDot);
    FirstDotIsSingle(base);
    var isDouble := IsDouble(base, lastDot);
    DotPositionIs(base, lastDot, isDouble);
    DotPositionIs(head + base, |head| + lastDot, isDouble);
  }

  /** In a name that is nothing but its extension there is no other dot to cut at. */
  lemma FirstDotIsSingle(base: string)
    requires base != ""
    ensures !IsDouble(base, 0)
  {
    assert LastDot(base, 0) == NPOS;
  }

  lemma PositionBehind(head: string, base: string)
    requires IsName(base) && (head == "" || IsSeparator(head[|head| - 1]))
    requires ExtensionSeparatorPosition(base) != NPOS
    ensures ExtensionSeparatorPosition(head + base) == |head| + ExtensionSeparatorPosition(base)
  {
    DotPositionBehind(head, base);
    NotDots(head, base);
  }

  lemma NotDots(head: string, base: string)
    requires head == "" || IsSeparator(head[|head| - 1])
    requires !IsDots(base)
    ensures !IsDots(head + base)
  {
    if head == "" {
      assert head + base == base;
    } else {
      assert (head + base)[|head| - 1] == head[|head| - 1] == '/';
    }
  }

  /** The extension is the end of the base name. */
  lemma ExtensionEndsBase(path: string)
    requires Extension(path) != ""
    ensures BaseName(path) != "" && Extension(path)[|Extension(path)| - 1] == BaseName(path)[|BaseName(path)| - 1]
  {
    var base := BaseName(path);
    assert base[ExtensionSeparatorPosition(base)..] == Extension(path);
  }

  lemma ExtensionEndsInName(path: string)
    requires Extension(path) != ""
    ensures !IsSeparator(Extension(path)[|Extension(path)| - 1])
  {
    ExtensionEndsBase(path);
    ExtensionHasName(path);
    var head, base, tail := SplitLast(path);
  }

  lemma ExtensionHasName(path: string)
    requires Extension(path) != ""
    ensures !AreAllSeparators(path)
  {
    if AreAllSeparators(path) {
      BaseOfSeparators(path);
    }
  }

  lemma BaseOfSeparators(path: string)
    requires AreAllSeparators(path)
    ensures Extension(path) == ""
  {
    StrippedRoots();
    if path != "" {
      AllSeparatorsDir(path);
    }
    assert LastDot("", 0) == NPOS && LastDot("/", 1) == NPOS && LastDot("//", 2) == NPOS;
  }

  /** What is in front of the base name, when that ends the path. */
  lemma HeadOfName(path: string) returns (head: string)
    requires path != "" && !IsSeparator(path[|path| - 1])
    ensures |BaseName(path)| <= |path| && head == path[..|path| - |BaseName(path)|]
  {
    var h, base, tail := SplitLast(path);
    head := path[..|path| - |base|];
  }

  lemma NoTail(path: string, head: string)
    requires path != "" && !IsSeparator(path[|path| - 1])
    requires |head| + |BaseName(path)| == |path| && head <= path
    ensures path == head + BaseName(path) && IsName(BaseName(path))
    ensures head == "" || IsSeparator(head[|head| - 1])
  {
    var h, base, tail := SplitLast(path);
    if tail != "" {
      EndsInSeparator(h + base, tail);
    }
    assert path == h + base && head == h;
  }

  lemma EndsInSeparator(front: string, tail: string)
    requires tail != "" && AreAllSeparators(tail)
    ensures IsSeparator((front + tail)[|front + tail| - 1])
  {
    assert (front + tail)[|front + tail| - 1] == tail[|tail| - 1];
  }

  lemma EndsApart(path: string, front: string, back: string)
    requires path != "" && back != "" && IsSeparator(path[|path| - 1]) && !IsSeparator(back[|back| - 1])
    ensures front + back != path
  {
    var r := front + back;
    assert r[|r| - 1] == back[|back| - 1];
  }

  lemma CutName(head: string, base: string)
    requires IsName(base) && (head == "" || IsSeparator(head[|head| - 1]))
    requires BaseName(head + base) == base && Extension(head + base) != ""
    ensures RemoveExtension(head + base) + Extension(head + base) == head + base
    ensures head <= RemoveExtension(head + base)
  {
    PositionBehind(head, base);
    CutAt(head, base, ExtensionSeparatorPosition(base));
  }

  lemma CutAt(head: string, base: string, dot: nat)
    requires dot < |base|
    ensures (head + base)[..|head| + dot] + base[dot..] == head + base
    ensures head <= (head + base)[..|head| + dot]
  {
  }

  lemma ExtensionOfEmpty(path: string)
    requires Extension(path) != ""
    ensures path != ""
  {
    if path == "" {
      BaseOfSeparators(path);
    }
  }

  predicate HasTrailingSeparator(path: string) {
    path != "" && IsSeparator(path[|path| - 1])
  }

  lemma NothingRemoved(path: string)
    requires Extension(path) == ""
    ensures RemoveExtension(path) + Extension(path) == path
  {
    assert path + "" == path;
  }

  lemma NameShortened(path: string)
    requires Extension(path) != "" && !HasTrailingSeparator(path)
    ensures RemoveExtension(path) + Extension(path) == path
    ensures |BaseName(path)| <= |path| && path[..|path| - |BaseName(path)|] <= RemoveExtension(path)
  {
    ExtensionOfEmpty(path);
    var head := HeadOfName(path);
    NoTail(path, head);
    CutName(head, BaseName(path));
  }

  /**
   Removing the extension and putting it back gives the path again exactly if there is no extension or
   no trailing separator; then only the name at the end of the path has been shortened.
   */
  lemma ExtensionRoundTrip(path: string)
    ensures RemoveExtension(path) + Extension(path) == path <==> Extension(path) == "" || !HasTrailingSeparator(path)
    ensures Extension(path) != "" && !HasTrailingSeparator(path) ==>
              |BaseName(path)| <= |path| && path[..|path| - |BaseName(path)|] <= RemoveExtension(path)
  {
    if Extension(path) == "" {
      NothingRemoved(path);
    } else if HasTrailingSeparator(path) {
      ExtensionEndsInName(path);
      EndsApart(path, RemoveExtension(path), Extension(path));
    } else {
      NameShortened(path);
    }
  }

  /** "a.gz/" has the extension ".gz", but removing it removes the separator too. */
  lemma SlashAfterExtension()
    ensures Extension("a.gz/") == ".gz" && RemoveExtension("a.gz/") + Extension("a.gz/") == "a.gz"
  {
    var path := "a.gz/";
    assert path[..4] == "a.gz";
    assert TrimmedLength(path, 5) == 4;
    assert Stripped(path) == "a.gz";
    assert LastSeparator("a.gz", 4) == -1;
    assert BaseName(path) == "a.gz";
    assert LastDot("a.gz", 4) == 1 && LastDot("a.gz", 1) == -1;
    assert LastDot(path, 5) == 1 && LastDot(path, 1) == -1;
    assert "a.gz"[1..] == ".gz" && path[..1] == "a";
    assert "a" + ".gz" == "a.gz";
  }

  // ---------------------------------------------------------------------------------------
  // What the extension is, by the shape of the name
  // ---------------------------------------------------------------------------------------

  predicate NoDot(s: string) {
    forall i :: 0 <= i < |s| ==> s[i] != '.'
  }

  /** The last extensions that may have another before them. */
  const DOUBLED := {"gz", "gZ", "Gz", "GZ", "z", "Z", "bz2", "bZ2", "Bz2", "BZ2"}

  lemma CommonDouble(b: string)
    ensures IsCommonDoubleExtension(b) <==> b in DOUBLED
  {
    if IsCommonDoubleExtension(b) {
      assert 1 <= |b| <= 3;
      assert |b| == 1 ==> b == [b[0]];
      assert |b| == 2 ==> b == [b[0], b[1]];
      assert |b| == 3 ==> b == [b[0], b[1], b[2]];
      forall i | 0 <= i < |b| ensures ToLower(b[i]) == 'g' ==> b[i] == 'g' || b[i] == 'G' {
        LowerOf(b[i]);
      }
      forall i | 0 <= i < |b| ensures ToLower(b[i]) == 'z' ==> b[i] == 'z' || b[i] == 'Z' {
        LowerOf(b[i]);
      }
      forall i | 0 <= i < |b| ensures ToLower(b[i]) == 'b' ==> b[i] == 'b' || b[i] == 'B' {
        LowerOf(b[i]);
      }
    }
  }

  lemma LowerOf(c: char)
    ensures ToLower(c) == 'g' ==> c == 'g' || c == 'G'
    ensures ToLower(c) == 'z' ==> c == 'z' || c == 'Z'
    ensures ToLower(c) == 'b' ==> c == 'b' || c == 'B'
    ensures ToLower(c) == '2' ==> c == '2'
  {
  }

  lemma {:induction false} NoLastDot(s: string, n: nat)
    requires n <= |s| && forall i :: 0 <= i < n ==> s[i] != '.'
    ensures LastDot(s, n) == NPOS
  {
    if n > 0 {
      NoLastDot(s, n - 1);
    }
  }

  /** The last dot is the one with none behind it. */
  lemma {:induction false} LastDotUnique(s: string, n: nat, k: nat)
    requires k < n <= |s| && s[k] == '.' && forall i :: k < i < n ==> s[i] != '.'
    ensures LastDot(s, n) == k
  {
    if s[n - 1] != '.' {
      LastDotUnique(s, n - 1, k);
    }
  }

  lemma BaseIsName(path: string)
    requires !NoDot(BaseName(path))
    ensures IsName(BaseName(path))
  {
    if AreAllSeparators(path) {
      StrippedRoots();
      if path != "" {
        AllSeparatorsDir(path);
      }
    } else {
      var head, base, tail := SplitLast(path);
    }
  }

  /** A name without a dot has no extension, and neither have "." and "..". */
  lemma NoExtension(path: string)
    requires NoDot(BaseName(path)) || BaseName(path) == "." || BaseName(path) == ".."
    ensures Extension(path) == "" && RemoveExtension(path) == path
  {
    if NoDot(BaseName(path)) {
      NoLastDot(BaseName(path), |BaseName(path)|);
    }
  }

  lemma OneDotOf(name: string, stem: string, b: string)
    requires name == stem + "." + b && name != "." && NoDot(stem) && NoDot(b)
    ensures ExtensionOf(name) == "." + b
  {
    LastDotUnique(name, |name|, |stem|);
    NoLastDot(name, |stem|);
    DotPositionIs(name, |stem|, false);
    assert name[|stem|..] == "." + b;
  }

  /** The only dot of a name begins its extension, be it at either end of the name. */
  lemma OneDot(path: string, stem: string, b: string)
    requires BaseName(path) == stem + "." + b && BaseName(path) != "." && NoDot(stem) && NoDot(b)
    ensures Extension(path) == "." + b
  {
    OneDotOf(BaseName(path), stem, b);
  }

  /** Dots at p and k, and none behind p but that. */
  lemma TwoDotsAt(name: string, p: nat, k: nat)
    requires p < k < |name| && name[p] == '.' && name[k] == '.' && IsName(name)
    requires forall i :: p < i < |name| && i != k ==> name[i] != '.'
    ensures DotPosition(name) == if name[k + 1..] in DOUBLED && 1 <= k - p - 1 <= 4 then p else k
  {
    LastDotUnique(name, |name|, k);
    LastDotUnique(name, k, p);
    LastSeparatorUnique(name, k, -1);
    CommonDouble(name[k + 1..]);
    DotPositionIs(name, k, IsDouble(name, k));
  }

  lemma TwoDotsOf(name: string, stem: string, a: string, b: string)
    requires name == stem + "." + a + "." + b && NoDot(a) && NoDot(b)
    ensures var p, k := |stem|, |stem| + 1 + |a|;
            && p < k < |name| && name[p] == '.' && name[k] == '.'
            && (forall i :: p < i < |name| && i != k ==> name[i] != '.')
            && name[k + 1..] == b && name[k..] == "." + b && name[p..] == "." + a + "." + b
  {
    var p, k := |stem|, |stem| + 1 + |a|;
    forall i | p < i < |name| && i != k ensures name[i] != '.' {
      assert i < k ==> name[i] == a[i - p - 1];
      assert i > k ==> name[i] == b[i - k - 1];
    }
  }

  lemma TwoDotsExtension(name: string, stem: string, a: string, b: string)
    requires name == stem + "." + a + "." + b && name != ".." && IsName(name) && NoDot(a) && NoDot(b)
    ensures ExtensionOf(name) == if b in DOUBLED && 1 <= |a| <= 4 then "." + a + "." + b else "." + b
  {
    TwoDotsOf(name, stem, a, b);
    TwoDotsAt(name, |stem|, |stem| + 1 + |a|);
  }

  /**
   Of two dots or more the last begins the extension, unless "gz", "z" or "bz2", in any case, is behind it and one
   to four characters are between the last two; then the last but one does.
   */
  lemma TwoDots(path: string, stem: string, a: string, b: string)
    requires BaseName(path) == stem + "." + a + "." + b && BaseName(path) != ".." && NoDot(a) && NoDot(b)
    ensures Extension(path) == if b in DOUBLED && 1 <= |a| <= 4 then "." + a + "." + b else "." + b
  {
    assert BaseName(path)[|stem|] == '.';
    BaseIsName(path);
    TwoDotsExtension(BaseName(path), stem, a, b);
  }

  lemma EndsUncommon(path: string, dot: nat)
    requires dot < |path| && HasTrailingSeparator(path)
    ensures !IsDouble(path, dot)
  {
    var b := path[dot + 1..];
    if b != "" {
      assert b[|b| - 1] == path[|path| - 1];
    }
  }

  lemma PositionWithSeparator(path: string, dot: nat)
    requires HasTrailingSeparator(path) && dot < |path| && path[dot] == '.' && NoDot(path[dot + 1..])
    ensures ExtensionSeparatorPosition(path) == dot
  {
    forall i | dot < i < |path| ensures path[i] != '.' {
      assert path[i] == path[dot + 1..][i - dot - 1];
    }
    LastDotUnique(path, |path|, dot);
    EndsUncommon(path, dot);
    DotPositionIs(path, dot, false);
    assert path[|path| - 1] == '/';
  }

  /** Trailing separators go with what is behind the last dot of the path, and no second extension is looked for. */
  lemma RemovedWithSeparator(path: string, dot: nat)
    requires Extension(path) != "" && HasTrailingSeparator(path)
    requires dot < |path| && path[dot] == '.' && NoDot(path[dot + 1..])
    ensures RemoveExtension(path) == path[..dot]
  {
    PositionWithSeparator(path, dot);
  }
}
