/**
 Walking a directory tree with a stack of directories still to be read, on locations rather than
 paths: what is left of a walk, and what each of its steps does to that.
 */
module FileTraversal {
  import opened FilePath
  import opened FileSystem

  /** Which kinds of entries an enumerator returns. */
  datatype Mask = Mask(files: bool, directories: bool)

  const SUBDIRECTORIES := Mask(false, true)

  predicate Matches(mask: Mask, node: Node) {
    if node.Directory? then mask.directories else mask.files
  }

  predicate Skipped(name: string) {
    name == CURRENT_DIRECTORY || name == PARENT_DIRECTORY
  }

  // ---------------------------------------------------------------------------------------
  // The walk on locations
  // ---------------------------------------------------------------------------------------

  /** `queue` holds the entries of `dir` still to be returned, `pending` the directories still to be read. */
  datatype Walk = Walk(dir: Location, queue: seq<Entry>, pending: seq<Location>, started: bool,
                       recursive: bool, mask: Mask)

  /** Reading the directory p leads the walk to l, sooner or later. */
  predicate Covers(recursive: bool, p: Location, l: Location) {
    Below(p, l) && (recursive || |l| == |p| + 1)
  }

  ghost predicate Queued(w: Walk, l: Location) {
    exists i {:trigger w.queue[i]} :: 0 <= i < |w.queue| && l == w.dir + [w.queue[i].name]
  }

  ghost predicate Awaited(w: Walk, l: Location) {
    exists i {:trigger w.pending[i]} :: 0 <= i < |w.pending| && Covers(w.recursive, w.pending[i], l)
  }

  ghost predicate Ahead(w: Walk, l: Location) {
    Queued(w, l) || Awaited(w, l)
  }

  /** The entries the walk has still to come to. */
  ghost function Remaining(t: Tree, w: Walk): set<Location> {
    set l | l in t && Ahead(w, l)
  }

  /** The entries the walk has still to return. */
  ghost function Left(t: Tree, w: Walk): set<Location> {
    set l | l in t && Ahead(w, l) && Matches(w.mask, t[l])
  }

  /** The entries at or below the directories still to be read. */
  ghost function Unread(t: Tree, w: Walk): set<Location> {
    set l | l in t && AtOrBelowSome(w.pending, l)
  }

  ghost predicate AtOrBelowSome(pending: seq<Location>, l: Location) {
    exists i {:trigger pending[i]} :: 0 <= i < |pending| && AtOrBelow(pending[i], l)
  }

  ghost predicate Apart(pending: seq<Location>) {
    forall i, j :: 0 <= i < |pending| && 0 <= j < |pending| && i != j ==> !AtOrBelow(pending[i], pending[j])
  }

  ghost predicate Distinct(entries: seq<Entry>) {
    forall i, j {:trigger Differ(entries, i, j)} :: 0 <= i < j < |entries| ==> Differ(entries, i, j)
  }

  predicate Differ(entries: seq<Entry>, i: nat, j: nat)
    requires i < j < |entries|
  {
    entries[i].name != entries[j].name
  }

  ghost predicate Within(start: Location, pending: seq<Location>) {
    forall i :: 0 <= i < |pending| ==> AtOrBelow(start, pending[i])
  }

  predicate Present(t: Tree, dir: Location, e: Entry, faulty: bool) {
    dir + [e.name] in t && Reported(t, dir, e, faulty)
  }

  ghost predicate AllPresent(t: Tree, dir: Location, entries: seq<Entry>, faulty: bool) {
    forall i :: 0 <= i < |entries| ==> Present(t, dir, entries[i], faulty)
  }

  ghost predicate AllMatch(mask: Mask, entries: seq<Entry>) {
    forall i {:trigger entries[i]} :: 0 <= i < |entries| ==> Matches(mask, entries[i].node)
  }

  /** What every step of a walk that started at `start` keeps. */
  ghost predicate Sound(t: Tree, w: Walk, start: Location, faulty: bool) {
    && AtOrBelow(start, w.dir) && Within(start, w.pending)
    && Apart(w.pending)
    && (w.started ==> !AtOrBelowSome(w.pending, w.dir))
    && (w.queue != [] ==> w.started)
    && Distinct(w.queue) && AllPresent(t, w.dir, w.queue, faulty) && AllMatch(w.mask, w.queue)
  }

  // ---------------------------------------------------------------------------------------
  // Reading a directory
  // ---------------------------------------------------------------------------------------

  function Kept(entries: seq<Entry>, mask: Mask): seq<Entry> {
    if entries == [] then []
    else
      var e := entries[|entries| - 1];
      Kept(entries[..|entries| - 1], mask) + if Skipped(e.name) || !Matches(mask, e.node) then [] else [e]
  }

  ghost predicate IsKept(entries: seq<Entry>, mask: Mask, e: Entry) {
    !Skipped(e.name) && Matches(mask, e.node) && exists j {:trigger entries[j]} :: 0 <= j < |entries| && entries[j] == e
  }

  ghost predicate Holds(entries: seq<Entry>, e: Entry) {
    exists i {:trigger entries[i]} :: 0 <= i < |entries| && entries[i] == e
  }

  lemma {:induction false} KeptAreFrom(entries: seq<Entry>, mask: Mask)
    ensures forall i :: 0 <= i < |Kept(entries, mask)| ==> IsKept(entries, mask, Kept(entries, mask)[i])
  {
    if entries != [] {
      var n := |entries| - 1;
      KeptAreFrom(entries[..n], mask);
      forall i | 0 <= i < |Kept(entries, mask)| ensures IsKept(entries, mask, Kept(entries, mask)[i]) {
        if i < |Kept(entries[..n], mask)| {
          var e := Kept(entries[..n], mask)[i];
          assert IsKept(entries[..n], mask, e);
          var j :| 0 <= j < n && entries[..n][j] == e;
          assert entries[j] == e;
        } else {
          assert entries[n] == Kept(entries, mask)[i];
        }
      }
    }
  }

  lemma {:induction false} KeptHolds(entries: seq<Entry>, mask: Mask, j: nat)
    requires j < |entries| && !Skipped(entries[j].name) && Matches(mask, entries[j].node)
    ensures Holds(Kept(entries, mask), entries[j])
  {
    var n := |entries| - 1;
    var k := Kept(entries, mask);
    if j < n {
      KeptHolds(entries[..n], mask, j);
      var i :| 0 <= i < |Kept(entries[..n], mask)| && Kept(entries[..n], mask)[i] == entries[j];
      assert k[i] == entries[j];
    } else {
      assert k[|k| - 1] == entries[j];
    }
  }

  lemma {:induction false} KeptDistinct(entries: seq<Entry>, mask: Mask)
    requires Distinct(entries)
    ensures Distinct(Kept(entries, mask))
  {
    if entries != [] {
      var n := |entries| - 1;
      var before := Kept(entries[..n], mask);
      KeptAreFrom(entries[..n], mask);
      forall i, j | 0 <= i < j < n ensures Differ(entries[..n], i, j) {
        assert Differ(entries, i, j);
      }
      KeptDistinct(entries[..n], mask);
      forall i | 0 <= i < |before| ensures before[i].name != entries[n].name {
        assert IsKept(entries[..n], mask, before[i]);
        var j :| 0 <= j < n && entries[..n][j] == before[i];
        assert Differ(entries, j, n);
      }
      forall i, j | 0 <= i < j < |Kept(entries, mask)| ensures Differ(Kept(entries, mask), i, j) {
        assert j < |before| ==> Differ(before, i, j);
      }
    }
  }

  lemma KeptMatch(entries: seq<Entry>, mask: Mask)
    ensures AllMatch(mask, Kept(entries, mask))
  {
    var k := Kept(entries, mask);
    KeptAreFrom(entries, mask);
    forall i | 0 <= i < |k| ensures Matches(mask, k[i].node) {
      assert IsKept(entries, mask, k[i]);
    }
  }

  function Under(dir: Location, entries: seq<Entry>): seq<Location> {
    seq(|entries|, i requires 0 <= i < |entries| => dir + [entries[i].name])
  }

  /** The walk after it has read the directory on top of the stack. */
  function Refilled(w: Walk, entries: seq<Entry>): Walk
    requires w.pending != []
  {
    var n := |w.pending| - 1;
    var dir := w.pending[n];
    w.(dir := dir, queue := Kept(entries, w.mask), started := Kept(entries, w.mask) != [],
       pending := w.pending[..n] + if w.recursive then Under(dir, Kept(entries, SUBDIRECTORIES)) else [])
  }

  /** The walk after it has failed to read that directory. */
  function PassedOver(w: Walk): Walk
    requires w.pending != []
  {
    var n := |w.pending| - 1;
    w.(dir := w.pending[n], queue := [], pending := w.pending[..n])
  }

  /** Entries of one directory lie apart from each other, and from what lies apart from the directory. */
  lemma SiblingsApart(dir: Location, a: string, b: string, p: Location)
    ensures AtOrBelow(dir + [a], dir + [b]) ==> a == b
    ensures Below(dir, dir + [a]) && !AtOrBelow(dir + [a], dir)
    ensures AtOrBelow(p, dir + [a]) ==> AtOrBelow(p, dir) || p == dir + [a]
    ensures AtOrBelow(dir + [a], p) ==> Below(dir, p)
  {
    BelowParent(p, dir + [a]);
    assert Parent(dir + [a]) == dir;
    if AtOrBelow(dir + [a], p) {
      BelowTrans(dir, dir + [a], p);
    }
  }

  /** A path on the stack and an entry of the directory on its top. */
  lemma EntryApart(pending: seq<Location>, dir: Location, name: string, i: nat)
    requires Apart(pending) && i < |pending| - 1 && pending[|pending| - 1] == dir
    ensures !AtOrBelow(pending[i], dir + [name]) && !AtOrBelow(dir + [name], pending[i])
    ensures !AtOrBelow(pending[i], dir)
  {
    SiblingsApart(dir, name, name, pending[i]);
    assert !AtOrBelow(pending[i], pending[|pending| - 1]) && !AtOrBelow(pending[|pending| - 1], pending[i]);
  }

  lemma EntriesApart(dir: Location, subs: seq<Entry>, i: nat, j: nat)
    requires Distinct(subs) && i < |subs| && j < |subs| && i != j
    ensures !AtOrBelow(dir + [subs[i].name], dir + [subs[j].name])
  {
    SiblingsApart(dir, subs[i].name, subs[j].name, dir);
    assert if i < j then Differ(subs, i, j) else Differ(subs, j, i);
  }

  lemma ReplacedApart(pending: seq<Location>, dir: Location, subs: seq<Entry>, next: seq<Location>)
    requires pending != [] && Apart(pending) && pending[|pending| - 1] == dir && Distinct(subs)
    requires next == pending[..|pending| - 1] + Under(dir, subs)
    ensures Apart(next) && !AtOrBelowSome(next, dir)
  {
    var n := |pending| - 1;
    forall i, j | 0 <= i < |next| && 0 <= j < |next| && i != j ensures !AtOrBelow(next[i], next[j]) {
      if i < n && j < n {
        assert !AtOrBelow(pending[i], pending[j]);
      } else if i < n {
        EntryApart(pending, dir, subs[j - n].name, i);
      } else if j < n {
        EntryApart(pending, dir, subs[i - n].name, j);
      } else {
        EntriesApart(dir, subs, i - n, j - n);
      }
    }
    forall i | 0 <= i < |next| ensures !AtOrBelow(next[i], dir) {
      if i < n {
        EntryApart(pending, dir, "", i);
      } else {
        SiblingsApart(dir, subs[i - n].name, "", dir);
      }
    }
  }

  lemma RefilledApart(w: Walk, entries: seq<Entry>)
    requires w.pending != [] && Apart(w.pending) && Distinct(entries)
    ensures Apart(Refilled(w, entries).pending)
    ensures !AtOrBelowSome(Refilled(w, entries).pending, Refilled(w, entries).dir)
  {
    var n := |w.pending| - 1;
    var dir, subs := w.pending[n], if w.recursive then Kept(entries, SUBDIRECTORIES) else [];
    KeptDistinct(entries, SUBDIRECTORIES);
    assert Refilled(w, entries).pending == w.pending[..n] + Under(dir, subs);
    ReplacedApart(w.pending, dir, subs, Refilled(w, entries).pending);
  }

  ghost predicate CanRefill(t: Tree, w: Walk, start: Location, faulty: bool, entries: seq<Entry>) {
    && IsTree(t) && start != [] && Sound(t, w, start, faulty) && w.queue == [] && w.pending != []
    && IsDirectory(t, w.pending[|w.pending| - 1])
    && Lists(t, w.pending[|w.pending| - 1], entries, faulty)
  }

  lemma ListedDistinct(t: Tree, dir: Location, entries: seq<Entry>, faulty: bool)
    requires Lists(t, dir, entries, faulty)
    ensures Distinct(entries)
  {
    forall i, j | 0 <= i < j < |entries| ensures Differ(entries, i, j) {
    }
  }

  lemma RefilledPresent(t: Tree, dir: Location, entries: seq<Entry>, mask: Mask, faulty: bool)
    requires Lists(t, dir, entries, faulty)
    ensures AllPresent(t, dir, Kept(entries, mask), faulty)
  {
    var k := Kept(entries, mask);
    KeptAreFrom(entries, mask);
    forall i | 0 <= i < |k| ensures Present(t, dir, k[i], faulty) {
      assert IsKept(entries, mask, k[i]);
      var j :| 0 <= j < |entries| && entries[j] == k[i];
      assert Reported(t, dir, entries[j], faulty);
    }
  }

  lemma RefilledWithin(w: Walk, start: Location, entries: seq<Entry>)
    requires w.pending != [] && Within(start, w.pending)
    ensures Within(start, Refilled(w, entries).pending)
  {
    var next := Refilled(w, entries).pending;
    var n := |w.pending| - 1;
    forall i | 0 <= i < |next| ensures AtOrBelow(start, next[i]) {
      if i >= n {
        BelowParent(start, next[i]);
        assert Parent(next[i]) == w.pending[n];
      }
    }
  }

  lemma RefilledSound(t: Tree, w: Walk, start: Location, faulty: bool, entries: seq<Entry>)
    requires CanRefill(t, w, start, faulty, entries)
    ensures Sound(t, Refilled(w, entries), start, faulty)
  {
    var dir := w.pending[|w.pending| - 1];
    ListedDistinct(t, dir, entries, faulty);
    RefilledApart(w, entries);
    RefilledWithin(w, start, entries);
    RefilledPresent(t, dir, entries, w.mask, faulty);
    KeptDistinct(entries, w.mask);
    KeptMatch(entries, w.mask);
  }

  /** Whatever the refilled walk comes to, the walk before it would have come to. */
  lemma RefilledAhead(w: Walk, entries: seq<Entry>, l: Location)
    requires w.pending != [] && Ahead(Refilled(w, entries), l)
    ensures Awaited(w, l)
  {
    var n := |w.pending| - 1;
    var dir := w.pending[n];
    var next := Refilled(w, entries);
    if Queued(next, l) {
      var i :| 0 <= i < |next.queue| && l == dir + [next.queue[i].name];
      assert Covers(w.recursive, w.pending[n], l);
    } else {
      var i :| 0 <= i < |next.pending| && Covers(w.recursive, next.pending[i], l);
      if i < n {
        assert Covers(w.recursive, w.pending[i], l);
      } else {
        BelowTrans(dir, next.pending[i], l);
        assert Covers(w.recursive, w.pending[n], l);
      }
    }
  }

  /** The listing of a directory names the way to everything below it. */
  lemma WayListed(t: Tree, dir: Location, l: Location, entries: seq<Entry>) returns (j: nat, way: Location)
    requires IsTree(t) && dir != [] && l in t && Below(dir, l) && Lists(t, dir, entries, false)
    ensures j < |entries| && way == dir + [entries[j].name] && AtOrBelow(way, l)
    ensures !Skipped(entries[j].name) && way in t && entries[j].node == t[way]
    ensures way != l ==> IsDirectory(t, way)
  {
    way := l[..|dir| + 1];
    assert Rooted(t, l);
    assert way[..|dir|] == l[..|dir|] == dir;
    assert way == dir + [way[|dir|]];
    if way != l {
      assert way == l[..|way|];
      AncestorsInTree(t, way, l);
    }
    assert Rooted(t, way);
    j :| 0 <= j < |entries| && entries[j].name == way[|dir|];
    assert Reported(t, dir, entries[j], false);
    assert way[|way| - 1] == entries[j].name;
  }

  /** When nothing fails, no entry gets lost. */
  lemma RefilledComplete(t: Tree, w: Walk, start: Location, entries: seq<Entry>, l: Location)
    requires CanRefill(t, w, start, false, entries)
    requires l in t && Awaited(w, l) && Matches(w.mask, t[l])
    ensures Ahead(Refilled(w, entries), l)
  {
    var n := |w.pending| - 1;
    var dir := w.pending[n];
    var next := Refilled(w, entries);
    var i :| 0 <= i < |w.pending| && Covers(w.recursive, w.pending[i], l);
    if i < n {
      assert next.pending[i] == w.pending[i];
    } else {
      AwaitedIsListed(t, w, entries, l);
    }
  }

  lemma AwaitedIsListed(t: Tree, w: Walk, entries: seq<Entry>, l: Location)
    requires w.pending != []
    requires IsTree(t) && l in t && w.pending[|w.pending| - 1] != []
    requires Covers(w.recursive, w.pending[|w.pending| - 1], l) && Matches(w.mask, t[l])
    requires Lists(t, w.pending[|w.pending| - 1], entries, false)
    ensures Ahead(Refilled(w, entries), l)
  {
    var j, way := WayListed(t, w.pending[|w.pending| - 1], l, entries);
    if way == l {
      KeptIsQueued(w, entries, j);
    } else {
      SubdirectoryIsPending(w, entries, j, l);
    }
  }

  lemma KeptIsQueued(w: Walk, entries: seq<Entry>, j: nat)
    requires w.pending != [] && j < |entries|
    requires !Skipped(entries[j].name) && Matches(w.mask, entries[j].node)
    ensures Queued(Refilled(w, entries), w.pending[|w.pending| - 1] + [entries[j].name])
  {
    KeptHolds(entries, w.mask, j);
    var next := Refilled(w, entries);
    var k :| 0 <= k < |next.queue| && next.queue[k] == entries[j];
  }

  lemma SubdirectoryIsPending(w: Walk, entries: seq<Entry>, j: nat, l: Location)
    requires w.pending != [] && j < |entries| && w.recursive
    requires !Skipped(entries[j].name) && entries[j].node.Directory?
    requires Below(w.pending[|w.pending| - 1] + [entries[j].name], l)
    ensures Awaited(Refilled(w, entries), l)
  {
    KeptHolds(entries, SUBDIRECTORIES, j);
    var n := |w.pending| - 1;
    var next, subs := Refilled(w, entries), Kept(entries, SUBDIRECTORIES);
    var k :| 0 <= k < |subs| && subs[k] == entries[j];
    assert Covers(true, next.pending[n + k], l);
  }

  /** Reading a directory moves its entries from one part of what is left to another. */
  lemma RefilledLeft(t: Tree, w: Walk, start: Location, faulty: bool, entries: seq<Entry>)
    requires CanRefill(t, w, start, faulty, entries)
    ensures Remaining(t, Refilled(w, entries)) <= Remaining(t, w)
    ensures Left(t, Refilled(w, entries)) <= Left(t, w)
    ensures !faulty ==> Left(t, Refilled(w, entries)) == Left(t, w)
  {
    var next := Refilled(w, entries);
    forall l | Ahead(next, l) ensures Ahead(w, l) {
      RefilledAhead(w, entries, l);
    }
    if !faulty {
      forall l | l in Left(t, w) ensures l in Left(t, next) {
        assert Awaited(w, l);
        RefilledComplete(t, w, start, entries, l);
      }
    }
  }

  lemma RefilledUnread(t: Tree, w: Walk, start: Location, faulty: bool, entries: seq<Entry>)
    requires CanRefill(t, w, start, faulty, entries)
    ensures Unread(t, Refilled(w, entries)) < Unread(t, w)
  {
    var n := |w.pending| - 1;
    var dir := w.pending[n];
    var next := Refilled(w, entries);
    ListedDistinct(t, dir, entries, faulty);
    RefilledApart(w, entries);
    forall l | AtOrBelowSome(next.pending, l) ensures AtOrBelowSome(w.pending, l) {
      var i :| 0 <= i < |next.pending| && AtOrBelow(next.pending[i], l);
      if i < n {
        assert AtOrBelow(w.pending[i], l);
      } else {
        BelowTrans(dir, next.pending[i], l);
        assert AtOrBelow(w.pending[n], l);
      }
    }
    assert AtOrBelow(w.pending[n], dir);
    assert dir in Unread(t, w) && dir !in Unread(t, next);
  }

  lemma PassedOverFewer(t: Tree, w: Walk)
    requires w.queue == [] && w.pending != []
    ensures Unread(t, PassedOver(w)) <= Unread(t, w)
    ensures Remaining(t, PassedOver(w)) <= Remaining(t, w)
    ensures Left(t, PassedOver(w)) <= Left(t, w)
  {
    var next := PassedOver(w);
    forall l | Ahead(next, l) ensures Ahead(w, l) {
      var i :| 0 <= i < |next.pending| && Covers(w.recursive, next.pending[i], l);
      assert Covers(w.recursive, w.pending[i], l);
    }
    forall l | AtOrBelowSome(next.pending, l) ensures AtOrBelowSome(w.pending, l) {
      var i :| 0 <= i < |next.pending| && AtOrBelow(next.pending[i], l);
      assert AtOrBelow(w.pending[i], l);
    }
  }

  lemma PassedOverSound(t: Tree, w: Walk, start: Location, faulty: bool)
    requires Sound(t, w, start, faulty) && w.queue == [] && w.pending != []
    ensures Sound(t, PassedOver(w), start, faulty)
  {
    var n := |w.pending| - 1;
    forall i | 0 <= i < n ensures !AtOrBelow(w.pending[..n][i], w.pending[n]) {
      assert !AtOrBelow(w.pending[i], w.pending[n]);
    }
  }

  /** Passing over what is not a directory loses nothing. */
  lemma PassedOverKeeps(t: Tree, w: Walk, start: Location, faulty: bool)
    requires IsTree(t) && start != [] && Sound(t, w, start, faulty) && w.queue == [] && w.pending != []
    requires !IsDirectory(t, w.pending[|w.pending| - 1])
    ensures Left(t, w) <= Left(t, PassedOver(w))
  {
    var n := |w.pending| - 1;
    var next := PassedOver(w);
    assert AtOrBelow(start, w.pending[n]);
    forall l | l in Left(t, w) ensures l in Left(t, next) {
      assert Awaited(w, l);
      var i :| 0 <= i < |w.pending| && Covers(w.recursive, w.pending[i], l);
      if i == n {
        AncestorsInTree(t, w.pending[n], l);
      }
      assert next.pending[i] == w.pending[i];
    }
  }

  // ---------------------------------------------------------------------------------------
  // Returning an entry
  // ---------------------------------------------------------------------------------------

  function Tail(w: Walk): Walk
    requires w.queue != []
  {
    w.(queue := w.queue[1..])
  }

  function Front(w: Walk): Location
    requires w.queue != []
  {
    w.dir + [w.queue[0].name]
  }

  lemma FrontNotAhead(w: Walk)
    requires w.queue != [] && Distinct(w.queue) && !AtOrBelowSome(w.pending, w.dir)
    ensures !Ahead(Tail(w), Front(w))
    ensures forall l :: Ahead(w, l) <==> l == Front(w) || Ahead(Tail(w), l)
  {
    var l := Front(w);
    var next := Tail(w);
    assert Parent(l) == w.dir;
    if Awaited(next, l) {
      var i :| 0 <= i < |w.pending| && Covers(w.recursive, w.pending[i], l);
      BelowParent(w.pending[i], l);
    }
    forall i | 0 <= i < |next.queue| ensures l != w.dir + [next.queue[i].name] {
      assert next.queue[i] == w.queue[i + 1] && Differ(w.queue, 0, i + 1);
      assert l[|w.dir|] == w.queue[0].name && (w.dir + [next.queue[i].name])[|w.dir|] == w.queue[i + 1].name;
    }
    forall x | Ahead(w, x) ensures x == l || Ahead(next, x) {
      if Queued(w, x) {
        var i :| 0 <= i < |w.queue| && x == w.dir + [w.queue[i].name];
        if i > 0 {
          assert next.queue[i - 1] == w.queue[i];
        }
      } else {
        var i :| 0 <= i < |w.pending| && Covers(w.recursive, w.pending[i], x);
        assert Covers(next.recursive, next.pending[i], x);
      }
    }
    assert Queued(w, l) by {
      assert w.queue[0] == w.queue[0];
    }
    forall x | Ahead(next, x) ensures Ahead(w, x) {
      if Queued(next, x) {
        var i :| 0 <= i < |next.queue| && x == w.dir + [next.queue[i].name];
        assert w.queue[i + 1] == next.queue[i];
      } else {
        var i :| 0 <= i < |w.pending| && Covers(w.recursive, next.pending[i], x);
        assert Covers(w.recursive, w.pending[i], x);
      }
    }
  }

  /** Nothing that is left lies in a directory around the one being returned from. */
  lemma NoneAround(w: Walk, l: Location)
    requires l != [] && !AtOrBelowSome(w.pending, w.dir) && Ahead(w, l)
    ensures !Below(Parent(l), w.dir)
    ensures w.queue == [] ==> Parent(l) != w.dir
  {
    if Queued(w, l) {
      assert Parent(l) == w.dir;
    } else {
      var i :| 0 <= i < |w.pending| && Covers(w.recursive, w.pending[i], l);
      BelowParent(w.pending[i], l);
      if Parent(l) == w.dir || Below(Parent(l), w.dir) {
        BelowTrans(w.pending[i], Parent(l), w.dir);
      }
    }
  }

  lemma TailSound(t: Tree, w: Walk, start: Location, faulty: bool)
    requires Sound(t, w, start, faulty) && w.queue != []
    ensures Sound(t, Tail(w), start, faulty)
    ensures Front(w) in Remaining(t, w) && Present(t, w.dir, w.queue[0], faulty)
    ensures Remaining(t, Tail(w)) == Remaining(t, w) - {Front(w)}
    ensures Left(t, Tail(w)) == Left(t, w) - {Front(w)}
    ensures Below(start, Front(w))
  {
    FrontNotAhead(w);
    BelowParent(start, Front(w));
    assert Parent(Front(w)) == w.dir;
    assert Present(t, w.dir, w.queue[0], faulty);
    forall i, j | 0 <= i < j < |w.queue| - 1 ensures Differ(w.queue[1..], i, j) {
      assert Differ(w.queue, i + 1, j + 1);
    }
  }
}
